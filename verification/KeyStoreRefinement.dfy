/** The in-memory key store, and the file store as a refinement of it over whole runs. */
module KeyStoreRefinement {
  import opened Prelude
  import opened KeyStoreValues
  import opened KeyStoreDisk

  type Data = map<DataType, map<string, Value>>
  type Key = (DataType, string)

  function Find(data: Data, t: DataType, id: string): Option<Value> {
    if t in data && id in data[t] then Some(data[t][id]) else None
  }

  function Put(data: Data, ch: Change): Data {
    var bucket := if ch.dataType in data then data[ch.dataType] else map[];
    data[ch.dataType := if ch.value.Null? then bucket - {ch.id} else bucket[ch.id := ch.value]]
  }

  function PutAll(data: Data, batch: seq<Change>): Data
    decreases |batch|
  {
    if batch == [] then data else PutAll(Put(data, batch[0]), batch[1..])
  }

  /** The nested map that serves as the simple store. */
  class MemoryStore {
    var data: Data

    constructor ()
      ensures data == map[]
    {
      data := map[];
    }

    method Get(t: DataType, ids: seq<string>) returns (found: map<string, Value>)
      ensures found == MemoryGet(data, t, ids)
    {
      found := map[];
      var bucket := if t in data then data[t] else map[];
      for i := 0 to |ids|
        invariant forall id :: id in found <==> id in ids[..i] && id in bucket
        invariant forall id :: id in found ==> found[id] == bucket[id]
      {
        if ids[i] in bucket {
          found := found[ids[i] := bucket[ids[i]]];
        }
      }
    }

    method Set(batch: seq<Change>)
      modifies this
      ensures data == PutAll(old(data), batch)
    {
      for i := 0 to |batch|
        invariant PutAll(data, batch[i..]) == PutAll(old(data), batch)
      {
        var ch := batch[i];
        var bucket: map<string, Value> := map[];
        if ch.dataType in data {
          bucket := data[ch.dataType];
        }
        if ch.value.Null? {
          bucket := bucket - {ch.id};
        } else {
          bucket := bucket[ch.id := ch.value];
        }
        data := data[ch.dataType := bucket];
      }
    }
  }

  // ----- runs of calls -----

  /** A crash in the middle of a batch comes with the recoveries, cut short or not, and the last full one. */
  datatype Call =
    | SetCall(batch: seq<Change>, stamps: nat -> string)
    | CrashingSet(batch: seq<Change>, stamps: nat -> string, k: nat, attempts: seq<Attempt>, last: nat -> string)
    | GetCall(dataType: DataType, ids: seq<string>)

  /** The files after a batch was cut behind k operations, and recovered. */
  function CrashAndRecover(
      f: Files, journal: seq<Entry>, stamps: nat -> string, k: nat, attempts: seq<Attempt>, last: nat -> string): Files {
    var cut := RecoverRepeatedly(Crashing(f, SetOps(journal, stamps), k), attempts);
    Exec(cut, RecoverOps(cut, last))
  }

  function MemoryGet(data: Data, t: DataType, ids: seq<string>): map<string, Value> {
    map id | id in ids && Find(data, t, id).Some? :: Find(data, t, id).value
  }

  /** Every answer of the in-memory store, in order; it takes a crashing batch whole if the journal was in place. */
  function MemoryRun(data: Data, calls: seq<Call>): seq<map<string, Value>>
    decreases |calls|
  {
    if calls == [] then [] else
    match calls[0]
    case SetCall(batch, _) => MemoryRun(PutAll(data, batch), calls[1..])
    case CrashingSet(batch, _, k, _, _) => MemoryRun(if k >= COMMIT then PutAll(data, batch) else data, calls[1..])
    case GetCall(t, ids) => [MemoryGet(data, t, ids)] + MemoryRun(data, calls[1..])
  }

  /** Every answer of the file store, in order, from the file operations that really happened. */
  function FileRun(b: Base64, f: Files, calls: seq<Call>): seq<map<string, Value>>
    decreases |calls|
  {
    if calls == [] then [] else
    match calls[0]
    case SetCall(batch, stamps) => FileRun(b, Exec(f, SetOps(JournalOf(b, batch), stamps)), calls[1..])
    case CrashingSet(batch, stamps, k, attempts, last) =>
      FileRun(b, CrashAndRecover(f, JournalOf(b, batch), stamps, k, attempts, last), calls[1..])
    case GetCall(t, ids) => [FileGet(b, f, t, ids)] + FileRun(b, f, calls[1..])
  }

  /** No two of these keys share a file (SameFileExactly says which do). */
  ghost predicate DistinctFiles(keys: set<Key>) {
    forall k, l :: k in keys && l in keys && FileName(k.0, k.1) == FileName(l.0, l.1) ==> k == l
  }

  ghost predicate GoodBatch(keys: set<Key>, batch: seq<Change>) {
    forall ch :: ch in batch ==> (ch.dataType, ch.id) in keys && Untagged(ch.value)
  }

  ghost predicate GoodCall(keys: set<Key>, call: Call) {
    match call
    case SetCall(batch, _) => GoodBatch(keys, batch)
    case CrashingSet(batch, _, _, _, _) => GoodBatch(keys, batch)
    case GetCall(t, ids) => forall id :: id in ids ==> (t, id) in keys
  }

  /** The file of every key holds exactly what memory holds for it. */
  ghost predicate Coupled(b: Base64, keys: set<Key>, v: Files, data: Data) {
    forall k :: k in keys ==>
      match Find(data, k.0, k.1)
      case None => FileName(k.0, k.1) !in v
      case Some(value) =>
        FileName(k.0, k.1) in v && v[FileName(k.0, k.1)] == Doc(Serialize(b, value)) && Untagged(value)
  }

  lemma PutKeepsCoupling(b: Base64, keys: set<Key>, v: Files, data: Data, ch: Change)
    requires DistinctFiles(keys) && Coupled(b, keys, v, data) && GoodBatch(keys, [ch])
    ensures Coupled(b, keys, ApplyEntry(EntryOf(b, ch), v), Put(data, ch))
  {
    assert ch in [ch];
    var w, data' := ApplyEntry(EntryOf(b, ch), v), Put(data, ch);
    forall k | k in keys
      ensures match Find(data', k.0, k.1)
        case None => FileName(k.0, k.1) !in w
        case Some(value) =>
          FileName(k.0, k.1) in w && w[FileName(k.0, k.1)] == Doc(Serialize(b, value)) && Untagged(value)
    {
      if k != (ch.dataType, ch.id) {
        assert Find(data', k.0, k.1) == Find(data, k.0, k.1);
        assert FileName(k.0, k.1) != FileName(ch.dataType, ch.id);
      }
    }
  }

  lemma {:induction false} BatchKeepsCoupling(b: Base64, keys: set<Key>, v: Files, data: Data, batch: seq<Change>)
    requires DistinctFiles(keys) && Coupled(b, keys, v, data) && GoodBatch(keys, batch)
    ensures Coupled(b, keys, Replay(JournalOf(b, batch), v), PutAll(data, batch))
    decreases |batch|
  {
    if batch != [] {
      PutKeepsCoupling(b, keys, v, data, batch[0]);
      BatchKeepsCoupling(b, keys, ApplyEntry(EntryOf(b, batch[0]), v), Put(data, batch[0]), batch[1..]);
      assert JournalOf(b, batch)[1..] == JournalOf(b, batch[1..]);
    }
  }

  lemma CoupledReads(b: Base64, keys: set<Key>, f: Files, data: Data, t: DataType, ids: seq<string>)
    requires Faithful(b) && Coupled(b, keys, View(f), data) && GoodCall(keys, GetCall(t, ids))
    ensures FileGet(b, f, t, ids) == MemoryGet(data, t, ids)
  {
    forall id | id in ids ensures ReadKey(b, f, t, id) == Find(data, t, id) {
      assert (t, id) in keys;
      KeyFileIsOrdinary(t, id);
      if Find(data, t, id).Some? {
        ReviveSerialized(b, Find(data, t, id).value);
      }
    }
  }

  lemma CompletedSet(b: Base64, f: Files, batch: seq<Change>, stamps: nat -> string)
    requires JOURNAL !in f
    ensures Settled(Exec(f, SetOps(JournalOf(b, batch), stamps)), Replay(JournalOf(b, batch), View(f)))
  {
    var ops := SetOps(JournalOf(b, batch), stamps);
    JournalOfIsGood(b, batch);
    SetPrefix(f, JournalOf(b, batch), stamps, |ops|);
    assert ops[..|ops|] == ops;
    JournalUntouched(JournalOf(b, batch), View(f), Torn);
    TempNameIsTemp("", "");
    assert JOURNAL in Exec(f, ops) ==> JOURNAL in View(Exec(f, ops));
  }

  /** A batch with a crash in it leaves the stores coupled, with the whole batch or with none of it. */
  lemma CrashKeepsCoupling(b: Base64, keys: set<Key>, f: Files, data: Data, call: Call)
    requires DistinctFiles(keys) && call.CrashingSet? && GoodCall(keys, call)
    requires JOURNAL !in f && Coupled(b, keys, View(f), data)
    ensures
      var end := CrashAndRecover(f, JournalOf(b, call.batch), call.stamps, call.k, call.attempts, call.last);
      JOURNAL !in end && Coupled(b, keys, View(end), if call.k >= COMMIT then PutAll(data, call.batch) else data)
  {
    CrashAtomicity(b, f, call.batch, call.stamps, call.k, call.attempts, call.last);
    BatchKeepsCoupling(b, keys, View(f), data, call.batch);
  }

  /**
   Refinement. Over any run of calls on keys with distinct files and untagged values, with any number
   of batches that crash anywhere and are recovered through any number of further crashes, the file
   store answers as the in-memory store does that takes each crashing batch whole or not at all.
   */
  lemma {:induction false} StoresAgree(b: Base64, keys: set<Key>, f: Files, data: Data, calls: seq<Call>)
    requires Faithful(b) && DistinctFiles(keys)
    requires JOURNAL !in f && Coupled(b, keys, View(f), data)
    requires forall call :: call in calls ==> GoodCall(keys, call)
    ensures FileRun(b, f, calls) == MemoryRun(data, calls)
    decreases |calls|
  {
    hide Coupled; hide Settled; hide CrashAndRecover; hide SetOps; hide FileGet; hide MemoryGet;
    if calls != [] {
      assert GoodCall(keys, calls[0]);
      match calls[0]
      case SetCall(batch, stamps) =>
        SetKeepsCoupling(b, keys, f, data, batch, stamps);
        StoresAgree(b, keys, Exec(f, SetOps(JournalOf(b, batch), stamps)), PutAll(data, batch), calls[1..]);
      case CrashingSet(batch, stamps, k, attempts, last) =>
        CrashKeepsCoupling(b, keys, f, data, calls[0]);
        var end := CrashAndRecover(f, JournalOf(b, batch), stamps, k, attempts, last);
        StoresAgree(b, keys, end, if k >= COMMIT then PutAll(data, batch) else data, calls[1..]);
      case GetCall(t, ids) =>
        CoupledReads(b, keys, f, data, t, ids);
        StoresAgree(b, keys, f, data, calls[1..]);
    }
  }

  lemma SetKeepsCoupling(b: Base64, keys: set<Key>, f: Files, data: Data, batch: seq<Change>, stamps: nat -> string)
    requires DistinctFiles(keys) && GoodBatch(keys, batch)
    requires JOURNAL !in f && Coupled(b, keys, View(f), data)
    ensures
      var end := Exec(f, SetOps(JournalOf(b, batch), stamps));
      JOURNAL !in end && Coupled(b, keys, View(end), PutAll(data, batch))
  {
    CompletedSet(b, f, batch, stamps);
    BatchKeepsCoupling(b, keys, View(f), data, batch);
  }

  /** An empty folder and an empty map are coupled, whatever the keys. */
  lemma FreshStoresAgree(b: Base64, keys: set<Key>, calls: seq<Call>)
    requires Faithful(b) && DistinctFiles(keys)
    requires forall call :: call in calls ==> GoodCall(keys, call)
    ensures FileRun(b, map[], calls) == MemoryRun(map[], calls)
  {
    StoresAgree(b, keys, map[], map[], calls);
  }

  /**
   A batch that crashes anywhere, recoveries that crash anywhere, one full recovery: from then on
   the file store answers as memory does, with the whole batch or with none of it.
   */
  lemma StoresAgreeAfterCrash(
      b: Base64, keys: set<Key>, f: Files, data: Data, batch: seq<Change>, stamps: nat -> string,
      k: nat, attempts: seq<Attempt>, last: nat -> string, calls: seq<Call>)
    requires Faithful(b) && DistinctFiles(keys)
    requires JOURNAL !in f && Coupled(b, keys, View(f), data) && GoodBatch(keys, batch)
    requires forall call :: call in calls ==> GoodCall(keys, call)
    ensures FileRun(b, CrashAndRecover(f, JournalOf(b, batch), stamps, k, attempts, last), calls)
      == MemoryRun(if k >= COMMIT then PutAll(data, batch) else data, calls)
  {
    CrashKeepsCoupling(b, keys, f, data, CrashingSet(batch, stamps, k, attempts, last));
    var end := CrashAndRecover(f, JournalOf(b, batch), stamps, k, attempts, last);
    StoresAgree(b, keys, end, if k >= COMMIT then PutAll(data, batch) else data, calls);
  }

  lemma SetThenGet(b: Base64, f: Files, data: Data, batch: seq<Change>, stamps: nat -> string, t: DataType, ids: seq<string>)
    ensures FileRun(b, f, [SetCall(batch, stamps), GetCall(t, ids)])
      == [FileGet(b, Exec(f, SetOps(JournalOf(b, batch), stamps)), t, ids)]
    ensures MemoryRun(data, [SetCall(batch, stamps), GetCall(t, ids)]) == [MemoryGet(PutAll(data, batch), t, ids)]
  {
    hide SetOps; hide FileGet; hide MemoryGet; hide PutAll; hide JournalOf; hide Exec;
    var calls := [SetCall(batch, stamps), GetCall(t, ids)];
    var last := [GetCall(t, ids)];
    assert calls[1..] == last && last[1..] == [];
    var (f1, data1) := (Exec(f, SetOps(JournalOf(b, batch), stamps)), PutAll(data, batch));
    assert FileRun(b, f1, last) == [FileGet(b, f1, t, ids)] + FileRun(b, f1, []);
    assert MemoryRun(data1, last) == [MemoryGet(data1, t, ids)] + MemoryRun(data1, []);
  }

  /** The calls that write one key and read another. */
  function WriteThenRead(k: Key, l: Key, value: Value, stamps: nat -> string): seq<Call> {
    [SetCall([Change(k.0, k.1, value)], stamps), GetCall(l.0, [l.1])]
  }

  /** What both stores answer when one key is written to an empty store and another is read. */
  lemma WriteThenReadAnswers(b: Base64, k: Key, l: Key, value: Value, stamps: nat -> string)
    requires !value.Null? && FileName(k.0, k.1) == FileName(l.0, l.1)
    ensures
      var file, memory := FileRun(b, map[], WriteThenRead(k, l, value, stamps)), MemoryRun(map[], WriteThenRead(k, l, value, stamps));
      && |file| == 1 && |memory| == 1
      && (if l.1 in file[0] then Some(file[0][l.1]) else None) == Revive(b, Serialize(b, value))
      && memory[0] == if k == l then map[l.1 := value] else map[]
  {
    var batch := [Change(k.0, k.1, value)];
    SetThenGet(b, map[], map[], batch, stamps, l.0, [l.1]);
    var file, v := FileName(k.0, k.1), Doc(Serialize(b, value));
    var f1 := Exec(map[], SetOps(JournalOf(b, batch), stamps));
    assert View(f1) == map[file := v] by {
      CompletedSet(b, map[], batch, stamps);
      OneWrite(b, batch[0]);
    }
    assert file in View(f1) && f1[file] == v;
    assert batch[1..] == [];
    assert PutAll(map[], batch) == Put(map[], batch[0]);
    assert ReadKey(b, f1, l.0, l.1) == Revive(b, Serialize(b, value));
  }

  /** Any two different keys on one file break the agreement, with any value that a file can hold. */
  lemma SharedFileBreaksAgreement(b: Base64, k: Key, l: Key, value: Value, stamps: nat -> string)
    requires Faithful(b) && k != l && FileName(k.0, k.1) == FileName(l.0, l.1)
    requires !value.Null? && Untagged(value)
    ensures FileRun(b, map[], WriteThenRead(k, l, value, stamps)) != MemoryRun(map[], WriteThenRead(k, l, value, stamps))
  {
    WriteThenReadAnswers(b, k, l, value, stamps);
    ReviveSerialized(b, value);
  }

  /** A value read back under its own key is answered alike exactly when nothing in it looks like a stored buffer. */
  lemma OwnKeyAgreesExactly(b: Base64, k: Key, value: Value, stamps: nat -> string)
    requires Faithful(b) && !value.Null?
    ensures FileRun(b, map[], WriteThenRead(k, k, value, stamps)) == MemoryRun(map[], WriteThenRead(k, k, value, stamps))
      <==> Untagged(value)
  {
    var calls := WriteThenRead(k, k, value, stamps);
    WriteThenReadAnswers(b, k, k, value, stamps);
    ReviveSerialized(b, value);
    if Untagged(value) {
      FreshStoresAgree(b, {k}, calls);
    }
  }

  /** Distinct files are not only enough for the agreement over all runs, they are needed. */
  lemma AgreementExactly(b: Base64, keys: set<Key>)
    requires Faithful(b)
    ensures DistinctFiles(keys) <==> forall calls: seq<Call> | (forall call :: call in calls ==> GoodCall(keys, call)) ::
      FileRun(b, map[], calls) == MemoryRun(map[], calls)
  {
    if DistinctFiles(keys) {
      forall calls: seq<Call> | forall call :: call in calls ==> GoodCall(keys, call)
        ensures FileRun(b, map[], calls) == MemoryRun(map[], calls)
      {
        FreshStoresAgree(b, keys, calls);
      }
    } else {
      var k, l :| k in keys && l in keys && FileName(k.0, k.1) == FileName(l.0, l.1) && k != l;
      var calls := WriteThenRead(k, l, Bool(true), n => "");
      SharedFileBreaksAgreement(b, k, l, Bool(true), n => "");
      assert forall call :: call in calls ==> GoodCall(keys, call);
    }
  }

  /** Keys that keep their ids, without the sender keys that spell out a longer type name. */
  predicate OrdinaryKeys(keys: set<Key>) {
    forall k :: k in keys ==> KeptId(k.1) && (k.0 == SenderKey ==> !("memory-" <= k.1) && !("status-" <= k.1))
  }

  /** For ordinary keys nothing has to be assumed of their files: the stores agree over all runs. */
  lemma OrdinaryKeysAgree(b: Base64, keys: set<Key>, calls: seq<Call>)
    requires Faithful(b) && OrdinaryKeys(keys)
    requires forall call :: call in calls ==> GoodCall(keys, call)
    ensures FileRun(b, map[], calls) == MemoryRun(map[], calls)
  {
    forall k, l | k in keys && l in keys && FileName(k.0, k.1) == FileName(l.0, l.1) ensures k == l {
      KeptKeysDiffer(k.0, k.1, l.0, l.1);
    }
    FreshStoresAgree(b, keys, calls);
  }

  /** A pre-key written under one number is found under that number, as it was, and under no other. */
  lemma PreKeysStayApart(b: Base64, m: nat, n: nat, value: Value, stamps: nat -> string)
    requires Faithful(b) && !value.Null? && Untagged(value)
    ensures FileRun(b, map[], WriteThenRead((PreKey, Decimals(m)), (PreKey, Decimals(n)), value, stamps))
      == [if m == n then map[Decimals(n) := value] else map[]]
  {
    var k, l, id := (PreKey, Decimals(m)), (PreKey, Decimals(n)), Decimals(n);
    var calls := WriteThenRead(k, l, value, stamps);
    DecimalsKept(m);
    DecimalsKept(n);
    OrdinaryKeysAgree(b, {k, l}, calls);
    DecimalsDiffer(m, n);
    SetThenGet(b, map[], map[], [Change(PreKey, Decimals(m), value)], stamps, PreKey, [id]);
    hide FileRun; hide MemoryRun; hide Decimals; hide OrdinaryKeys; hide GoodCall; hide MemoryGet; hide PutAll;
    OnePut(PreKey, Decimals(m), id, value);
  }

  /** What memory answers for one id after one write. */
  lemma OnePut(t: DataType, id: string, asked: string, value: Value)
    requires !value.Null?
    ensures MemoryGet(PutAll(map[], [Change(t, id, value)]), t, [asked]) == if id == asked then map[asked := value] else map[]
  {
    var batch := [Change(t, id, value)];
    assert batch[1..] == [];
    var data := Put(map[], batch[0]);
    assert PutAll(map[], batch) == PutAll(data, []) == data;
    assert t in data && data[t] == map[id := value];
  }

  /** A stored byte value lies in its file as an object tagged "buffer" with its base64 text. */
  lemma StoredBytes(b: Base64, id: string, data: bytes, stamps: nat -> string)
    requires KeptId(id)
    ensures
      var files := View(Exec(map[], SetOps(JournalOf(b, [Change(PreKey, id, Bytes(data))]), stamps)));
      files == map["pre-key-" + id + ".json" := Doc(JObj(["__type", "data"], [JStr("buffer"), JStr(b.encode(data))]))]
  {
    var batch := [Change(PreKey, id, Bytes(data))];
    CompletedSet(b, map[], batch, stamps);
    OneWrite(b, batch[0]);
    FileNamesExactly(PreKey, id, "");
  }

  /** Two keys that share a file: the agreement fails for them. */
  lemma SenderKeyShadowsMemory(b: Base64, value: Value, stamps: nat -> string)
    requires Faithful(b) && !value.Null? && Untagged(value)
    ensures
      var calls := WriteThenRead((SenderKey, "memory-x"), (SenderKeyMemory, "x"), value, stamps);
      FileRun(b, map[], calls) != MemoryRun(map[], calls)
  {
    assert Sanitize("memory-x") == SenderSuffix(SenderKeyMemory) + Sanitize("x");
    SameFileExactly(SenderKey, "memory-x", SenderKeyMemory, "x");
    SharedFileBreaksAgreement(b, (SenderKey, "memory-x"), (SenderKeyMemory, "x"), value, stamps);
  }

  /** The effect of a batch of one write on an empty folder. */
  lemma OneWrite(b: Base64, ch: Change)
    requires !ch.value.Null?
    ensures Replay(JournalOf(b, [ch]), View(map[])) == map[FileName(ch.dataType, ch.id) := Doc(Serialize(b, ch.value))]
  {
    var journal := JournalOf(b, [ch]);
    assert [ch][1..] == [] && JournalOf(b, []) == [];
    assert journal == [EntryOf(b, ch)] && journal[1..] == [];
    assert View(map[]) == map[];
  }
}

/**
 The journaled key store on disk. Every file operation is one step, a crash may fall between
 any two of them, and recovery replays the journal.
 */
module KeyStoreDisk {
  import opened Prelude
  import opened KeyStoreValues

  datatype Entry = Write(file: string, payload: Json) | Delete(file: string)

  /** What a file holds; Torn is a file that was opened for writing and not finished. */
  datatype Content = Doc(json: Json) | Log(entries: seq<Entry>) | Torn

  type Files = map<string, Content>

  datatype Op =
    | Create(name: string)
    | Fill(name: string, content: Content)
    | Rename(from: string, to: string)
    | Unlink(name: string)

  function Apply(f: Files, op: Op): Files {
    match op
    case Create(n) => f[n := Torn]
    case Fill(n, c) => f[n := c]
    case Rename(from, to) => if from in f then f[to := f[from]] - {from} else f
    case Unlink(n) => f - {n}
  }

  function Exec(f: Files, ops: seq<Op>): Files
    decreases |ops|
  {
    if ops == [] then f else Exec(Apply(f, ops[0]), ops[1..])
  }

  /** The files after a process that wanted to do `ops` crashed having done at most n of them. */
  function Crashing(f: Files, ops: seq<Op>, n: nat): Files {
    Exec(f, ops[..Min(n, |ops|)])
  }

  lemma ExecOne(f: Files, op: Op)
    ensures Exec(f, [op]) == Apply(f, op)
  {
    assert [op][1..] == [];
  }

  lemma {:induction false} ExecSplit(f: Files, a: seq<Op>, b: seq<Op>)
    ensures Exec(f, a + b) == Exec(Exec(f, a), b)
    decreases |a|
  {
    if a == [] {
      assert a + b == b;
    } else {
      assert (a + b)[1..] == a[1..] + b;
      ExecSplit(Apply(f, a[0]), a[1..], b);
    }
  }

  lemma CrashNothing(f: Files, n: nat)
    ensures Crashing(f, [], n) == f
  {
    var none: seq<Op> := [];
    assert none[..0] == [];
  }

  lemma CrashSplit(f: Files, a: seq<Op>, b: seq<Op>, n: nat)
    ensures Crashing(f, a + b, n) == Crashing(Crashing(f, a, n), b, n - Min(n, |a|))
  {
    var k := Min(n, |a + b|);
    if n <= |a| {
      assert (a + b)[..k] == a[..k];
      assert b[..0] == [];
    } else {
      assert a[..|a|] == a;
      assert (a + b)[..k] == a + b[..k - |a|];
      ExecSplit(f, a, b[..k - |a|]);
    }
  }

  // ----- what the store does to its files -----

  /** Write a scratch file, then move it over the target. */
  function AtomicWriteOps(name: string, content: Content, stamp: string): (ops: seq<Op>)
    ensures |ops| == 3
  {
    var tmp := TempName(name, stamp);
    [Create(tmp), Fill(tmp, content), Rename(tmp, name)]
  }

  function EntryOps(e: Entry, stamp: string): seq<Op> {
    match e
    case Write(file, payload) => AtomicWriteOps(file, Doc(payload), stamp)
    case Delete(file) => [Unlink(file)]
  }

  function EntriesOps(journal: seq<Entry>, stamps: nat -> string): seq<Op> {
    if journal == [] then []
    else EntryOps(journal[0], stamps(|journal|)) + EntriesOps(journal[1..], stamps)
  }

  function JournalOps(journal: seq<Entry>, stamps: nat -> string): seq<Op> {
    if journal == [] then [] else AtomicWriteOps(JOURNAL, Log(journal), stamps(0))
  }

  /** One batch: write the journal, apply its entries, remove the journal. */
  function SetOps(journal: seq<Entry>, stamps: nat -> string): seq<Op> {
    JournalOps(journal, stamps) + EntriesOps(journal, stamps) + [Unlink(JOURNAL)]
  }

  /** Recovery: when a readable journal is found, apply all of it and remove it. */
  function RecoverOps(f: Files, stamps: nat -> string): seq<Op> {
    if JOURNAL in f && f[JOURNAL].Log? then EntriesOps(f[JOURNAL].entries, stamps) + [Unlink(JOURNAL)] else []
  }

  datatype Change = Change(dataType: DataType, id: string, value: Value)

  /** A null value asks for deletion. */
  function EntryOf(b: Base64, ch: Change): Entry {
    var file := FileName(ch.dataType, ch.id);
    if ch.value.Null? then Delete(file) else Write(file, Serialize(b, ch.value))
  }

  function JournalOf(b: Base64, batch: seq<Change>): seq<Entry> {
    if batch == [] then [] else [EntryOf(b, batch[0])] + JournalOf(b, batch[1..])
  }

  /** What `get` reads for one id. */
  function ReadKey(b: Base64, f: Files, t: DataType, id: string): Option<Value> {
    var file := FileName(t, id);
    if file in f && f[file].Doc? then Revive(b, f[file].json) else None
  }

  function FileGet(b: Base64, f: Files, t: DataType, ids: seq<string>): map<string, Value> {
    map id | id in ids && ReadKey(b, f, t, id).Some? :: ReadKey(b, f, t, id).value
  }

  /** The program's store. It does at most `budget` more file operations before its process dies. */
  class FileStore {
    const b64: Base64
    var files: Files
    var budget: nat

    constructor (b64: Base64, files: Files, budget: nat)
      ensures this.b64 == b64 && this.files == files && this.budget == budget
    {
      this.b64 := b64;
      this.files := files;
      this.budget := budget;
    }

    method Do(op: Op)
      modifies this
      ensures files == Crashing(old(files), [op], old(budget))
      ensures budget == old(budget) - Min(old(budget), 1)
    {
      assert [op][..0] == [] && [op][..1] == [op];
      ExecOne(files, op);
      if budget > 0 {
        files := Apply(files, op);
        budget := budget - 1;
      }
    }

    method AtomicWrite(name: string, content: Content, stamp: string)
      modifies this
      ensures files == Crashing(old(files), AtomicWriteOps(name, content, stamp), old(budget))
      ensures budget == old(budget) - Min(old(budget), |AtomicWriteOps(name, content, stamp)|)
    {
      var tmp := TempName(name, stamp);
      CrashSplit(files, [Create(tmp)], [Fill(tmp, content)], budget);
      CrashSplit(files, [Create(tmp), Fill(tmp, content)], [Rename(tmp, name)], budget);
      assert [Create(tmp)] + [Fill(tmp, content)] == [Create(tmp), Fill(tmp, content)];
      assert AtomicWriteOps(name, content, stamp) == [Create(tmp), Fill(tmp, content)] + [Rename(tmp, name)];
      Do(Create(tmp));
      Do(Fill(tmp, content));
      Do(Rename(tmp, name));
    }

    /** The loop shared by `set` and recovery. */
    method ApplyEntries(journal: seq<Entry>, stamps: nat -> string)
      modifies this
      ensures files == Crashing(old(files), EntriesOps(journal, stamps), old(budget))
      ensures budget == old(budget) - Min(old(budget), |EntriesOps(journal, stamps)|)
    {
      hide Crashing; hide AtomicWriteOps;
      var rest := journal;
      ghost var done: seq<Op> := [];
      CrashNothing(files, budget);
      while rest != []
        invariant done + EntriesOps(rest, stamps) == EntriesOps(journal, stamps)
        invariant files == Crashing(old(files), done, old(budget))
        invariant budget == old(budget) - Min(old(budget), |done|)
        decreases |rest|
      {
        var e := rest[0];
        ghost var ops := EntryOps(e, stamps(|rest|));
        assert done + EntriesOps(rest, stamps) == done + ops + EntriesOps(rest[1..], stamps);
        CrashSplit(old(files), done, ops, old(budget));
        match e {
          case Delete(file) => Do(Unlink(file));
          case Write(file, payload) => AtomicWrite(file, Doc(payload), stamps(|rest|));
        }
        done := done + ops;
        rest := rest[1..];
      }
      assert done == EntriesOps(journal, stamps);
    }

    method BuildJournal(batch: seq<Change>) returns (journal: seq<Entry>)
      ensures journal == JournalOf(b64, batch)
    {
      hide Serialize; hide FileName;
      journal := [];
      for i := 0 to |batch|
        invariant journal + JournalOf(b64, batch[i..]) == JournalOf(b64, batch)
      {
        assert batch[i..][1..] == batch[i + 1..];
        var ch := batch[i];
        var file := FileName(ch.dataType, ch.id);
        if ch.value.Null? {
          journal := journal + [Delete(file)];
        } else {
          journal := journal + [Write(file, Serialize(b64, ch.value))];
        }
      }
    }

    method Set(batch: seq<Change>, stamps: nat -> string)
      modifies this
      ensures files == Crashing(old(files), SetOps(JournalOf(b64, batch), stamps), old(budget))
    {
      hide Crashing; hide JournalOf; hide AtomicWriteOps; hide EntriesOps;
      var journal := BuildJournal(batch);
      CrashNothing(files, budget);
      var start, entries := JournalOps(journal, stamps), EntriesOps(journal, stamps);
      CrashSplit(files, start, entries, budget);
      CrashSplit(files, start + entries, [Unlink(JOURNAL)], budget);
      if |journal| > 0 {
        AtomicWrite(JOURNAL, Log(journal), stamps(0));
      }
      ApplyEntries(journal, stamps);
      Do(Unlink(JOURNAL));
    }

    method RecoverJournal(stamps: nat -> string)
      modifies this
      ensures files == Crashing(old(files), RecoverOps(old(files), stamps), old(budget))
    {
      if JOURNAL in files && files[JOURNAL].Log? {
        var entries := files[JOURNAL].entries;
        CrashSplit(files, EntriesOps(entries, stamps), [Unlink(JOURNAL)], budget);
        ApplyEntries(entries, stamps);
        Do(Unlink(JOURNAL));
      }
    }

    method Get(t: DataType, ids: seq<string>) returns (found: map<string, Value>)
      ensures found == FileGet(b64, files, t, ids)
    {
      hide ReadKey;
      found := map[];
      for i := 0 to |ids|
        invariant forall id :: id in found <==> id in ids[..i] && ReadKey(b64, files, t, id).Some?
        invariant forall id :: id in found ==> Some(found[id]) == ReadKey(b64, files, t, id)
      {
        var r := ReadKey(b64, files, t, ids[i]);
        if r.Some? {
          found := found[ids[i] := r.value];
        }
      }
    }
  }

  // ----- crash atomicity -----

  /** The files that are not scratch files: all that the store ever reads. */
  function View(f: Files): Files {
    map n | n in f && !IsTemp(n) :: f[n]
  }

  function ApplyEntry(e: Entry, v: Files): Files {
    match e
    case Write(file, payload) => v[file := Doc(payload)]
    case Delete(file) => v - {file}
  }

  /** The whole effect of a journal on the key files. */
  function Replay(journal: seq<Entry>, v: Files): Files
    decreases |journal|
  {
    if journal == [] then v else Replay(journal[1..], ApplyEntry(journal[0], v))
  }

  ghost function Paths(journal: seq<Entry>): set<string> {
    set e | e in journal :: e.file
  }

  ghost predicate AgreeOff(v: Files, w: Files, paths: set<string>) {
    forall n :: n !in paths ==> (n in v <==> n in w) && (n in v ==> v[n] == w[n])
  }

  /** Journals name key files only: never a scratch file, never the journal. */
  ghost predicate GoodJournal(journal: seq<Entry>) {
    forall e :: e in journal ==> !IsTemp(e.file) && e.file != JOURNAL
  }

  lemma {:induction false} JournalOfIsGood(b: Base64, batch: seq<Change>)
    ensures GoodJournal(JournalOf(b, batch))
  {
    if batch != [] {
      KeyFileIsOrdinary(batch[0].dataType, batch[0].id);
      JournalOfIsGood(b, batch[1..]);
    }
  }

  /** A whole replay forgets anything that happened to the files it names. */
  lemma {:induction false} ReplayAgrees(journal: seq<Entry>, v: Files, w: Files)
    requires AgreeOff(v, w, Paths(journal))
    ensures Replay(journal, v) == Replay(journal, w)
    decreases |journal|
  {
    if journal == [] {
      assert v == w;
    } else {
      var v1, w1 := ApplyEntry(journal[0], v), ApplyEntry(journal[0], w);
      forall n | n !in Paths(journal[1..])
        ensures (n in v1 <==> n in w1) && (n in v1 ==> v1[n] == w1[n])
      {
        if n != journal[0].file {
          assert n !in Paths(journal);
        }
      }
      ReplayAgrees(journal[1..], v1, w1);
    }
  }

  lemma {:induction false} ReplayTouchesPaths(journal: seq<Entry>, v: Files)
    ensures AgreeOff(Replay(journal, v), v, Paths(journal))
    decreases |journal|
  {
    if journal != [] {
      ReplayTouchesPaths(journal[1..], ApplyEntry(journal[0], v));
      assert Paths(journal[1..]) <= Paths(journal) && journal[0].file in Paths(journal);
    }
  }

  /** Replaying the whole journal after any applied prefix of it gives the same map. */
  lemma ReplayAfterPrefix(journal: seq<Entry>, m: nat, v: Files)
    requires m <= |journal|
    ensures Replay(journal, Replay(journal[..m], v)) == Replay(journal, v)
  {
    ReplayTouchesPaths(journal[..m], v);
    assert Paths(journal[..m]) <= Paths(journal);
    ReplayAgrees(journal, Replay(journal[..m], v), v);
  }

  /** An interrupted atomic write shows nothing; a finished one shows exactly its content. */
  lemma AtomicWritePrefix(f: Files, name: string, content: Content, stamp: string, k: nat)
    requires k <= 3 && !IsTemp(name)
    ensures View(Exec(f, AtomicWriteOps(name, content, stamp)[..k]))
      == if k == 3 then View(f)[name := content] else View(f)
  {
    var tmp := TempName(name, stamp);
    TempNameIsTemp(name, stamp);
    var ops := AtomicWriteOps(name, content, stamp);
    var f1, f2 := Apply(f, ops[0]), Apply(Apply(f, ops[0]), ops[1]);
    assert View(f1) == View(f) && View(f2) == View(f);
    assert View(Apply(f2, ops[2])) == View(f)[name := content];
    match k {
      case 0 => assert ops[..0] == [];
      case 1 => assert ops[..1] == [ops[0]]; assert Exec(f, [ops[0]]) == f1;
      case 2 => assert ops[..2] == [ops[0]] + [ops[1]]; ExecSplit(f, [ops[0]], [ops[1]]);
      case 3 =>
        assert ops[..3] == [ops[0]] + [ops[1]] + [ops[2]];
        ExecSplit(f, [ops[0]] + [ops[1]], [ops[2]]);
        ExecSplit(f, [ops[0]], [ops[1]]);
    }
  }

  lemma EntryPrefix(f: Files, e: Entry, stamp: string, k: nat)
    requires k <= |EntryOps(e, stamp)| && !IsTemp(e.file)
    ensures View(Exec(f, EntryOps(e, stamp)[..k]))
      == if k == |EntryOps(e, stamp)| then ApplyEntry(e, View(f)) else View(f)
  {
    match e
    case Write(file, payload) => AtomicWritePrefix(f, file, Doc(payload), stamp, k);
    case Delete(file) =>
      assert EntryOps(e, stamp)[..0] == [] && EntryOps(e, stamp)[..1] == [Unlink(file)];
      assert View(Apply(f, Unlink(file))) == View(f) - {file};
  }

  /** Wherever the entry loop is cut, what shows is the replay of some prefix of the journal. */
  lemma {:induction false} EntriesPrefix(f: Files, journal: seq<Entry>, stamps: nat -> string, k: nat) returns (m: nat)
    requires k <= |EntriesOps(journal, stamps)| && GoodJournal(journal)
    ensures m <= |journal|
    ensures View(Exec(f, EntriesOps(journal, stamps)[..k])) == Replay(journal[..m], View(f))
    ensures k == |EntriesOps(journal, stamps)| ==> m == |journal|
    decreases |journal|
  {
    if journal == [] {
      return 0;
    }
    var first, rest := EntryOps(journal[0], stamps(|journal|)), EntriesOps(journal[1..], stamps);
    if k < |first| {
      EntryPrefix(f, journal[0], stamps(|journal|), k);
      assert (first + rest)[..k] == first[..k];
      return 0;
    }
    EntryPrefix(f, journal[0], stamps(|journal|), |first|);
    assert first[..|first|] == first;
    assert (first + rest)[..k] == first + rest[..k - |first|];
    ExecSplit(f, first, rest[..k - |first|]);
    m := EntriesPrefix(Exec(f, first), journal[1..], stamps, k - |first|);
    m := m + 1;
    assert journal[..m][1..] == journal[1..][..m - 1];
  }

  /** A disk whose journal is in place and whose other files differ from v at most where the journal says. */
  ghost predicate Pending(f: Files, journal: seq<Entry>, v: Files) {
    && GoodJournal(journal)
    && JOURNAL in f && f[JOURNAL] == Log(journal)
    && AgreeOff(View(f), v[JOURNAL := Log(journal)], Paths(journal))
  }

  /** The entry loop, cut anywhere, keeps the disk pending. */
  lemma StillPending(f: Files, journal: seq<Entry>, v: Files, stamps: nat -> string, k: nat)
    requires Pending(f, journal, v) && k <= |EntriesOps(journal, stamps)|
    ensures Pending(Exec(f, EntriesOps(journal, stamps)[..k]), journal, v)
  {
    var m := EntriesPrefix(f, journal, stamps, k);
    var g := Exec(f, EntriesOps(journal, stamps)[..k]);
    ReplayTouchesPaths(journal[..m], View(f));
    assert Paths(journal[..m]) <= Paths(journal);
    assert JOURNAL !in Paths(journal);
    assert AgreeOff(View(g), v[JOURNAL := Log(journal)], Paths(journal));
    TempNameIsTemp("", "");
    assert JOURNAL in View(g);
  }

  /** The entry loop followed by the unlink shows the replay. */
  lemma Finished(f: Files, journal: seq<Entry>, v: Files, stamps: nat -> string)
    requires Pending(f, journal, v) && JOURNAL !in v
    ensures View(Exec(f, EntriesOps(journal, stamps) + [Unlink(JOURNAL)])) == Replay(journal, v)
  {
    hide IsTemp; hide EntriesOps; hide Exec; hide Replay;
    var entries := EntriesOps(journal, stamps);
    var g := Exec(f, entries);
    assert View(g) == Replay(journal, View(f)) by {
      var m := EntriesPrefix(f, journal, stamps, |entries|);
      assert entries[..|entries|] == entries && journal[..m] == journal;
    }
    assert Replay(journal, View(f)) == Replay(journal, v)[JOURNAL := Log(journal)] by {
      ReplayAgrees(journal, View(f), v[JOURNAL := Log(journal)]);
      JournalUntouched(journal, v, Log(journal));
    }
    JournalUntouched(journal, v, Log(journal));
    ExecSplit(f, entries, [Unlink(JOURNAL)]);
    ExecOne(g, Unlink(JOURNAL));
    assert View(g - {JOURNAL}) == View(g) - {JOURNAL};
    assert Replay(journal, v)[JOURNAL := Log(journal)] - {JOURNAL} == Replay(journal, v);
  }

  /** Entries, then the unlink: a cut leaves the disk pending, the whole run shows the replay. */
  lemma FinishFromPending(f: Files, journal: seq<Entry>, v: Files, stamps: nat -> string, k: nat)
    requires Pending(f, journal, v) && JOURNAL !in v
    requires k <= |EntriesOps(journal, stamps)| + 1
    ensures var ops := EntriesOps(journal, stamps) + [Unlink(JOURNAL)];
      var g := Exec(f, ops[..k]);
      if k == |ops| then View(g) == Replay(journal, v) else Pending(g, journal, v)
  {
    var entries := EntriesOps(journal, stamps);
    var ops := entries + [Unlink(JOURNAL)];
    if k < |ops| {
      assert ops[..k] == entries[..k];
      StillPending(f, journal, v, stamps, k);
    } else {
      assert ops[..k] == ops;
      Finished(f, journal, v, stamps);
    }
  }

  /** Replay neither reads nor writes the journal file. */
  lemma {:induction false} JournalUntouched(journal: seq<Entry>, v: Files, c: Content)
    requires GoodJournal(journal) && JOURNAL !in v
    ensures JOURNAL !in Replay(journal, v)
    ensures Replay(journal, v[JOURNAL := c]) == Replay(journal, v)[JOURNAL := c]
    decreases |journal|
  {
    if journal != [] {
      var v1 := ApplyEntry(journal[0], v);
      assert ApplyEntry(journal[0], v[JOURNAL := c]) == v1[JOURNAL := c];
      JournalUntouched(journal[1..], v1, c);
    }
  }

  /** How many operations of a batch put its journal in place. */
  const COMMIT := 3

  /** A finished journal write makes the disk pending. */
  lemma JournalPlaced(f: Files, journal: seq<Entry>, stamps: nat -> string)
    requires GoodJournal(journal) && JOURNAL !in f && journal != []
    ensures Pending(Exec(f, JournalOps(journal, stamps)), journal, View(f))
  {
    TempNameIsTemp("", "");
    AtomicWritePrefix(f, JOURNAL, Log(journal), stamps(0), 3);
    hide AtomicWriteOps; hide IsTemp;
    var start := JournalOps(journal, stamps);
    assert start[..3] == start;
    assert JOURNAL in View(Exec(f, start));
  }

  /** Where a batch may be cut: before the journal is in place, while it is pending, or at the end. */
  lemma SetPrefix(f: Files, journal: seq<Entry>, stamps: nat -> string, k: nat)
    requires GoodJournal(journal) && JOURNAL !in f && k <= |SetOps(journal, stamps)|
    ensures var g := Exec(f, SetOps(journal, stamps)[..k]);
      if k == |SetOps(journal, stamps)| then View(g) == Replay(journal, View(f))
      else if k >= COMMIT then Pending(g, journal, View(f))
      else View(g) == View(f)
  {
    var start := JournalOps(journal, stamps);
    var finish := EntriesOps(journal, stamps) + [Unlink(JOURNAL)];
    var ops := SetOps(journal, stamps);
    assert ops == start + finish;
    TempNameIsTemp("", "");
    if journal == [] {
      assert ops == [Unlink(JOURNAL)];
      assert ops[..0] == [] && ops[..1] == ops;
      ExecOne(f, Unlink(JOURNAL));
    } else {
      hide EntriesOps; hide Replay; hide AtomicWriteOps; hide Exec; hide IsTemp; hide Pending; hide View;
      if k < COMMIT {
        assert ops[..k] == start[..k];
        AtomicWritePrefix(f, JOURNAL, Log(journal), stamps(0), k);
      } else {
        JournalPlaced(f, journal, stamps);
        JournalAbsent(f);
        assert ops[..k] == start + finish[..k - 3];
        ExecSplit(f, start, finish[..k - 3]);
        FinishFromPending(Exec(f, start), journal, View(f), stamps, k - 3);
      }
    }
  }

  lemma JournalAbsent(f: Files)
    requires JOURNAL !in f
    ensures JOURNAL !in View(f)
  {
  }

  /** A recovery that crashed after n operations. */
  datatype Attempt = Attempt(n: nat, stamps: nat -> string)

  /** The disk after a list of recoveries, each cut short (or not) by a crash. */
  function RecoverRepeatedly(f: Files, attempts: seq<Attempt>): Files
    decreases |attempts|
  {
    if attempts == [] then f
    else RecoverRepeatedly(Crashing(f, RecoverOps(f, attempts[0].stamps), attempts[0].n), attempts[1..])
  }

  /** Settled: no journal, and the key files are v. */
  ghost predicate Settled(f: Files, v: Files) {
    JOURNAL !in f && View(f) == v
  }

  lemma {:induction false} RecoveriesConverge(f: Files, journal: seq<Entry>, v: Files, attempts: seq<Attempt>)
    requires JOURNAL !in v
    requires Pending(f, journal, v) || Settled(f, Replay(journal, v))
    ensures var g := RecoverRepeatedly(f, attempts);
      Pending(g, journal, v) || Settled(g, Replay(journal, v))
    decreases |attempts|
  {
    if attempts != [] {
      RecoveryStep(f, journal, v, attempts[0].stamps, attempts[0].n);
      RecoveriesConverge(Crashing(f, RecoverOps(f, attempts[0].stamps), attempts[0].n), journal, v, attempts[1..]);
    }
  }

  lemma RecoveryStep(f: Files, journal: seq<Entry>, v: Files, stamps: nat -> string, n: nat)
    requires JOURNAL !in v
    requires Pending(f, journal, v) || Settled(f, Replay(journal, v))
    ensures var ops := RecoverOps(f, stamps);
      var g := Crashing(f, ops, n);
      && (Pending(g, journal, v) || Settled(g, Replay(journal, v)))
      && (n >= |ops| ==> Settled(g, Replay(journal, v)))
  {
    var ops := RecoverOps(f, stamps);
    if JOURNAL !in f {
      assert ops[..0] == [];
    } else {
      var k := Min(n, |ops|);
      FinishFromPending(f, journal, v, stamps, k);
      JournalUntouched(journal, v, Torn);
      TempNameIsTemp("", "");
      var g := Crashing(f, ops, n);
      assert JOURNAL in g ==> JOURNAL in View(g);
    }
  }

  lemma {:induction false} NothingToRecover(f: Files, attempts: seq<Attempt>)
    requires JOURNAL !in f
    ensures RecoverRepeatedly(f, attempts) == f
    decreases |attempts|
  {
    if attempts != [] {
      assert RecoverOps(f, attempts[0].stamps)[..0] == [];
      NothingToRecover(f, attempts[1..]);
    }
  }

  /**
   Crash atomicity. A batch cut after any k file operations, then any number of recoveries each
   cut anywhere, then one recovery that runs to its end: the key files are exactly as before the
   batch if the journal was not yet in place, and exactly as after it otherwise.
   */
  lemma CrashAtomicity(
      b: Base64, f: Files, batch: seq<Change>, stamps: nat -> string, k: nat,
      attempts: seq<Attempt>, last: nat -> string)
    requires JOURNAL !in f
    ensures
      var journal := JournalOf(b, batch);
      var cut := RecoverRepeatedly(Crashing(f, SetOps(journal, stamps), k), attempts);
      var end := Exec(cut, RecoverOps(cut, last));
      Settled(end, if k >= COMMIT || journal == [] then Replay(journal, View(f)) else View(f))
  {
    var journal := JournalOf(b, batch);
    JournalOfIsGood(b, batch);
    TempNameIsTemp("", "");
    var ops := SetOps(journal, stamps);
    var g := Crashing(f, ops, k);
    SetPrefix(f, journal, stamps, Min(k, |ops|));
    JournalUntouched(journal, View(f), Torn);
    if k < COMMIT && journal != [] {
      assert JOURNAL in g ==> JOURNAL in View(g);
      NothingToRecover(g, attempts);
    } else {
      assert JOURNAL in g ==> JOURNAL in View(g);
      RecoveriesConverge(g, journal, View(f), attempts);
      var cut := RecoverRepeatedly(g, attempts);
      RecoveryStep(cut, journal, View(f), last, |RecoverOps(cut, last)|);
      assert RecoverOps(cut, last)[..|RecoverOps(cut, last)|] == RecoverOps(cut, last);
    }
  }

  /** Recovery leaves a journal alone that cannot be read, and does nothing without one. */
  lemma UnreadableJournalStays(f: Files, stamps: nat -> string, n: nat)
    requires JOURNAL !in f || !f[JOURNAL].Log?
    ensures Crashing(f, RecoverOps(f, stamps), n) == f
  {
    CrashNothing(f, n);
  }

  /** What `get` answers, id by id: what the id's file revives to, and nothing for a missing, torn or unrevivable one. */
  lemma GetExactly(b: Base64, f: Files, t: DataType, ids: seq<string>, id: string)
    ensures
      var (file, found) := (FileName(t, id), FileGet(b, f, t, ids));
      && (id !in ids || file !in f || !f[file].Doc? ==> id !in found)
      && (id in ids && file in f && f[file].Doc? ==>
            (if id in found then Some(found[id]) else None) == Revive(b, f[file].json))
  {
  }
}

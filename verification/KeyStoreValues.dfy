/** Stored values, their JSON form, and the names of the files that hold them. */
module KeyStoreValues {
  import opened Prelude

  // ----- values and JSON -----

  /** A JavaScript value as the key store sees it; an object is its field names and, in step, their values. */
  datatype Value =
    | Null
    | Bool(b: bool)
    | Num(n: real)
    | Str(s: string)
    | Bytes(data: bytes)
    | Arr(items: seq<Value>)
    | Obj(keys: seq<string>, values: seq<Value>)

  datatype Json =
    | JNull
    | JBool(b: bool)
    | JNum(n: real)
    | JStr(s: string)
    | JArr(items: seq<Json>)
    | JObj(keys: seq<string>, values: seq<Json>)

  /** Base64 text, of which only the round trip matters. */
  datatype Base64 = Base64(encode: bytes -> string, decode: string -> bytes)

  ghost predicate Faithful(b: Base64) {
    forall d :: b.decode(b.encode(d)) == d
  }

  function Serialize(b: Base64, v: Value): Json
    decreases v
  {
    match v
    case Null => JNull
    case Bool(x) => JBool(x)
    case Num(n) => JNum(n)
    case Str(s) => JStr(s)
    case Bytes(d) => JObj(["__type", "data"], [JStr("buffer"), JStr(b.encode(d))])
    case Arr(items) => JArr(SerializeItems(b, items))
    case Obj(keys, values) => JObj(keys, SerializeItems(b, values))
  }

  function SerializeItems(b: Base64, items: seq<Value>): (r: seq<Json>)
    decreases items
  {
    if items == [] then [] else [Serialize(b, items[0])] + SerializeItems(b, items[1..])
  }

  /** The first field of that name. */
  function Lookup<T>(keys: seq<string>, values: seq<T>, key: string): Option<T> {
    if keys == [] || values == [] then None
    else if keys[0] == key then Some(values[0])
    else Lookup(keys[1..], values[1..], key)
  }

  /** None where the source throws: a tagged object whose data is not text. */
  function Revive(b: Base64, j: Json): Option<Value>
    decreases j
  {
    match j
    case JNull => Some(Null)
    case JBool(x) => Some(Bool(x))
    case JNum(n) => Some(Num(n))
    case JStr(s) => Some(Str(s))
    case JArr(items) =>
      (match ReviveItems(b, items)
       case None => None
       case Some(vs) => Some(Arr(vs)))
    case JObj(keys, values) =>
      if Lookup(keys, values, "__type") == Some(JStr("buffer")) then
        match Lookup<Json>(keys, values, "data")
        case Some(JStr(text)) => Some(Bytes(b.decode(text)))
        case _ => None
      else
        match ReviveItems(b, values)
        case None => None
        case Some(vs) => Some(Obj(keys, vs))
  }

  function ReviveItems(b: Base64, items: seq<Json>): Option<seq<Value>>
    decreases items
  {
    if items == [] then Some([]) else
    match (Revive(b, items[0]), ReviveItems(b, items[1..]))
    case (Some(v), Some(vs)) => Some([v] + vs)
    case _ => None
  }

  /** No object inside the value is tagged as a buffer. */
  predicate Untagged(v: Value)
    decreases v
  {
    match v
    case Arr(items) => forall i :: 0 <= i < |items| ==> Untagged(items[i])
    case Obj(keys, values) =>
      && Lookup(keys, values, "__type") != Some(Str("buffer"))
      && forall i :: 0 <= i < |values| ==> Untagged(values[i])
    case _ => true
  }

  lemma {:induction false} SerializedTag(b: Base64, keys: seq<string>, values: seq<Value>)
    ensures Lookup(keys, SerializeItems(b, values), "__type") == Some(JStr("buffer"))
      <==> Lookup(keys, values, "__type") == Some(Str("buffer"))
  {
    if keys != [] && values != [] && keys[0] != "__type" {
      assert SerializeItems(b, values)[1..] == SerializeItems(b, values[1..]);
      SerializedTag(b, keys[1..], values[1..]);
    }
  }

  /** A value comes back from its file unchanged if and only if nothing in it looks like a stored buffer. */
  lemma {:induction false} ReviveSerialized(b: Base64, v: Value)
    requires Faithful(b)
    ensures Revive(b, Serialize(b, v)) == Some(v) <==> Untagged(v)
    decreases v, 1
  {
    match v
    case Arr(items) => ReviveSerializedItems(b, items);
    case Obj(keys, values) =>
      SerializedTag(b, keys, values);
      ReviveSerializedItems(b, values);
    case Bytes(d) =>
      var keys, values := ["__type", "data"], [JStr("buffer"), JStr(b.encode(d))];
      assert Lookup(keys, values, "__type") == Some(JStr("buffer"));
      assert Lookup(keys, values, "data") == Lookup(keys[1..], values[1..], "data") == Some(JStr(b.encode(d)));
    case _ =>
  }

  lemma {:induction false} ReviveSerializedItems(b: Base64, items: seq<Value>)
    requires Faithful(b)
    ensures ReviveItems(b, SerializeItems(b, items)) == Some(items)
      <==> (forall i :: 0 <= i < |items| ==> Untagged(items[i]))
    decreases items, 0
  {
    if items != [] {
      ReviveSerialized(b, items[0]);
      ReviveSerializedItems(b, items[1..]);
      assert SerializeItems(b, items)[1..] == SerializeItems(b, items[1..]);
      assert items == [items[0]] + items[1..];
    }
  }

  /** An object tagged as a buffer revives to the bytes of its text, and not at all without one. */
  lemma TaggedRevivesExactly(b: Base64, keys: seq<string>, values: seq<Json>)
    requires Lookup(keys, values, "__type") == Some(JStr("buffer"))
    ensures Revive(b, JObj(keys, values)) ==
      match Lookup<Json>(keys, values, "data")
      case Some(JStr(text)) => Some(Bytes(b.decode(text)))
      case _ => None
  {
  }

  // ----- file names -----

  datatype DataType =
    | PreKey | SessionData | SenderKey | SenderKeyMemory | AppStateSyncKey | AppStateSyncVersion | SenderKeyStatus

  function TypeName(t: DataType): string {
    match t
    case PreKey => "pre-key"
    case SessionData => "session"
    case SenderKey => "sender-key"
    case SenderKeyMemory => "sender-key-memory"
    case AppStateSyncKey => "app-state-sync-key"
    case AppStateSyncVersion => "app-state-sync-version"
    case SenderKeyStatus => "sender-key-status"
  }

  predicate SafeChar(ch: char) {
    'a' <= ch <= 'z' || 'A' <= ch <= 'Z' || '0' <= ch <= '9' || ch in "._-@"
  }

  function Sanitize(id: string): (r: string)
    ensures |r| == |id|
  {
    seq(|id|, i requires 0 <= i < |id| => if SafeChar(id[i]) then id[i] else '_')
  }

  const JOURNAL := ".key-journal.json"

  /** The name, inside the store's folder, of the file of one key. */
  function FileName(t: DataType, id: string): (r: string)
  {
    TypeName(t) + "-" + Sanitize(id) + ".json"
  }

  /** The scratch file of an atomic write; the stamp stands for process id and time. */
  function TempName(name: string, stamp: string): string {
    name + "." + stamp + ".tmp"
  }

  predicate IsTemp(name: string) {
    |name| >= 4 && name[|name| - 4..] == ".tmp"
  }

  /** Key files are never scratch files and never the journal. */
  lemma KeyFileIsOrdinary(t: DataType, id: string)
    ensures !IsTemp(FileName(t, id)) && FileName(t, id) != JOURNAL
  {
    var name := FileName(t, id);
    assert name[|name| - 5..] == ".json";
    assert name[|name| - 1] == 'n';
    assert name[0] == TypeName(t)[0] != '.';
  }

  lemma TempNameIsTemp(name: string, stamp: string)
    ensures IsTemp(TempName(name, stamp)) && !IsTemp(JOURNAL)
  {
    var t := TempName(name, stamp);
    assert t[|t| - 4..] == ".tmp";
    assert JOURNAL[|JOURNAL| - 1] == 'n';
  }

  /** What a longer type name adds to "sender-key-". */
  function SenderSuffix(t: DataType): string {
    if t == SenderKeyMemory then "memory-" else "status-"
  }

  predicate SenderClash(t1: DataType, id1: string, t2: DataType, id2: string) {
    t1 == SenderKey && t2 in {SenderKeyMemory, SenderKeyStatus} && Sanitize(id1) == SenderSuffix(t2) + Sanitize(id2)
  }

  lemma DropCommonTail(a: string, b: string, tail: string)
    ensures a + tail == b + tail <==> a == b
  {
    if a + tail == b + tail {
      assert a == (a + tail)[..|a|];
      assert b == (b + tail)[..|b|];
    }
  }

  lemma DropCommonHead(a: string, b: string, head: string)
    ensures head + a == head + b <==> a == b
  {
    if head + a == head + b {
      assert a == (head + a)[|head|..];
      assert b == (head + b)[|head|..];
    }
  }

  /**
   Exactly which two keys share a file: the same type with ids equal after sanitizing, or a
   sender key whose id spells out the rest of a longer type name.
   */
  lemma SameFileExactly(t1: DataType, id1: string, t2: DataType, id2: string)
    ensures FileName(t1, id1) == FileName(t2, id2)
      <==> (t1 == t2 && Sanitize(id1) == Sanitize(id2)) || SenderClash(t1, id1, t2, id2) || SenderClash(t2, id2, t1, id1)
  {
    var a, b := TypeName(t1) + "-" + Sanitize(id1), TypeName(t2) + "-" + Sanitize(id2);
    DropCommonTail(a, b, ".json");
    if t1 == t2 {
      DropCommonHead(Sanitize(id1), Sanitize(id2), TypeName(t1) + "-");
    } else if t1 == SenderKey && t2 in {SenderKeyMemory, SenderKeyStatus} {
      ClashBody(id1, t2, id2);
    } else if t2 == SenderKey && t1 in {SenderKeyMemory, SenderKeyStatus} {
      ClashBody(id2, t1, id1);
    } else {
      DistinctHeads(t1, id1, t2, id2);
    }
  }

  lemma ClashBody(id1: string, t2: DataType, id2: string)
    requires t2 in {SenderKeyMemory, SenderKeyStatus}
    ensures TypeName(SenderKey) + "-" + Sanitize(id1) == TypeName(t2) + "-" + Sanitize(id2)
      <==> Sanitize(id1) == SenderSuffix(t2) + Sanitize(id2)
  {
    assert TypeName(t2) + "-" + Sanitize(id2) == "sender-key-" + (SenderSuffix(t2) + Sanitize(id2));
    DropCommonHead(Sanitize(id1), SenderSuffix(t2) + Sanitize(id2), "sender-key-");
  }

  lemma DistinctHeads(t1: DataType, id1: string, t2: DataType, id2: string)
    requires t1 != t2
    requires !(t1 == SenderKey && t2 in {SenderKeyMemory, SenderKeyStatus})
    requires !(t2 == SenderKey && t1 in {SenderKeyMemory, SenderKeyStatus})
    ensures TypeName(t1) + "-" + Sanitize(id1) != TypeName(t2) + "-" + Sanitize(id2)
  {
    var a, b := TypeName(t1) + "-" + Sanitize(id1), TypeName(t2) + "-" + Sanitize(id2);
    assert forall i :: 0 <= i < |TypeName(t1)| ==> a[i] == TypeName(t1)[i];
    assert forall i :: 0 <= i < |TypeName(t2)| ==> b[i] == TypeName(t2)[i];
    // names that start alike differ at one of these places
    if t1 in {SenderKeyMemory, SenderKeyStatus} && t2 in {SenderKeyMemory, SenderKeyStatus} {
      assert a[11] != b[11];
    } else if t1 in {AppStateSyncKey, AppStateSyncVersion} && t2 in {AppStateSyncKey, AppStateSyncVersion} {
      assert a[15] != b[15];
    } else {
      assert a[0] != b[0] || a[2] != b[2];
    }
  }

  // ----- what the names and the stored values are, spelled out -----

  const LOWER := "abcdefghijklmnopqrstuvwxyz"
  const UPPER := "ABCDEFGHIJKLMNOPQRSTUVWXYZ"
  const DECIMALS := "0123456789"

  /** The characters that a file name keeps: letters, digits, dot, underscore, hyphen and at sign. */
  predicate KeptChar(ch: char) {
    ch in LOWER || ch in UPPER || ch in DECIMALS || ch == '.' || ch == '_' || ch == '-' || ch == '@'
  }

  predicate KeptId(id: string) {
    forall ch :: ch in id ==> KeptChar(ch)
  }

  lemma LowerChars(ch: char)
    ensures ch in LOWER <==> 'a' <= ch <= 'z'
  {
    if 'a' <= ch <= 'z' {
      assert LOWER[ch as int - 97] == ch;
    }
  }

  lemma UpperChars(ch: char)
    ensures ch in UPPER <==> 'A' <= ch <= 'Z'
  {
    if 'A' <= ch <= 'Z' {
      assert UPPER[ch as int - 65] == ch;
    }
  }

  lemma DecimalChars(ch: char)
    ensures ch in DECIMALS <==> '0' <= ch <= '9'
  {
    if '0' <= ch <= '9' {
      assert DECIMALS[ch as int - 48] == ch;
    }
  }

  /** Exactly what becomes of an id: kept characters stay, any other character turns into an underscore. */
  lemma SanitizeExactly(id: string)
    ensures |Sanitize(id)| == |id|
    ensures forall i :: 0 <= i < |id| ==> Sanitize(id)[i] == if KeptChar(id[i]) then id[i] else '_'
    ensures Sanitize(id) == id <==> KeptId(id)
  {
    hide KeptChar;
    forall i | 0 <= i < |id| ensures Sanitize(id)[i] == if KeptChar(id[i]) then id[i] else '_' {
      SafeIsKept(id[i]);
    }
    if KeptId(id) {
      assert forall i :: 0 <= i < |id| ==> id[i] in id;
    }
    SafeIsKept('_');
  }

  lemma SafeIsKept(ch: char)
    ensures SafeChar(ch) <==> KeptChar(ch)
  {
    LowerChars(ch);
    UpperChars(ch);
    DecimalChars(ch);
  }

  /** What stands before the id in the name of a key's file. */
  function FilePrefix(t: DataType): string {
    match t
    case PreKey => "pre-key-"
    case SessionData => "session-"
    case SenderKey => "sender-key-"
    case SenderKeyMemory => "sender-key-memory-"
    case AppStateSyncKey => "app-state-sync-key-"
    case AppStateSyncVersion => "app-state-sync-version-"
    case SenderKeyStatus => "sender-key-status-"
  }

  /** The file of a key whose id is kept, the journal, and the scratch file of a write. */
  lemma FileNamesExactly(t: DataType, id: string, stamp: string)
    requires KeptId(id)
    ensures FileName(t, id) == FilePrefix(t) + id + ".json"
    ensures TempName(FileName(t, id), stamp) == FilePrefix(t) + id + ".json." + stamp + ".tmp"
    ensures JOURNAL == ".key-journal.json"
  {
    SanitizeExactly(id);
    TypePrefix(t);
    hide FilePrefix; hide TypeName; hide Sanitize;
    assert FileName(t, id) == FilePrefix(t) + id + ".json";
    var name := FilePrefix(t) + id;
    assert name + ".json" + "." == name + (".json" + ".") == name + ".json.";
  }

  lemma TypePrefix(t: DataType)
    ensures TypeName(t) + "-" == FilePrefix(t)
  {
  }

  predicate SpellsOut(t1: DataType, id1: string, t2: DataType, id2: string) {
    t1 == SenderKey
    && ((t2 == SenderKeyMemory && id1 == "memory-" + id2) || (t2 == SenderKeyStatus && id1 == "status-" + id2))
  }

  /** Two kept ids name the same file only for the same key, or for a sender key that spells out a longer type name. */
  lemma KeptKeysDiffer(t1: DataType, id1: string, t2: DataType, id2: string)
    requires KeptId(id1) && KeptId(id2)
    ensures FileName(t1, id1) == FileName(t2, id2)
      <==> ((t1, id1) == (t2, id2) || SpellsOut(t1, id1, t2, id2) || SpellsOut(t2, id2, t1, id1))
  {
    SameFileExactly(t1, id1, t2, id2);
    SanitizeExactly(id1);
    SanitizeExactly(id2);
    hide Sanitize; hide FileName;
  }

  /** A number in decimal. */
  function Decimals(n: nat): (s: string)
    ensures s != []
  {
    if n < 10 then [DECIMALS[n]] else Decimals(n / 10) + [DECIMALS[n % 10]]
  }

  lemma {:induction false} DecimalsKept(n: nat)
    ensures KeptId(Decimals(n))
  {
    if n >= 10 {
      DecimalsKept(n / 10);
    }
  }

  lemma {:induction false} DecimalsDiffer(m: nat, n: nat)
    ensures Decimals(m) == Decimals(n) <==> m == n
  {
    if Decimals(m) == Decimals(n) {
      var s := Decimals(m);
      assert m % 10 == n % 10 by {
        assert s[|s| - 1] == DECIMALS[m % 10] == DECIMALS[n % 10];
        DigitsDiffer(m % 10, n % 10);
      }
      if m >= 10 && n >= 10 {
        assert s[..|s| - 1] == Decimals(m / 10) == Decimals(n / 10);
        DecimalsDiffer(m / 10, n / 10);
      }
    }
  }

  lemma DigitsDiffer(x: nat, y: nat)
    requires x < 10 && y < 10
    ensures DECIMALS[x] == DECIMALS[y] <==> x == y
  {
    assert DECIMALS[x] == '0' + x as char && DECIMALS[y] == '0' + y as char;
  }

  /** Two pre-keys with decimal ids share a file exactly if the ids are equal. */
  lemma PreKeyFilesDiffer(m: nat, n: nat)
    ensures FileName(PreKey, Decimals(m)) == FileName(PreKey, Decimals(n)) <==> m == n
  {
    DecimalsKept(m);
    DecimalsKept(n);
    KeptKeysDiffer(PreKey, Decimals(m), PreKey, Decimals(n));
    DecimalsDiffer(m, n);
  }
}

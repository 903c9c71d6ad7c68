/** The protobuf wire helpers: varints, length-delimited fields and the field parser. */
module Protobuf {
  import opened Prelude

  const TWO32 := 0x1_0000_0000
  const TWO64 := 0x1_0000_0000_0000_0000

  // ----- writing -----

  function Varint(v: nat): (r: bytes)
    ensures |r| >= 1
  {
    if v >= 0x80 then [v % 0x80 + 0x80] + Varint(v / 0x80) else [v]
  }

  /** The loop behind every varint; callers first cut the value to 32 or 64 bits. */
  method WriteVarint(value: nat) returns (out: bytes)
    ensures out == Varint(value)
  {
    out := [];
    var v := value;
    while v >= 0x80
      invariant out + Varint(v) == Varint(value)
    {
      out := out + [v % 0x80 + 0x80];
      v := v / 0x80;
    }
    out := out + [v];
  }

  function Tag(number: nat, wireType: nat): (r: bytes) {
    Varint((number * 8 + wireType) % TWO32)
  }

  function EncodeBytes(number: nat, data: bytes): bytes {
    Tag(number, 2) + Varint(|data| % TWO32) + data
  }

  function EncodeVarint(number: nat, value: nat): bytes {
    Tag(number, 0) + Varint(value % TWO32)
  }

  function EncodeVarint64(number: nat, value: nat): bytes {
    Tag(number, 0) + Varint(value % TWO64)
  }

  // ----- reading -----

  /** Bitwise or. */
  function Or(a: nat, b: nat): nat {
    if a == 0 then b else if b == 0 then a else
    2 * Or(a / 2, b / 2) + (if a % 2 == 1 || b % 2 == 1 then 1 else 0)
  }

  /** Two to the shift; the count of a 32-bit shift wraps, so a shift by 35 is a shift by 3. */
  function Weight(shift: nat): (p: nat)
    ensures p >= 1
  {
    if shift == 0 then 1
    else if shift == 7 then 0x80
    else if shift == 14 then 0x4000
    else if shift == 21 then 0x20_0000
    else if shift == 28 then 0x1000_0000
    else 8
  }

  /** The seven value bits of a byte, shifted into a 32-bit word. */
  function Placed(b: byte, shift: nat): nat {
    b % 0x80 * Weight(shift) % TWO32
  }

  /** The 32-bit reader from a given shift, one of 0, 7, 14, 21, 28 and 35. */
  function VarintFrom(s: bytes, shift: nat, acc: nat): (r: Result<(nat, bytes)>)
    ensures r.Ok? ==> |r.value.1| <= |s| && (s != [] ==> |r.value.1| < |s|)
    decreases |s|
  {
    if s == [] then Ok((acc, s)) else
    var acc' := Or(acc, Placed(s[0], shift));
    if s[0] < 0x80 then Ok((acc', s[1..]))
    else if shift + 7 > 35 then Err("varint too long")
    else VarintFrom(s[1..], shift + 7, acc')
  }

  function ReadVarint(s: bytes): (r: Result<(nat, bytes)>)
    ensures r.Ok? ==> |r.value.1| <= |s| && (s != [] ==> |r.value.1| < |s|)
  {
    VarintFrom(s, 0, 0)
  }

  /** The unbounded reader: seven bits per byte, least significant first. */
  function BigVarint(s: bytes): (r: (nat, bytes))
    ensures |r.1| <= |s|
    decreases |s|
  {
    if s == [] then (0, s)
    else if s[0] < 0x80 then (s[0], s[1..])
    else
      var (v, rest) := BigVarint(s[1..]);
      (s[0] % 0x80 + 0x80 * v, rest)
  }

  datatype Field =
    | VarintField(number: nat, value: nat)
    | Fixed64(number: nat, raw: bytes)
    | BytesField(number: nat, raw: bytes)
    | Fixed32(number: nat, raw: bytes)

  /** A slice that stops at the end of the buffer, and what follows it. */
  function Take(s: bytes, n: nat): bytes {
    s[..Min(n, |s|)]
  }

  function Drop(s: bytes, n: nat): (r: bytes)
    ensures |r| <= |s|
  {
    s[Min(n, |s|)..]
  }

  /** One field off the front. */
  function ReadField(s: bytes): (r: Result<(Field, bytes)>)
    ensures s != [] && r.Ok? ==> |r.value.1| < |s|
  {
    var (tag, rest) :- ReadVarint(s);
    var (number, wireType) := (tag / 8, tag % 8);
    if wireType == 0 then
      var (v, rest') := BigVarint(rest);
      Ok((VarintField(number, v), rest'))
    else if wireType == 1 then Ok((Fixed64(number, Take(rest, 8)), Drop(rest, 8)))
    else if wireType == 2 then
      var (len, rest') :- ReadVarint(rest);
      Ok((BytesField(number, Take(rest', len)), Drop(rest', len)))
    else if wireType == 5 then Ok((Fixed32(number, Take(rest, 4)), Drop(rest, 4)))
    else Err("unsupported wire type")
  }

  function ReadFields(s: bytes): Result<seq<Field>>
    decreases |s|
  {
    if s == [] then Ok([]) else
    var (f, rest) :- ReadField(s);
    var fs :- ReadFields(rest);
    Ok([f] + fs)
  }

  // ----- the loops of the source, over offsets into the buffer -----

  method ReadVarintAt(data: bytes, offset: nat) returns (r: Result<(nat, nat)>)
    requires offset <= |data|
    ensures r.Ok? == ReadVarint(data[offset..]).Ok?
    ensures r.Ok? ==> offset <= r.value.1 <= |data| && (offset < |data| ==> offset < r.value.1)
    ensures r.Ok? ==> ReadVarint(data[offset..]).value == (r.value.0, data[r.value.1..])
  {
    var result: nat, shift: nat, pos: nat := 0, 0, offset;
    while pos < |data|
      invariant offset <= pos <= |data|
      invariant ReadVarint(data[offset..]) == VarintFrom(data[pos..], shift, result)
    {
      var b := data[pos];
      assert data[pos..][1..] == data[pos + 1..];
      pos := pos + 1;
      result := Or(result, Placed(b, shift));
      if b < 0x80 {
        return Ok((result, pos));
      }
      shift := shift + 7;
      if shift > 35 {
        return Err("varint too long");
      }
    }
    return Ok((result, pos));
  }

  method ReadBigVarintAt(data: bytes, offset: nat) returns (value: nat, next: nat)
    requires offset <= |data|
    ensures offset <= next <= |data|
    ensures BigVarint(data[offset..]) == (value, data[next..])
  {
    value, next := 0, offset;
    var scale: nat := 1;
    while next < |data|
      invariant offset <= next <= |data|
      invariant BigVarint(data[offset..]).0 == value + BigVarint(data[next..]).0 * scale
      invariant BigVarint(data[offset..]).1 == BigVarint(data[next..]).1
    {
      var b := data[next];
      assert data[next..][1..] == data[next + 1..];
      ghost var more := BigVarint(data[next + 1..]).0;
      ScaledSum(b % 0x80, more, scale);
      next := next + 1;
      value := value + b % 0x80 * scale;
      if b < 0x80 {
        return;
      }
      scale := scale * 0x80;
    }
  }

  lemma ScaledSum(low: nat, more: nat, scale: nat)
    ensures (low + 0x80 * more) * scale == low * scale + more * (scale * 0x80)
  {
  }

  /** The body of the field loop; the offset may run past the end when a length says more than there is. */
  method ReadFieldAt(data: bytes, start: nat) returns (r: Result<(Field, nat)>)
    requires start < |data|
    ensures r.Ok? == ReadField(data[start..]).Ok?
    ensures r.Ok? ==> start < r.value.1
    ensures r.Ok? ==> ReadField(data[start..]).value == (r.value.0, Drop(data, r.value.1))
  {
    hide VarintFrom; hide BigVarint;
    var tagInfo := ReadVarintAt(data, start);
    if tagInfo.Err? {
      return Err("varint too long");
    }
    var (tag, offset) := tagInfo.value;
    if tag % 8 == 0 {
      var v, next := ReadBigVarintAt(data, offset);
      return Ok((VarintField(tag / 8, v), next));
    } else if tag % 8 == 1 {
      SliceOfRest(data, offset, 8);
      return Ok((Fixed64(tag / 8, data[offset..Min(offset + 8, |data|)]), offset + 8));
    } else if tag % 8 == 2 {
      var lenInfo := ReadVarintAt(data, offset);
      if lenInfo.Err? {
        return Err("varint too long");
      }
      var (len, from) := lenInfo.value;
      SliceOfRest(data, from, len);
      return Ok((BytesField(tag / 8, data[from..Min(from + len, |data|)]), from + len));
    } else if tag % 8 == 5 {
      SliceOfRest(data, offset, 4);
      return Ok((Fixed32(tag / 8, data[offset..Min(offset + 4, |data|)]), offset + 4));
    }
    return Err("unsupported wire type");
  }

  lemma SliceOfRest(data: bytes, offset: nat, n: nat)
    requires offset <= |data|
    ensures Take(data[offset..], n) == data[offset..Min(offset + n, |data|)]
    ensures Drop(data[offset..], n) == Drop(data, offset + n)
  {
  }

  method ParseFields(data: bytes) returns (r: Result<seq<Field>>)
    ensures r.Ok? == ReadFields(data).Ok?
    ensures r.Ok? ==> r == ReadFields(data)
  {
    hide ReadField;
    var fields: seq<Field> := [];
    var offset: nat := 0;
    assert Drop(data, 0) == data;
    while offset < |data|
      invariant ReadFields(data).Ok? == ReadFields(Drop(data, offset)).Ok?
      invariant ReadFields(data).Ok? ==> ReadFields(data).value == fields + ReadFields(Drop(data, offset)).value
      decreases |data| - offset
    {
      var next := ReadFieldAt(data, offset);
      assert Drop(data, offset) == data[offset..];
      if next.Err? {
        return Err(next.error);
      }
      fields := fields + [next.value.0];
      offset := next.value.1;
    }
    assert ReadFields(Drop(data, offset)) == Ok([]);
    assert fields + [] == fields;
    return Ok(fields);
  }

  /** The first length-delimited field of that number. */
  function FieldBytes(fields: seq<Field>, number: nat): (r: Option<bytes>)
    ensures r.None? <==> forall f :: f in fields ==> !(f.BytesField? && f.number == number)
  {
    if fields == [] then None
    else if fields[0].BytesField? && fields[0].number == number then Some(fields[0].raw)
    else FieldBytes(fields[1..], number)
  }

  // ----- parsing undoes writing -----

  lemma {:induction false} OrOfDisjoint(a: nat, b: nat, k: nat)
    requires a < Pow2(k)
    ensures Or(a, b * Pow2(k)) == a + b * Pow2(k)
    decreases k
  {
    if k > 0 && a != 0 && b != 0 {
      var p := Pow2(k - 1);
      assert b * Pow2(k) == 2 * (b * p);
      OrOfDisjoint(a / 2, b, k - 1);
    }
  }

  function Pow2(n: nat): (p: nat)
    ensures p >= 1
  {
    if n == 0 then 1 else 2 * Pow2(n - 1)
  }

  lemma WeightIsPower(shift: nat)
    requires shift in {0, 7, 14, 21, 28}
    ensures Weight(shift) == Pow2(shift)
  {
    assert Pow2(7) == 2 * 2 * 2 * 2 * 2 * 2 * 2 * Pow2(0);
    assert Pow2(14) == 2 * 2 * 2 * 2 * 2 * 2 * 2 * Pow2(7);
    assert Pow2(21) == 2 * 2 * 2 * 2 * 2 * 2 * 2 * Pow2(14);
    assert Pow2(28) == 2 * 2 * 2 * 2 * 2 * 2 * 2 * Pow2(21);
  }

  /** Or-ing in the next seven bits of a value that fits is adding them. */
  lemma PlacedAdds(b: byte, shift: nat, acc: nat)
    requires shift in {0, 7, 14, 21, 28} && acc < Weight(shift) && b % 0x80 * Weight(shift) < TWO32
    ensures Or(acc, Placed(b, shift)) == acc + b % 0x80 * Weight(shift)
  {
    WeightIsPower(shift);
    OrOfDisjoint(acc, b % 0x80, shift);
  }

  /** One iteration of the reader over one iteration of the writer. */
  lemma OneMoreByte(v: nat, s: bytes, shift: nat, acc: nat, sum: nat, total: nat)
    requires shift in {0, 7, 14, 21} && v >= 0x80 && Or(acc, Placed(v % 0x80 + 0x80, shift)) == sum
    requires VarintFrom(Varint(v / 0x80) + s, shift + 7, sum) == Ok((total, s))
    ensures VarintFrom(Varint(v) + s, shift, acc) == Ok((total, s))
  {
    var b: byte, tail := v % 0x80 + 0x80, Varint(v / 0x80);
    assert Varint(v) == [b] + tail;
    hide *;
    assert [b] + tail + s == [b] + (tail + s);
    ReadOnce(b, tail + s, shift, acc);
  }

  lemma ReadOnce(b: byte, tail: bytes, shift: nat, acc: nat)
    requires shift + 7 <= 35 && b >= 0x80
    ensures VarintFrom([b] + tail, shift, acc) == VarintFrom(tail, shift + 7, Or(acc, Placed(b, shift)))
  {
    hide Or; hide Placed;
    var all := [b] + tail;
    assert all[0] == b && all[1..] == tail;
  }

  lemma LastByte(v: byte, s: bytes, shift: nat, acc: nat, sum: nat)
    requires v < 0x80 && Or(acc, Placed(v, shift)) == sum
    ensures VarintFrom(Varint(v) + s, shift, acc) == Ok((sum, s))
  {
    assert (Varint(v) + s)[1..] == s;
  }

  // Splitting a value at 7, 14, 21 and 28 bits.

  lemma SplitAt7(w: nat)
    ensures w / 0x80 % 0x80 * 0x80 + w % 0x80 == w % 0x4000 && w / 0x80 / 0x80 == w / 0x4000
  {
  }

  lemma SplitAt14(w: nat)
    ensures w / 0x4000 % 0x80 * 0x4000 + w % 0x4000 == w % 0x20_0000 && w / 0x4000 / 0x80 == w / 0x20_0000
  {
  }

  lemma SplitAt21(w: nat)
    ensures w / 0x20_0000 % 0x80 * 0x20_0000 + w % 0x20_0000 == w % 0x1000_0000
    ensures w / 0x20_0000 / 0x80 == w / 0x1000_0000
  {
  }

  /** What one iteration does at weight p to the part of w read so far; `next` is the following weight. */
  ghost predicate DigitFacts(w: nat, p: nat, next: nat)
    requires p > 0 && next > 0
  {
    && w / p % 0x80 * p + w % p == w % next
    && w / p / 0x80 == w / next
    && w / p % 0x80 * p < TWO32
    && (w / p < 0x80 ==> w < next)
  }

  lemma Digits(w: nat, shift: nat)
    requires w < TWO32 && shift in {0, 7, 14, 21, 28}
    ensures DigitFacts(w, Weight(shift), if shift == 28 then TWO32 else Weight(shift + 7))
    ensures w / Weight(28) < 0x10
  {
    SplitAt7(w);
    SplitAt14(w);
    SplitAt21(w);
    if shift == 0 {
      assert DigitFacts(w, 1, 0x80);
    } else if shift == 7 {
      assert DigitFacts(w, 0x80, 0x4000);
    } else if shift == 14 {
      assert DigitFacts(w, 0x4000, 0x20_0000);
    } else if shift == 21 {
      assert DigitFacts(w, 0x20_0000, 0x1000_0000);
    } else {
      assert DigitFacts(w, 0x1000_0000, TWO32);
    }
  }

  /** Or-ing the next seven bits of w into what is read so far gives the next part of w. */
  lemma NextBits(w: nat, shift: nat, b: byte)
    requires w < TWO32 && shift in {0, 7, 14, 21, 28}
    requires b % 0x80 == w / Weight(shift) % 0x80
    ensures Or(w % Weight(shift), Placed(b, shift)) == if shift == 28 then w else w % Weight(shift + 7)
    ensures shift == 28 ==> w / Weight(shift) < 0x10
    ensures shift < 28 ==> w / Weight(shift) / 0x80 == w / Weight(shift + 7)
    ensures w / Weight(shift) < 0x80 && shift < 28 ==> w < Weight(shift + 7)
  {
    Digits(w, shift);
    PlacedAdds(b, shift, w % Weight(shift));
  }

  /** From each shift on, the reader completes the value w that the writer is still writing. */
  lemma {:induction false} VarintRoundTripFrom(w: nat, s: bytes, shift: nat)
    requires w < TWO32 && shift in {0, 7, 14, 21, 28}
    ensures VarintFrom(Varint(w / Weight(shift)) + s, shift, w % Weight(shift)) == Ok((w, s))
    decreases 28 - shift
  {
    hide Or; hide VarintFrom; hide Placed;
    var v, acc := w / Weight(shift), w % Weight(shift);
    if v >= 0x80 {
      NextBits(w, shift, v % 0x80 + 0x80);
      VarintRoundTripFrom(w, s, shift + 7);
      OneMoreByte(v, s, shift, acc, w % Weight(shift + 7), w);
    } else {
      NextBits(w, shift, v);
      LastByte(v, s, shift, acc, w);
    }
  }

  /** A 32-bit varint is read back from the front of anything, and everything after it is left. */
  lemma VarintRoundTrip(v: nat, s: bytes)
    requires v < TWO32
    ensures ReadVarint(Varint(v) + s) == Ok((v, s))
  {
    VarintRoundTripFrom(v, s, 0);
  }

  lemma {:induction false} BigVarintRoundTrip(v: nat, s: bytes)
    ensures BigVarint(Varint(v) + s) == (v, s)
    decreases v
  {
    var w := Varint(v) + s;
    if v >= 0x80 {
      assert w[1..] == Varint(v / 0x80) + s;
      BigVarintRoundTrip(v / 0x80, s);
    } else {
      assert w[1..] == s;
    }
  }

  /** What callers ask the writers for. */
  datatype Item = Int32(number: nat, value: nat) | Int64(number: nat, value: nat) | Data(number: nat, data: bytes)

  predicate GoodItem(it: Item) {
    && 1 <= it.number < 0x2000_0000
    && match it
       case Int32(_, v) => v < TWO32
       case Int64(_, v) => v < TWO64
       case Data(_, d) => |d| < TWO32
  }

  function Encode(it: Item): bytes {
    match it
    case Int32(n, v) => EncodeVarint(n, v)
    case Int64(n, v) => EncodeVarint64(n, v)
    case Data(n, d) => EncodeBytes(n, d)
  }

  function EncodeAll(items: seq<Item>): bytes {
    if items == [] then [] else Encode(items[0]) + EncodeAll(items[1..])
  }

  function FieldOf(it: Item): Field {
    match it
    case Int32(n, v) => VarintField(n, v)
    case Int64(n, v) => VarintField(n, v)
    case Data(n, d) => BytesField(n, d)
  }

  function FieldsOf(items: seq<Item>): (r: seq<Field>)
    ensures |r| == |items|
  {
    if items == [] then [] else [FieldOf(items[0])] + FieldsOf(items[1..])
  }

  /** A field is read once its tag and its body are. */
  lemma ReadVarintField(s: bytes, n: nat, rest: bytes, v: nat, rest': bytes)
    requires ReadVarint(s) == Ok((n * 8, rest)) && BigVarint(rest) == (v, rest')
    ensures ReadField(s) == Ok((VarintField(n, v), rest'))
  {
  }

  lemma ReadBytesField(s: bytes, n: nat, rest: bytes, d: bytes, rest': bytes)
    requires ReadVarint(s) == Ok((n * 8 + 2, rest)) && ReadVarint(rest) == Ok((|d|, d + rest'))
    ensures ReadField(s) == Ok((BytesField(n, d), rest'))
  {
    assert Take(d + rest', |d|) == d && Drop(d + rest', |d|) == rest';
  }

  lemma ReadTag(n: nat, wireType: nat, s: bytes)
    requires n < 0x2000_0000 && wireType < 8
    ensures ReadVarint(Tag(n, wireType) + s) == Ok((n * 8 + wireType, s))
  {
    hide VarintFrom; hide Varint;
    VarintRoundTrip(n * 8 + wireType, s);
  }

  lemma ReadEncodedVarint(n: nat, v: nat, s: bytes)
    requires n < 0x2000_0000
    ensures ReadField(Tag(n, 0) + Varint(v) + s) == Ok((VarintField(n, v), s))
  {
    var body := Varint(v) + s;
    ReadTag(n, 0, body);
    BigVarintRoundTrip(v, s);
    ReadVarintField(Tag(n, 0) + body, n, body, v, s);
    assert Tag(n, 0) + Varint(v) + s == Tag(n, 0) + body;
  }

  lemma JoinFour(a: bytes, b: bytes, c: bytes, d: bytes)
    ensures a + b + c + d == a + (b + (c + d))
  {
  }

  lemma ReadEncodedBytes(n: nat, d: bytes, s: bytes)
    requires n < 0x2000_0000 && |d| < TWO32
    ensures ReadField(Tag(n, 2) + Varint(|d|) + d + s) == Ok((BytesField(n, d), s))
  {
    hide *;
    var body := Varint(|d|) + (d + s);
    ReadTag(n, 2, body);
    VarintRoundTrip(|d|, d + s);
    ReadBytesField(Tag(n, 2) + body, n, body, d, s);
    JoinFour(Tag(n, 2), Varint(|d|), d, s);
  }

  lemma ReadEncoded(it: Item, s: bytes)
    requires GoodItem(it)
    ensures ReadField(Encode(it) + s) == Ok((FieldOf(it), s))
  {
    hide ReadField; hide Varint;
    match it
    case Int32(n, v) => ReadEncodedVarint(n, v, s);
    case Int64(n, v) => ReadEncodedVarint(n, v, s);
    case Data(n, d) => ReadEncodedBytes(n, d, s);
  }

  /** Parsing is a homomorphism: encoded fields in front of any bytes are exactly the first fields read. */
  lemma {:induction false} ParseIsHomomorphic(items: seq<Item>, s: bytes)
    requires forall it :: it in items ==> GoodItem(it)
    ensures ReadFields(EncodeAll(items) + s).Ok? == ReadFields(s).Ok?
    ensures ReadFields(s).Ok? ==>
      ReadFields(EncodeAll(items) + s).value == FieldsOf(items) + ReadFields(s).value
  {
    if items == [] {
      assert EncodeAll(items) + s == s;
    } else {
      var rest := EncodeAll(items[1..]) + s;
      assert EncodeAll(items) + s == Encode(items[0]) + rest;
      ReadEncoded(items[0], rest);
      ParseIsHomomorphic(items[1..], s);
    }
  }

  /** The whole of an encoded list parses to exactly that list. */
  lemma ParseEncoded(items: seq<Item>)
    requires forall it :: it in items ==> GoodItem(it)
    ensures ReadFields(EncodeAll(items)) == Ok(FieldsOf(items))
  {
    hide ReadField; hide EncodeAll;
    ParseIsHomomorphic(items, []);
    assert EncodeAll(items) + [] == EncodeAll(items);
    assert ReadFields([]) == Ok([]) && FieldsOf(items) + [] == FieldsOf(items);
  }

  /** First-match lookup in the parse of an encoded list finds the first data item of that number. */
  lemma {:induction false} LookupEncoded(items: seq<Item>, i: nat)
    requires i < |items| && items[i].Data?
    requires forall j :: 0 <= j < i ==> !(items[j].Data? && items[j].number == items[i].number)
    ensures FieldBytes(FieldsOf(items), items[i].number) == Some(items[i].data)
  {
    assert FieldsOf(items)[1..] == FieldsOf(items[1..]);
    if i > 0 {
      assert FieldsOf(items)[0] == FieldOf(items[0]);
      assert !(items[0].Data? && items[0].number == items[i].number);
      LookupEncoded(items[1..], i - 1);
    }
  }

  // Messages of one, two and three data fields, as their builders concatenate them.

  lemma EncodeAllCons(it: Item, rest: seq<Item>)
    ensures EncodeAll([it] + rest) == Encode(it) + EncodeAll(rest)
    ensures FieldsOf([it] + rest) == [FieldOf(it)] + FieldsOf(rest)
  {
    assert ([it] + rest)[1..] == rest;
  }

  lemma ParseOne(n: nat, d: bytes)
    requires GoodItem(Data(n, d))
    ensures ReadFields(EncodeBytes(n, d)) == Ok([BytesField(n, d)])
    ensures FieldBytes([BytesField(n, d)], n) == Some(d)
  {
    hide ReadFields; hide EncodeBytes; hide EncodeAll; hide FieldsOf;
    var items := [Data(n, d)];
    AllOfNone();
    EncodeAllCons(items[0], []);
    assert items == [items[0]] + [];
    assert EncodeAll(items) == EncodeBytes(n, d) && FieldsOf(items) == [BytesField(n, d)];
    ParseEncoded(items);
  }

  lemma AllOfNone()
    ensures EncodeAll([]) == [] && FieldsOf([]) == []
  {
  }

  lemma ParseTwo(n: nat, d: bytes, m: nat, e: bytes)
    requires GoodItem(Data(n, d)) && GoodItem(Data(m, e)) && n != m
    ensures ReadFields(EncodeBytes(n, d) + EncodeBytes(m, e)) == Ok([BytesField(n, d), BytesField(m, e)])
    ensures FieldBytes([BytesField(n, d), BytesField(m, e)], n) == Some(d)
    ensures FieldBytes([BytesField(n, d), BytesField(m, e)], m) == Some(e)
  {
    hide ReadFields; hide EncodeBytes; hide EncodeAll; hide FieldsOf;
    var items := [Data(n, d), Data(m, e)];
    AllOfNone();
    EncodeAllCons(items[1], []);
    EncodeAllCons(items[0], [items[1]]);
    assert [items[1]] == [items[1]] + [] && items == [items[0]] + [items[1]];
    assert EncodeAll(items) == EncodeBytes(n, d) + EncodeBytes(m, e);
    assert FieldsOf(items) == [BytesField(n, d), BytesField(m, e)];
    ParseEncoded(items);
    LookupEncoded(items, 0);
    LookupEncoded(items, 1);
  }

  lemma ParseThree(n: nat, d: bytes, m: nat, e: bytes, l: nat, f: bytes)
    requires GoodItem(Data(n, d)) && GoodItem(Data(m, e)) && GoodItem(Data(l, f)) && n != m && n != l && m != l
    ensures var fields := [BytesField(n, d), BytesField(m, e), BytesField(l, f)];
      && ReadFields(EncodeBytes(n, d) + EncodeBytes(m, e) + EncodeBytes(l, f)) == Ok(fields)
      && FieldBytes(fields, n) == Some(d) && FieldBytes(fields, m) == Some(e) && FieldBytes(fields, l) == Some(f)
  {
    hide ReadFields; hide EncodeBytes; hide EncodeAll; hide FieldsOf;
    var items := [Data(n, d), Data(m, e), Data(l, f)];
    AllOfNone();
    EncodeAllCons(items[2], []);
    EncodeAllCons(items[1], [items[2]]);
    EncodeAllCons(items[0], [items[1], items[2]]);
    assert [items[2]] == [items[2]] + [] && [items[1], items[2]] == [items[1]] + [items[2]];
    assert items == [items[0]] + [items[1], items[2]];
    assert EncodeAll(items) == EncodeBytes(n, d) + (EncodeBytes(m, e) + EncodeBytes(l, f));
    assert EncodeAll(items) == EncodeBytes(n, d) + EncodeBytes(m, e) + EncodeBytes(l, f);
    assert FieldsOf(items) == [BytesField(n, d), BytesField(m, e), BytesField(l, f)];
    ParseEncoded(items);
    LookupEncoded(items, 0);
    LookupEncoded(items, 1);
    LookupEncoded(items, 2);
  }
}

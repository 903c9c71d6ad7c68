/** Binary node trees: the encoder, the decoder, and what each does as a function. Strings are UTF-8 bytes. */
module WABinary {
  import opened Prelude

  datatype Attr = Attr(key: bytes, value: bytes)

  datatype Content = NoContent | Text(text: bytes) | Binary(data: bytes) | Children(nodes: seq<Node>)

  /** Attributes are the entries of an object, in insertion order. */
  datatype Node = Node(tag: bytes, attrs: seq<Attr>, content: Content)

  const LIST_EMPTY: byte := 0
  const DICTIONARY_0: byte := 236
  const DICTIONARY_3: byte := 239
  const LIST_8: byte := 248
  const LIST_16: byte := 249
  const JID_PAIR: byte := 250
  const HEX_8: byte := 251
  const BINARY_8: byte := 252
  const BINARY_20: byte := 253
  const BINARY_32: byte := 254
  const NIBBLE_8: byte := 255
  const AT_SIGN: byte := 64
  const SPACE: byte := 32

  // ----- what is written -----

  function BE20(v: nat): (r: bytes)
    ensures |r| == 3
  {
    [v / 0x1_0000 % 0x10, v / 0x100 % 0x100, v % 0x100]
  }

  function BlobHeader(n: nat): bytes {
    if n < 256 then [BINARY_8, n]
    else if n < 0x10_0000 then [BINARY_20] + BE20(n)
    else [BINARY_32] + BE32(n)
  }

  /** Strings and binary contents have the same form. */
  function EncBlob(s: bytes): bytes {
    BlobHeader(|s|) + s
  }

  /** Position of the first occurrence, or the length when there is none. */
  function Find(s: bytes, b: byte): (k: nat)
    ensures k <= |s| && (forall j :: 0 <= j < k ==> s[j] != b) && (k < |s| ==> s[k] == b)
  {
    if s == [] || s[0] == b then 0 else 1 + Find(s[1..], b)
  }

  predicate JidLike(v: bytes) {
    AT_SIGN in v && SPACE !in v
  }

  function EncJid(v: bytes): bytes {
    var at := Find(v, AT_SIGN);
    if 0 < at < |v| then [JID_PAIR] + EncBlob(v[..at]) + EncBlob(v[at + 1..]) else EncBlob(v)
  }

  function EncValue(v: bytes): bytes {
    if JidLike(v) then EncJid(v) else EncBlob(v)
  }

  function ListStart(n: nat): bytes {
    if n == 0 then [LIST_EMPTY] else if n < 256 then [LIST_8, n] else [LIST_16] + BE16(n)
  }

  function EncAttrs(attrs: seq<Attr>): bytes {
    if attrs == [] then [] else EncBlob(attrs[0].key) + EncValue(attrs[0].value) + EncAttrs(attrs[1..])
  }

  function ListSize(n: Node): nat {
    1 + 2 * |n.attrs| + (if n.content.NoContent? then 0 else 1)
  }

  function EncNode(n: Node): bytes
    decreases n, 0
  {
    ListStart(ListSize(n)) + EncBlob(n.tag) + EncAttrs(n.attrs) + EncContent(n.content)
  }

  function EncContent(c: Content): bytes
    decreases c, 0
  {
    match c
    case NoContent => []
    case Text(s) => EncBlob(s)
    case Binary(d) => EncBlob(d)
    case Children(nodes) => ListStart(|nodes|) + EncNodes(nodes)
  }

  function EncNodes(nodes: seq<Node>): bytes
    decreases nodes, 0
  {
    if nodes == [] then [] else EncNode(nodes[0]) + EncNodes(nodes[1..])
  }

  /** The encoder: every method appends to one shared output. */
  class Writer {
    var out: bytes

    constructor ()
      ensures out == []
    {
      out := [];
    }

    method PushByte(value: nat)
      modifies this
      ensures out == old(out) + [value % 0x100]
    {
      out := out + [value % 0x100];
    }

    method PushInt16(value: nat)
      modifies this
      ensures out == old(out) + BE16(value)
    {
      PushByte(value / 0x100);
      PushByte(value);
    }

    method PushInt20(value: nat)
      modifies this
      ensures out == old(out) + BE20(value)
    {
      PushByte(value / 0x1_0000 % 0x10);
      PushByte(value / 0x100);
      PushByte(value);
    }

    method PushInt32(value: nat)
      modifies this
      ensures out == old(out) + BE32(value)
    {
      PushByte(value / 0x100_0000);
      PushByte(value / 0x1_0000);
      PushByte(value / 0x100);
      PushByte(value);
    }

    method WriteBlobHeader(n: nat)
      modifies this
      ensures out == old(out) + BlobHeader(n)
    {
      if n < 256 {
        PushByte(BINARY_8);
        PushByte(n);
      } else if n < 0x10_0000 {
        PushByte(BINARY_20);
        PushInt20(n);
      } else {
        PushByte(BINARY_32);
        PushInt32(n);
      }
    }

    method WriteBlob(s: bytes)
      modifies this
      ensures out == old(out) + EncBlob(s)
    {
      hide BlobHeader;
      WriteBlobHeader(|s|);
      for i := 0 to |s|
        invariant out == old(out) + BlobHeader(|s|) + s[..i]
      {
        out := out + [s[i]];
      }
      assert s[..|s|] == s;
    }

    method WriteJid(v: bytes)
      modifies this
      ensures out == old(out) + EncJid(v)
    {
      hide EncBlob;
      var at := Find(v, AT_SIGN);
      if 0 < at < |v| {
        PushByte(JID_PAIR);
        WriteBlob(v[..at]);
        WriteBlob(v[at + 1..]);
        return;
      }
      WriteBlob(v);
    }

    method WriteListStart(n: nat)
      modifies this
      ensures out == old(out) + ListStart(n)
    {
      if n == 0 {
        PushByte(LIST_EMPTY);
      } else if n < 256 {
        PushByte(LIST_8);
        PushByte(n);
      } else {
        PushByte(LIST_16);
        PushInt16(n);
      }
    }

    method WriteNode(n: Node)
      modifies this
      ensures out == old(out) + EncNode(n)
      decreases n
    {
      hide EncBlob; hide ListStart; hide EncJid; hide EncContent; hide JidLike;
      WriteListStart(ListSize(n));
      WriteBlob(n.tag);
      ghost var head := out;
      for k := 0 to |n.attrs|
        invariant out + EncAttrs(n.attrs[k..]) == head + EncAttrs(n.attrs)
      {
        var a := n.attrs[k];
        ghost var before := out;
        WriteBlob(a.key);
        if JidLike(a.value) {
          WriteJid(a.value);
        } else {
          WriteBlob(a.value);
        }
        assert out == before + (EncBlob(a.key) + EncValue(a.value));
        assert n.attrs[k..][1..] == n.attrs[k + 1..];
      }
      assert out == head + EncAttrs(n.attrs);
      WriteContent(n.content);
    }

    /** The tail of the node writer. */
    method WriteContent(c: Content)
      modifies this
      ensures out == old(out) + EncContent(c)
      decreases c
    {
      hide EncBlob; hide ListStart; hide EncNode;
      match c {
        case NoContent =>
        case Text(s) => WriteBlob(s);
        case Binary(d) => WriteBlob(d);
        case Children(nodes) =>
          WriteListStart(|nodes|);
          ghost var start := out;
          for k := 0 to |nodes|
            invariant out + EncNodes(nodes[k..]) == start + EncNodes(nodes)
          {
            assert nodes[k..][1..] == nodes[k + 1..];
            WriteNode(nodes[k]);
          }
          assert out == start + EncNodes(nodes);
      }
    }
  }

  method EncodeBinaryNode(n: Node) returns (r: bytes)
    ensures r == EncNode(n)
  {
    var w := new Writer();
    w.WriteNode(n);
    r := w.out;
  }

  // ----- what is read: functions of a buffer and a cursor, giving a value and the next cursor -----

  type Read<T> = Result<(T, nat)>

  function ReadByte(buf: bytes, i: nat): (r: Read<byte>)
    ensures r.Ok? ==> r.value.1 == i + 1 <= |buf|
  {
    if i >= |buf| then Err("unexpected EOF") else Ok((buf[i], i + 1))
  }

  function ReadBytes(buf: bytes, i: nat, n: nat): (r: Read<bytes>)
    ensures r.Ok? ==> r.value.1 == i + n <= |buf|
  {
    if i + n > |buf| then Err("unexpected EOF") else Ok((buf[i..i + n], i + n))
  }

  function ReadInt16(buf: bytes, i: nat): (r: Read<nat>)
    ensures r.Ok? ==> r.value.1 == i + 2 <= |buf|
  {
    if i + 2 > |buf| then Err("unexpected EOF") else Ok((Join16(buf[i], buf[i + 1]), i + 2))
  }

  function ReadInt20(buf: bytes, i: nat): (r: Read<nat>)
    ensures r.Ok? ==> r.value.1 == i + 3 <= |buf|
  {
    if i + 3 > |buf| then Err("unexpected EOF")
    else Ok((Join24(buf[i] % 0x10, buf[i + 1], buf[i + 2]), i + 3))
  }

  function ReadInt32(buf: bytes, i: nat): (r: Read<nat>)
    ensures r.Ok? ==> r.value.1 == i + 4 <= |buf|
  {
    if i + 4 > |buf| then Err("unexpected EOF")
    else Ok((Join32(buf[i], buf[i + 1], buf[i + 2], buf[i + 3]), i + 4))
  }

  function ReadListSize(tag: byte, buf: bytes, i: nat): (r: Read<nat>)
    ensures r.Ok? ==> i <= r.value.1 && (i <= |buf| ==> r.value.1 <= |buf|)
  {
    if tag == LIST_EMPTY then Ok((0, i))
    else if tag == LIST_8 then
      var (n, j) :- ReadByte(buf, i);
      Ok((n, j))
    else if tag == LIST_16 then ReadInt16(buf, i)
    else Err("invalid list tag")
  }

  predicate IsBlobTag(tag: byte) {
    tag == BINARY_8 || tag == BINARY_20 || tag == BINARY_32
  }

  function ReadBlobLength(tag: byte, buf: bytes, i: nat): (r: Read<nat>)
    requires IsBlobTag(tag)
    ensures r.Ok? ==> i < r.value.1 <= |buf|
  {
    if tag == BINARY_8 then
      var (n, j) :- ReadByte(buf, i);
      Ok((n, j))
    else if tag == BINARY_20 then ReadInt20(buf, i)
    else ReadInt32(buf, i)
  }

  function ReadBlob(tag: byte, buf: bytes, i: nat): (r: Read<bytes>)
    requires IsBlobTag(tag)
    ensures r.Ok? ==> i < r.value.1 <= |buf|
  {
    var (n, j) :- ReadBlobLength(tag, buf, i);
    ReadBytes(buf, j, n)
  }

  function HexDigit(d: nat): byte
    requires d < 16
  {
    if d < 10 then 48 + d else 55 + d
  }

  /** The digits of the k-th byte of a packed string of `size` characters. */
  function Digits(raw: bytes, size: nat, k: nat): bytes
    requires k < |raw|
  {
    var (high, low) := (raw[k] / 16, raw[k] % 16);
    (if k * 2 < size then [HexDigit(high)] else [])
    + (if k * 2 + 1 < size && low != 15 then [HexDigit(low)] else [])
  }

  /** The digits of a packed string from its k-th byte on. */
  function Unpack(raw: bytes, size: nat, k: nat): bytes
    decreases |raw| - k
  {
    if k >= |raw| then [] else Digits(raw, size, k) + Unpack(raw, size, k + 1)
  }

  lemma UnpackNext(before: bytes, raw: bytes, size: nat, k: nat)
    requires k < |raw|
    ensures before + Digits(raw, size, k) + Unpack(raw, size, k + 1) == before + Unpack(raw, size, k)
  {
    hide Digits;
  }

  lemma UnpackEnd(raw: bytes, size: nat)
    ensures Unpack(raw, size, |raw|) == []
  {
  }

  function ReadPacked(buf: bytes, i: nat): (r: Read<bytes>)
    ensures r.Ok? ==> i < r.value.1 <= |buf|
  {
    var (size, j) :- ReadByte(buf, i);
    var (raw, k) :- ReadBytes(buf, j, (size + 1) / 2);
    Ok((Unpack(raw, size, 0), k))
  }

  function Decimal(n: nat): bytes {
    if n < 10 then [48 + n] else Decimal(n / 10) + [48 + n % 10]
  }

  function JidString(user: bytes, server: bytes): bytes {
    if user == [] then server else user + [AT_SIGN] + server
  }

  function ReadString(buf: bytes, i: nat): (r: Read<bytes>)
    ensures r.Ok? ==> i < r.value.1 <= |buf|
    decreases |buf| - i, 1
  {
    var (tag, j) :- ReadByte(buf, i);
    ReadToken(tag, buf, j)
  }

  function ReadToken(tag: byte, buf: bytes, i: nat): (r: Read<bytes>)
    ensures r.Ok? && i <= |buf| ==> i <= r.value.1 <= |buf|
    decreases |buf| - i, 2
  {
    if tag == LIST_EMPTY then Ok(([], i))
    else if IsBlobTag(tag) then ReadBlob(tag, buf, i)
    else if tag == JID_PAIR then
      var (user, j) :- ReadString(buf, i);
      var (server, k) :- ReadString(buf, j);
      Ok((JidString(user, server), k))
    else if tag == NIBBLE_8 || tag == HEX_8 then ReadPacked(buf, i)
    else if 3 <= tag < DICTIONARY_0 then Ok((Decimal(tag), i))
    else if DICTIONARY_0 <= tag <= DICTIONARY_3 then
      var (index, j) :- ReadByte(buf, i);
      Ok((Ascii("dict:") + Decimal(tag) + Ascii(":") + Decimal(index), j))
    else Err("invalid string tag")
  }

  /** Setting a property keeps the place of an existing key. */
  function SetAttr(attrs: seq<Attr>, key: bytes, value: bytes): seq<Attr> {
    if attrs == [] then [Attr(key, value)]
    else if attrs[0].key == key then [Attr(key, value)] + attrs[1..]
    else [attrs[0]] + SetAttr(attrs[1..], key, value)
  }

  function ReadAttrs(buf: bytes, i: nat, count: nat, attrs: seq<Attr>): (r: Read<seq<Attr>>)
    ensures r.Ok? && i <= |buf| ==> i <= r.value.1 <= |buf|
    decreases count
  {
    if count == 0 then Ok((attrs, i)) else
    var (key, j) :- ReadString(buf, i);
    var (value, k) :- ReadString(buf, j);
    ReadAttrs(buf, k, count - 1, SetAttr(attrs, key, value))
  }

  predicate IsListTag(tag: byte) {
    tag == LIST_EMPTY || tag == LIST_8 || tag == LIST_16
  }

  function ReadNode(buf: bytes, i: nat): (r: Read<Node>)
    ensures r.Ok? ==> i < r.value.1 <= |buf|
    decreases |buf| - i, 0
  {
    var (listTag, i1) :- ReadByte(buf, i);
    var (size, i2) :- ReadListSize(listTag, buf, i1);
    if size == 0 then Ok((Node([], [], NoContent), i2)) else
    var (tag, i3) :- ReadString(buf, i2);
    var (attrs, i4) :- ReadAttrs(buf, i3, (size - 1) / 2, []);
    if size % 2 == 1 then Ok((Node(tag, attrs, NoContent), i4)) else
    var (content, i5) :- ReadContent(buf, i4);
    Ok((Node(tag, attrs, content), i5))
  }

  function ReadContent(buf: bytes, i: nat): (r: Read<Content>)
    ensures r.Ok? ==> i < r.value.1 <= |buf|
    decreases |buf| - i, 2
  {
    var (tag, j) :- ReadByte(buf, i);
    if IsListTag(tag) then
      var (count, k) :- ReadListSize(tag, buf, j);
      var (nodes, l) :- ReadNodes(buf, k, count);
      Ok((Children(nodes), l))
    else if IsBlobTag(tag) then
      var (data, k) :- ReadBlob(tag, buf, j);
      Ok((Binary(data), k))
    else
      var (text, k) :- ReadToken(tag, buf, j);
      Ok((Text(text), k))
  }

  function ReadNodes(buf: bytes, i: nat, count: nat): (r: Read<seq<Node>>)
    ensures r.Ok? && i <= |buf| ==> i <= r.value.1 <= |buf|
    ensures r.Ok? ==> |r.value.0| == count
    decreases |buf| - i, 1
  {
    if count == 0 then Ok(([], i)) else
    var (n, j) :- ReadNode(buf, i);
    var (rest, k) :- ReadNodes(buf, j, count - 1);
    Ok(([n] + rest, k))
  }

  /**
   The decoder. Every method advances the cursor of one buffer exactly as its function says, and
   whatever the bytes are, leaves it inside the buffer.
   */
  class BinaryReader {
    const buf: bytes
    var i: nat

    constructor (buf: bytes)
      ensures this.buf == buf && i == 0
    {
      this.buf := buf;
      i := 0;
    }

    /** Agreement of a method's result and cursor with a function's. */
    ghost predicate Follows<T>(r: Result<T>, spec: Read<T>)
      reads this
    {
      && i <= |buf|
      && r.Ok? == spec.Ok?
      && (r.Ok? ==> spec.value == (r.value, i))
    }

    method NextByte() returns (r: Result<byte>)
      requires i <= |buf|
      modifies this
      ensures Follows(r, ReadByte(buf, old(i)))
    {
      if i >= |buf| {
        return Err("unexpected EOF");
      }
      i := i + 1;
      return Ok(buf[i - 1]);
    }

    method NextBytes(n: nat) returns (r: Result<bytes>)
      requires i <= |buf|
      modifies this
      ensures Follows(r, ReadBytes(buf, old(i), n))
    {
      if i + n > |buf| {
        return Err("unexpected EOF");
      }
      i := i + n;
      return Ok(buf[i - n..i]);
    }

    method NextInt16() returns (r: Result<nat>)
      requires i <= |buf|
      modifies this
      ensures Follows(r, ReadInt16(buf, old(i)))
    {
      var b0 :- NextByte();
      var b1 :- NextByte();
      return Ok(Join16(b0, b1));
    }

    method NextInt20() returns (r: Result<nat>)
      requires i <= |buf|
      modifies this
      ensures Follows(r, ReadInt20(buf, old(i)))
    {
      var b0 :- NextByte();
      var b1 :- NextByte();
      var b2 :- NextByte();
      return Ok(Join24(b0 % 0x10, b1, b2));
    }

    method NextInt32() returns (r: Result<nat>)
      requires i <= |buf|
      modifies this
      ensures Follows(r, ReadInt32(buf, old(i)))
    {
      var b0 :- NextByte();
      var b1 :- NextByte();
      var b2 :- NextByte();
      var b3 :- NextByte();
      return Ok(Join32(b0, b1, b2, b3));
    }

    method NextListSize(tag: byte) returns (r: Result<nat>)
      requires i <= |buf|
      modifies this
      ensures Follows(r, ReadListSize(tag, buf, old(i)))
    {
      if tag == LIST_EMPTY {
        return Ok(0);
      }
      if tag == LIST_8 {
        var n :- NextByte();
        return Ok(n);
      }
      if tag == LIST_16 {
        r := NextInt16();
        return;
      }
      return Err("invalid list tag");
    }

    method NextBlob(tag: byte) returns (r: Result<bytes>)
      requires i <= |buf| && IsBlobTag(tag)
      modifies this
      ensures Follows(r, ReadBlob(tag, buf, old(i)))
    {
      var len: nat;
      if tag == BINARY_8 {
        len :- NextByte();
      } else if tag == BINARY_20 {
        len :- NextInt20();
      } else {
        len :- NextInt32();
      }
      r := NextBytes(len);
    }

    /** The loop over packed bytes. */
    static method UnpackDigits(raw: bytes, size: nat) returns (out: bytes)
      ensures out == Unpack(raw, size, 0)
    {
      hide HexDigit; hide Unpack;
      out := [];
      for k := 0 to |raw|
        invariant out + Unpack(raw, size, k) == Unpack(raw, size, 0)
      {
        ghost var before := out;
        var high, low := raw[k] / 16, raw[k] % 16;
        if k * 2 < size {
          out := out + [HexDigit(high)];
        }
        if k * 2 + 1 < size && low != 15 {
          out := out + [HexDigit(low)];
        }
        assert out == before + Digits(raw, size, k);
        UnpackNext(before, raw, size, k);
      }
      UnpackEnd(raw, size);
      assert out + [] == out;
    }

    method NextPacked() returns (r: Result<bytes>)
      requires i <= |buf|
      modifies this
      ensures Follows(r, ReadPacked(buf, old(i)))
    {
      var size: nat :- NextByte();
      var raw :- NextBytes((size + 1) / 2);
      var out := UnpackDigits(raw, size);
      return Ok(out);
    }

    method NextString() returns (r: Result<bytes>)
      requires i <= |buf|
      modifies this
      ensures Follows(r, ReadString(buf, old(i)))
      decreases |buf| - i, 1
    {
      var tag :- NextByte();
      r := NextToken(tag);
    }

    method NextToken(tag: byte) returns (r: Result<bytes>)
      requires i <= |buf|
      modifies this
      ensures Follows(r, ReadToken(tag, buf, old(i)))
      decreases |buf| - i, 2
    {
      if tag == LIST_EMPTY {
        return Ok([]);
      }
      if IsBlobTag(tag) {
        r := NextBlob(tag);
        return;
      }
      if tag == JID_PAIR {
        var user :- NextString();
        var server :- NextString();
        return Ok(JidString(user, server));
      }
      if tag == NIBBLE_8 || tag == HEX_8 {
        r := NextPacked();
        return;
      }
      if 3 <= tag < DICTIONARY_0 {
        return Ok(Decimal(tag));
      }
      if DICTIONARY_0 <= tag <= DICTIONARY_3 {
        var index :- NextByte();
        return Ok(Ascii("dict:") + Decimal(tag) + Ascii(":") + Decimal(index));
      }
      return Err("invalid string tag");
    }

    method NextNode() returns (r: Result<Node>)
      requires i <= |buf|
      modifies this
      ensures Follows(r, ReadNode(buf, old(i)))
      decreases |buf| - i, 0
    {
      hide ReadString; hide ReadContent; hide ReadListSize; hide SetAttr;
      var listTag :- NextByte();
      var size :- NextListSize(listTag);
      if size == 0 {
        return Ok(Node([], [], NoContent));
      }
      var tag :- NextString();
      ghost var start := i;
      var attrs: seq<Attr> := [];
      var count := (size - 1) / 2;
      for k := 0 to count
        invariant start <= i <= |buf|
        invariant ReadAttrs(buf, start, count, []) == ReadAttrs(buf, i, count - k, attrs)
      {
        var key :- NextString();
        var value :- NextString();
        attrs := SetAttr(attrs, key, value);
      }
      var content := NoContent;
      if size % 2 == 0 {
        content :- NextContent();
      }
      return Ok(Node(tag, attrs, content));
    }

    method NextContent() returns (r: Result<Content>)
      requires i <= |buf|
      modifies this
      ensures Follows(r, ReadContent(buf, old(i)))
      decreases |buf| - i, 2
    {
      hide ReadNode; hide ReadListSize; hide ReadBlob; hide ReadToken;
      var tag :- NextByte();
      if IsListTag(tag) {
        var count :- NextListSize(tag);
        ghost var start := i;
        var nodes: seq<Node> := [];
        for k := 0 to count
          invariant start <= i <= |buf|
          invariant ReadNodes(buf, start, count).Ok? == ReadNodes(buf, i, count - k).Ok?
          invariant ReadNodes(buf, start, count).Ok? ==>
            var (all, end) := ReadNodes(buf, start, count).value;
            var (rest, end') := ReadNodes(buf, i, count - k).value;
            all == nodes + rest && end == end'
        {
          var child :- NextNode();
          nodes := nodes + [child];
        }
        assert nodes + [] == nodes;
        return Ok(Children(nodes));
      }
      if IsBlobTag(tag) {
        var data :- NextBlob(tag);
        return Ok(Binary(data));
      }
      var text :- NextToken(tag);
      return Ok(Text(text));
    }
  }

  /** Decoding ends on every byte string, with a node or an error. */
  method DecodeBinaryNode(data: bytes) returns (r: Result<Node>)
    ensures r.Ok? == ReadNode(data, 0).Ok?
    ensures r.Ok? ==> r.value == ReadNode(data, 0).value.0
  {
    var reader := new BinaryReader(data);
    r := reader.NextNode();
  }
}

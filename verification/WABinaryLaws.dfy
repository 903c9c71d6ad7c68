/** Decoding undoes encoding of binary nodes. */
module WABinaryLaws {
  import opened Prelude
  import opened WABinary

  const TWO32 := 0x1_0000_0000

  /** The encoding `enc` lies in the buffer at position i. */
  predicate Holds(buf: bytes, i: nat, enc: bytes) {
    i + |enc| <= |buf| && buf[i..i + |enc|] == enc
  }

  lemma HoldsSplit(buf: bytes, i: nat, a: bytes, b: bytes)
    requires Holds(buf, i, a + b)
    ensures Holds(buf, i, a) && Holds(buf, i + |a|, b)
  {
    assert buf[i..i + |a|] == buf[i..i + |a + b|][..|a|];
    assert buf[i + |a|..i + |a| + |b|] == buf[i..i + |a + b|][|a|..];
  }

  lemma HoldsAt(buf: bytes, i: nat, enc: bytes)
    requires Holds(buf, i, enc)
    ensures forall k :: 0 <= k < |enc| ==> buf[i + k] == enc[k]
  {
    forall k | 0 <= k < |enc| ensures buf[i + k] == enc[k] {
      assert buf[i..i + |enc|][k] == buf[i + k];
    }
  }

  // ----- leaves -----

  lemma JoinBE20(v: nat)
    requires v < 0x10_0000
    ensures Join24(BE20(v)[0] % 0x10, BE20(v)[1], BE20(v)[2]) == v
  {
    var (v1, v2) := (v / 0x100, v / 0x1_0000);
    assert v == v1 * 0x100 + v % 0x100;
    assert v1 == v2 * 0x100 + v1 % 0x100;
    assert v2 % 0x10 == v2;
  }

  lemma Int20At(buf: bytes, i: nat, v: nat)
    requires v < 0x10_0000 && Holds(buf, i, BE20(v))
    ensures ReadInt20(buf, i) == Ok((v, i + 3))
  {
    JoinBE20(v);
    HoldsAt(buf, i, BE20(v));
    hide BE20; hide Join24;
    assert buf[i + 0] == BE20(v)[0] && buf[i + 1] == BE20(v)[1] && buf[i + 2] == BE20(v)[2];
  }

  lemma Int32At(buf: bytes, i: nat, v: nat)
    requires v < TWO32 && Holds(buf, i, BE32(v))
    ensures ReadInt32(buf, i) == Ok((v, i + 4))
  {
    JoinBE32(v);
    HoldsAt(buf, i, BE32(v));
    hide BE32; hide Join32;
    assert buf[i + 0] == BE32(v)[0] && buf[i + 1] == BE32(v)[1];
    assert buf[i + 2] == BE32(v)[2] && buf[i + 3] == BE32(v)[3];
  }

  lemma BlobLengthAt(buf: bytes, i: nat, n: nat)
    requires n < TWO32 && Holds(buf, i, BlobHeader(n))
    ensures IsBlobTag(buf[i])
    ensures ReadBlobLength(buf[i], buf, i + 1) == Ok((n, i + |BlobHeader(n)|))
  {
    HoldsAt(buf, i, BlobHeader(n));
    hide ReadInt20; hide ReadInt32; hide BE20; hide BE32;
    assert buf[i + 0] == BlobHeader(n)[0];
    if n < 256 {
      assert buf[i + 1] == n;
    } else if n < 0x10_0000 {
      HoldsSplit(buf, i, [BINARY_20], BE20(n));
      Int20At(buf, i + 1, n);
    } else {
      HoldsSplit(buf, i, [BINARY_32], BE32(n));
      Int32At(buf, i + 1, n);
    }
  }

  lemma BlobAt(buf: bytes, i: nat, s: bytes)
    requires |s| < TWO32 && Holds(buf, i, EncBlob(s))
    ensures IsBlobTag(buf[i]) && ReadBlob(buf[i], buf, i + 1) == Ok((s, i + |EncBlob(s)|))
    ensures ReadString(buf, i) == Ok((s, i + |EncBlob(s)|))
  {
    hide BlobHeader; hide ReadBlobLength;
    HoldsSplit(buf, i, BlobHeader(|s|), s);
    BlobLengthAt(buf, i, |s|);
  }

  /** A string survives exactly when its length fits the widest length field. */
  lemma BlobRoundTripExactly(s: bytes, rest: bytes)
    ensures ReadString(EncBlob(s) + rest, 0) == Ok((s, |EncBlob(s)|)) <==> |s| < TWO32
  {
    var buf := EncBlob(s) + rest;
    if |s| < TWO32 {
      assert Holds(buf, 0, EncBlob(s));
      BlobAt(buf, 0, s);
    } else {
      assert buf[0] == BINARY_32;
      assert Join32(buf[1], buf[2], buf[3], buf[4]) < TWO32;
    }
  }

  lemma ListStartAt(buf: bytes, i: nat, n: nat)
    requires n <= 65535 && Holds(buf, i, ListStart(n))
    ensures IsListTag(buf[i]) && ReadListSize(buf[i], buf, i + 1) == Ok((n, i + |ListStart(n)|))
  {
    HoldsAt(buf, i, ListStart(n));
    if n >= 256 {
      assert buf[i + 1] == BE16(n)[0] && buf[i + 2] == BE16(n)[1];
    }
  }

  /** A list header survives exactly when the count fits sixteen bits; the encoder cuts larger ones. */
  lemma ListHeaderExactly(n: nat, rest: bytes)
    ensures ReadListSize(ListStart(n)[0], ListStart(n) + rest, 1) == Ok((n, |ListStart(n)|)) <==> n <= 65535
  {
    var buf := ListStart(n) + rest;
    if n <= 65535 {
      assert Holds(buf, 0, ListStart(n));
      ListStartAt(buf, 0, n);
    } else {
      assert buf[0] == LIST_16 && Join16(buf[1], buf[2]) <= 65535;
    }
  }

  lemma JidPairAt(buf: bytes, i: nat, user: bytes, j: nat, server: bytes, k: nat)
    requires i < |buf| && buf[i] == JID_PAIR
    requires ReadString(buf, i + 1) == Ok((user, j)) && ReadString(buf, j) == Ok((server, k))
    ensures ReadString(buf, i) == Ok((JidString(user, server), k))
  {
    hide ReadBlob; hide ReadPacked;
  }

  /** A packed pair gives back the two strings joined by an at sign. */
  lemma PackedAt(buf: bytes, i: nat, user: bytes, server: bytes)
    requires |user| < TWO32 && |server| < TWO32 && Holds(buf, i, [JID_PAIR] + EncBlob(user) + EncBlob(server))
    ensures ReadString(buf, i) == Ok((JidString(user, server), i + 1 + |EncBlob(user)| + |EncBlob(server)|))
  {
    hide EncBlob; hide ReadString;
    HoldsSplit(buf, i, [JID_PAIR] + EncBlob(user), EncBlob(server));
    HoldsSplit(buf, i, [JID_PAIR], EncBlob(user));
    assert [JID_PAIR][0] == JID_PAIR && buf[i] == buf[i..i + 1][0];
    var j := i + 1 + |EncBlob(user)|;
    BlobAt(buf, i + 1, user);
    BlobAt(buf, j, server);
    JidPairAt(buf, i, user, j, server, j + |EncBlob(server)|);
  }

  /** An attribute value comes back whether or not it was packed as a JID pair. */
  lemma ValueAt(buf: bytes, i: nat, v: bytes)
    requires |v| < TWO32 && Holds(buf, i, EncValue(v))
    ensures ReadString(buf, i) == Ok((v, i + |EncValue(v)|))
  {
    hide EncBlob; hide ReadString; hide Holds;
    var at := Find(v, AT_SIGN);
    if JidLike(v) && 0 < at < |v| {
      var (user, server) := (v[..at], v[at + 1..]);
      PackedAt(buf, i, user, server);
      assert user + [AT_SIGN] + server == v;
    } else {
      BlobAt(buf, i, v);
    }
  }

  // ----- packed digits, which are read but never written -----

  /** The k-th half byte. */
  function HalfByte(raw: bytes, k: nat): nat
    requires k / 2 < |raw|
  {
    if k % 2 == 0 then raw[k / 2] / 16 else raw[k / 2] % 16
  }

  /** Is the k-th half byte a filler? Only a low half can be. */
  predicate Filler(raw: bytes, k: nat)
    requires k / 2 < |raw|
  {
    k % 2 == 1 && HalfByte(raw, k) == 15
  }

  /** The digits of the half bytes from the k-th up to the announced size, without the fillers. */
  function HalfByteDigits(raw: bytes, size: nat, k: nat): bytes
    requires size <= 2 * |raw|
    decreases size - k
  {
    if k >= size then []
    else (if Filler(raw, k) then [] else [HexDigit(HalfByte(raw, k))]) + HalfByteDigits(raw, size, k + 1)
  }

  /** Unpacking byte by byte gives the digit of every half byte within the size, in order, fillers left out. */
  lemma {:induction false} UnpackExactly(raw: bytes, size: nat, i: nat)
    requires i <= |raw| == (size + 1) / 2
    ensures Unpack(raw, size, i) == HalfByteDigits(raw, size, 2 * i)
    decreases |raw| - i
  {
    if i < |raw| {
      hide Digits; hide HalfByteDigits;
      assert Unpack(raw, size, i) == Digits(raw, size, i) + Unpack(raw, size, i + 1);
      hide Unpack;
      UnpackExactly(raw, size, i + 1);
      DigitsAreHalfBytes(raw, size, i);
      assert 2 * (i + 1) == 2 * i + 2;
    }
  }

  /** The digits of one byte and those of its two half bytes. */
  lemma DigitsAreHalfBytes(raw: bytes, size: nat, i: nat)
    requires i < |raw| == (size + 1) / 2
    ensures HalfByteDigits(raw, size, 2 * i) == Digits(raw, size, i) + HalfByteDigits(raw, size, 2 * i + 2)
  {
    hide HexDigit;
    var rest := HalfByteDigits(raw, size, 2 * i + 2);
    assert HalfByte(raw, 2 * i) == raw[i] / 16 && !Filler(raw, 2 * i);
    var high := HexDigit(raw[i] / 16);
    var tail := HalfByteDigits(raw, size, 2 * i + 1);
    assert HalfByteDigits(raw, size, 2 * i) == [high] + tail;
    if 2 * i + 1 >= size {
      assert tail == rest == [];
    } else {
      assert HalfByte(raw, 2 * i + 1) == raw[i] % 16;
      if raw[i] % 16 == 15 {
        assert tail == [] + rest == rest;
      } else {
        assert tail == [HexDigit(raw[i] % 16)] + rest;
      }
    }
  }

  /** As many digits as announced come out exactly when there is no filler among them. */
  lemma {:induction false} DigitCountExactly(raw: bytes, size: nat, k: nat)
    requires k <= size <= 2 * |raw|
    ensures |HalfByteDigits(raw, size, k)| <= size - k
    ensures |HalfByteDigits(raw, size, k)| == size - k <==> forall j :: k <= j < size ==> !Filler(raw, j)
    decreases size - k
  {
    if k < size {
      DigitCountExactly(raw, size, k + 1);
    }
  }

  // ----- attributes -----

  ghost predicate DistinctKeys(attrs: seq<Attr>) {
    forall j, k :: 0 <= j < k < |attrs| ==> attrs[j].key != attrs[k].key
  }

  predicate GoodAttrs(attrs: seq<Attr>) {
    forall a :: a in attrs ==> |a.key| < TWO32 && |a.value| < TWO32
  }

  lemma {:induction false} SetNewAttr(attrs: seq<Attr>, key: bytes, value: bytes)
    requires forall a :: a in attrs ==> a.key != key
    ensures SetAttr(attrs, key, value) == attrs + [Attr(key, value)]
  {
    if attrs != [] {
      SetNewAttr(attrs[1..], key, value);
    }
  }

  /** One more attribute read behind those already there. */
  lemma AttrStep(buf: bytes, i: nat, count: nat, before: seq<Attr>, a: Attr, j: nat, k: nat)
    requires ReadString(buf, i) == Ok((a.key, j)) && ReadString(buf, j) == Ok((a.value, k))
    requires forall b :: b in before ==> b.key != a.key
    ensures ReadAttrs(buf, i, count + 1, before) == ReadAttrs(buf, k, count, before + [a])
  {
    hide ReadString;
    SetNewAttr(before, a.key, a.value);
  }

  lemma NewKey(before: seq<Attr>, attrs: seq<Attr>)
    requires attrs != [] && DistinctKeys(before + attrs)
    ensures forall b :: b in before ==> b.key != attrs[0].key
    ensures before + [attrs[0]] + attrs[1..] == before + attrs
  {
    forall b | b in before ensures b.key != attrs[0].key {
      var j :| 0 <= j < |before| && before[j] == b;
      assert (before + attrs)[j].key != (before + attrs)[|before|].key;
    }
  }

  lemma {:induction false} AttrsAt(buf: bytes, i: nat, attrs: seq<Attr>, before: seq<Attr>)
    requires GoodAttrs(attrs) && DistinctKeys(before + attrs) && Holds(buf, i, EncAttrs(attrs))
    ensures ReadAttrs(buf, i, |attrs|, before) == Ok((before + attrs, i + |EncAttrs(attrs)|))
    decreases |attrs|
  {
    hide EncBlob; hide EncValue; hide ReadString; hide Holds; hide DistinctKeys;
    if attrs == [] {
      assert before + attrs == before;
    } else {
      var (a, rest) := (attrs[0], attrs[1..]);
      HoldsSplit(buf, i, EncBlob(a.key) + EncValue(a.value), EncAttrs(rest));
      HoldsSplit(buf, i, EncBlob(a.key), EncValue(a.value));
      var j := i + |EncBlob(a.key)|;
      var k := j + |EncValue(a.value)|;
      BlobAt(buf, i, a.key);
      ValueAt(buf, j, a.value);
      NewKey(before, attrs);
      hide ReadAttrs;
      AttrStep(buf, i, |rest|, before, a, j, k);
      AttrsAt(buf, k, rest, before + [a]);
    }
  }

  // ----- nodes -----

  /** Sizes that the wire form can carry, at every node of the tree. */
  ghost predicate WellSized(n: Node)
    decreases n, 0
  {
    && ListSize(n) <= 65535
    && |n.tag| < TWO32 && GoodAttrs(n.attrs) && DistinctKeys(n.attrs)
    && WellSizedContent(n.content)
  }

  ghost predicate WellSizedContent(c: Content)
    decreases c, 0
  {
    match c
    case NoContent => true
    case Text(s) => |s| < TWO32
    case Binary(d) => |d| < TWO32
    case Children(nodes) => |nodes| <= 65535 && forall k :: 0 <= k < |nodes| ==> WellSized(nodes[k])
  }

  /** What the decoder makes of a tree: string contents come back as bytes. */
  function Norm(n: Node): Node
    decreases n, 0
  {
    Node(n.tag, n.attrs, NormContent(n.content))
  }

  function NormContent(c: Content): Content
    decreases c, 0
  {
    match c
    case NoContent => NoContent
    case Text(s) => Binary(s)
    case Binary(d) => Binary(d)
    case Children(nodes) => Children(NormAll(nodes))
  }

  function NormAll(nodes: seq<Node>): (r: seq<Node>)
    ensures |r| == |nodes|
    decreases nodes, 0
  {
    if nodes == [] then [] else [Norm(nodes[0])] + NormAll(nodes[1..])
  }

  /** Where the four parts of an encoded node lie. */
  lemma NodeParts(buf: bytes, i: nat, n: Node) returns (i1: nat, i2: nat, i3: nat)
    requires Holds(buf, i, EncNode(n))
    ensures Holds(buf, i, ListStart(ListSize(n))) && i1 == i + |ListStart(ListSize(n))|
    ensures Holds(buf, i1, EncBlob(n.tag)) && i2 == i1 + |EncBlob(n.tag)|
    ensures Holds(buf, i2, EncAttrs(n.attrs)) && i3 == i2 + |EncAttrs(n.attrs)|
    ensures Holds(buf, i3, EncContent(n.content)) && i3 + |EncContent(n.content)| == i + |EncNode(n)|
  {
    hide EncBlob; hide ListStart;
    i1 := i + |ListStart(ListSize(n))|;
    i2 := i1 + |EncBlob(n.tag)|;
    i3 := i2 + |EncAttrs(n.attrs)|;
    HoldsSplit(buf, i, ListStart(ListSize(n)) + EncBlob(n.tag) + EncAttrs(n.attrs), EncContent(n.content));
    HoldsSplit(buf, i, ListStart(ListSize(n)) + EncBlob(n.tag), EncAttrs(n.attrs));
    HoldsSplit(buf, i, ListStart(ListSize(n)), EncBlob(n.tag));
  }

  /** A node is read once its four parts are. */
  lemma Assemble(buf: bytes, i: nat, i1: nat, i2: nat, i3: nat, i4: nat, n: Node)
    requires i < |buf| && ReadListSize(buf[i], buf, i + 1) == Ok((ListSize(n), i1))
    requires ReadString(buf, i1) == Ok((n.tag, i2))
    requires ReadAttrs(buf, i2, |n.attrs|, []) == Ok((n.attrs, i3))
    requires if n.content.NoContent? then i4 == i3 else ReadContent(buf, i3) == Ok((n.content, i4))
    ensures ReadNode(buf, i) == Ok((n, i4))
  {
    hide ReadString; hide ReadListSize; hide ReadAttrs; hide ReadContent;
  }

  lemma {:induction false} NodeAt(buf: bytes, i: nat, n: Node)
    requires WellSized(n) && Holds(buf, i, EncNode(n))
    ensures ReadNode(buf, i) == Ok((Norm(n), i + |EncNode(n)|))
    decreases n, 1
  {
    hide EncBlob; hide ListStart; hide ReadString; hide ReadListSize; hide ReadAttrs; hide ReadContent;
    hide EncNode; hide Holds; hide ReadNode;
    var i1, i2, i3 := NodeParts(buf, i, n);
    ListStartAt(buf, i, ListSize(n));
    BlobAt(buf, i1, n.tag);
    assert [] + n.attrs == n.attrs;
    AttrsAt(buf, i2, n.attrs, []);
    if !n.content.NoContent? {
      ContentAt(buf, i3, n.content);
    } else {
      assert EncContent(n.content) == [];
    }
    assert NormContent(n.content).NoContent? <==> n.content.NoContent?;
    Assemble(buf, i, i1, i2, i3, i + |EncNode(n)|, Norm(n));
  }

  lemma {:induction false} ContentAt(buf: bytes, i: nat, c: Content)
    requires !c.NoContent? && WellSizedContent(c) && Holds(buf, i, EncContent(c))
    ensures ReadContent(buf, i) == Ok((NormContent(c), i + |EncContent(c)|))
    decreases c, 1
  {
    hide EncBlob; hide ListStart; hide ReadListSize; hide ReadNodes; hide ReadBlob;
    match c
    case Text(s) => BlobAt(buf, i, s);
    case Binary(d) => BlobAt(buf, i, d);
    case Children(nodes) =>
      HoldsSplit(buf, i, ListStart(|nodes|), EncNodes(nodes));
      ListStartAt(buf, i, |nodes|);
      NodesAt(buf, i + |ListStart(|nodes|)|, nodes);
  }

  lemma {:induction false} NodesAt(buf: bytes, i: nat, nodes: seq<Node>)
    requires (forall k :: 0 <= k < |nodes| ==> WellSized(nodes[k])) && Holds(buf, i, EncNodes(nodes))
    ensures ReadNodes(buf, i, |nodes|) == Ok((NormAll(nodes), i + |EncNodes(nodes)|))
    decreases nodes, 1
  {
    hide ReadNode; hide EncNode;
    if nodes != [] {
      HoldsSplit(buf, i, EncNode(nodes[0]), EncNodes(nodes[1..]));
      NodeAt(buf, i, nodes[0]);
      NodesAt(buf, i + |EncNode(nodes[0])|, nodes[1..]);
    }
  }

  /** Round trip: in front of any bytes, the decoder reads exactly the encoding and restores the tree. */
  lemma NodeRoundTrip(n: Node, rest: bytes)
    requires WellSized(n)
    ensures ReadNode(EncNode(n) + rest, 0) == Ok((Norm(n), |EncNode(n)|))
  {
    hide EncNode; hide ReadNode; hide WellSized; hide Norm;
    assert Holds(EncNode(n) + rest, 0, EncNode(n));
    NodeAt(EncNode(n) + rest, 0, n);
  }

  /** No encoding is a proper prefix of another, and equal encodings mean equal trees up to string contents. */
  lemma PrefixFree(n: Node, m: Node, r: bytes, s: bytes)
    requires WellSized(n) && WellSized(m) && EncNode(n) + r == EncNode(m) + s
    ensures Norm(n) == Norm(m) && EncNode(n) == EncNode(m) && r == s
  {
    NodeRoundTrip(n, r);
    NodeRoundTrip(m, s);
    assert EncNode(n) == (EncNode(n) + r)[..|EncNode(n)|];
    assert EncNode(m) == (EncNode(m) + s)[..|EncNode(m)|];
    assert r == (EncNode(n) + r)[|EncNode(n)|..];
    assert s == (EncNode(m) + s)[|EncNode(m)|..];
  }

  lemma {:induction false} NormEncodesAlike(n: Node)
    ensures EncNode(Norm(n)) == EncNode(n)
    decreases n, 1
  {
    if n.content.Children? {
      NormAllEncodesAlike(n.content.nodes);
    }
  }

  lemma {:induction false} NormAllEncodesAlike(nodes: seq<Node>)
    ensures EncNodes(NormAll(nodes)) == EncNodes(nodes)
    decreases nodes, 1
  {
    if nodes != [] {
      NormEncodesAlike(nodes[0]);
      NormAllEncodesAlike(nodes[1..]);
      assert NormAll(nodes)[1..] == NormAll(nodes[1..]);
    }
  }

  /** Encoding what was decoded gives the same bytes. */
  lemma ReencodeDecoded(n: Node)
    requires WellSized(n)
    ensures ReadNode(EncNode(n), 0).Ok? && EncNode(ReadNode(EncNode(n), 0).value.0) == EncNode(n)
  {
    NodeRoundTrip(n, []);
    assert EncNode(n) + [] == EncNode(n);
    NormEncodesAlike(n);
  }

  // ----- whatever is read can be written again -----

  lemma {:induction false} UnpackLength(raw: bytes, size: nat, k: nat)
    requires k <= |raw|
    ensures |Unpack(raw, size, k)| <= 2 * (|raw| - k)
    decreases |raw| - k
  {
    if k < |raw| {
      UnpackLength(raw, size, k + 1);
    }
  }

  lemma DecimalLength(n: byte)
    ensures |Decimal(n)| <= 3
  {
    assert n / 10 / 10 < 10;
    assert |Decimal(n / 10)| <= 2;
  }

  /** A string is at most six times as long as the bytes it is read from; dictionary tokens reach that. */
  lemma {:induction false} StringLength(buf: bytes, i: nat)
    ensures ReadString(buf, i).Ok? ==> |ReadString(buf, i).value.0| <= 6 * (ReadString(buf, i).value.1 - i)
    decreases |buf| - i, 1
  {
    hide ReadToken;
    if i < |buf| {
      TokenLength(buf[i], buf, i + 1);
    }
  }

  lemma {:induction false} TokenLength(tag: byte, buf: bytes, i: nat)
    requires i <= |buf|
    ensures ReadToken(tag, buf, i).Ok? ==> |ReadToken(tag, buf, i).value.0| <= 6 * (ReadToken(tag, buf, i).value.1 - i) + 6
    decreases |buf| - i, 2
  {
    hide ReadString; hide ReadBlobLength; hide Unpack; hide Decimal;
    if tag == JID_PAIR {
      StringLength(buf, i);
      if ReadString(buf, i).Ok? {
        StringLength(buf, ReadString(buf, i).value.1);
      }
    } else if tag == NIBBLE_8 || tag == HEX_8 {
      if i < |buf| {
        var size: nat := buf[i];
        if i + 1 + (size + 1) / 2 <= |buf| {
          UnpackLength(buf[i + 1..i + 1 + (size + 1) / 2], size, 0);
        }
      }
    } else {
      DecimalLength(tag);
      if i < |buf| {
        DecimalLength(buf[i]);
      }
    }
  }

  lemma {:induction false} SetAttrKeeps(attrs: seq<Attr>, key: bytes, value: bytes)
    requires DistinctKeys(attrs) && GoodAttrs(attrs) && |key| < TWO32 && |value| < TWO32
    ensures DistinctKeys(SetAttr(attrs, key, value)) && GoodAttrs(SetAttr(attrs, key, value))
    ensures |SetAttr(attrs, key, value)| <= |attrs| + 1
    ensures forall b :: b in SetAttr(attrs, key, value) ==> b.key == key || exists a :: a in attrs && a.key == b.key
  {
    if attrs != [] && attrs[0].key != key {
      assert DistinctKeys(attrs[1..]);
      SetAttrKeeps(attrs[1..], key, value);
      var rest := SetAttr(attrs[1..], key, value);
      assert forall b :: b in rest ==> b.key != attrs[0].key;
    } else if attrs != [] {
      assert forall k :: 0 < k < |attrs| ==> SetAttr(attrs, key, value)[k] == attrs[k];
    }
  }

  lemma {:induction false} ReadAttrsGood(buf: bytes, i: nat, count: nat, attrs: seq<Attr>)
    requires i <= |buf| && 6 * |buf| < TWO32 && DistinctKeys(attrs) && GoodAttrs(attrs)
    ensures ReadAttrs(buf, i, count, attrs).Ok? ==>
      var got := ReadAttrs(buf, i, count, attrs).value.0;
      DistinctKeys(got) && GoodAttrs(got) && |got| <= |attrs| + count
    decreases count
  {
    hide ReadString; hide DistinctKeys; hide GoodAttrs; hide SetAttr;
    if count > 0 && ReadAttrs(buf, i, count, attrs).Ok? {
      var (key, j) := ReadString(buf, i).value;
      var (value, k) := ReadString(buf, j).value;
      StringLength(buf, i);
      StringLength(buf, j);
      SetAttrKeeps(attrs, key, value);
      ReadAttrsGood(buf, k, count - 1, SetAttr(attrs, key, value));
    }
  }

  /** Whatever tree comes out of a buffer, the wire form can carry it. */
  lemma {:induction false} ReadNodeWellSized(buf: bytes, i: nat)
    requires 6 * |buf| < TWO32
    ensures ReadNode(buf, i).Ok? ==> WellSized(ReadNode(buf, i).value.0)
    decreases |buf| - i, 0
  {
    hide ReadString; hide ReadAttrs; hide ReadContent; hide DistinctKeys;
    if ReadNode(buf, i).Ok? {
      var (size, i2) := ReadListSize(buf[i], buf, i + 1).value;
      ListSizeBounded(buf[i], buf, i + 1);
      if size == 0 {
        NoAttrs();
      } else {
        var (tag, i3) := ReadString(buf, i2).value;
        var (attrs, i4) := ReadAttrs(buf, i3, (size - 1) / 2, []).value;
        StringLength(buf, i2);
        NoAttrs();
        ReadAttrsGood(buf, i3, (size - 1) / 2, []);
        if size % 2 == 0 {
          ReadContentWellSized(buf, i4);
        }
      }
    }
  }

  lemma NoAttrs()
    ensures DistinctKeys([]) && GoodAttrs([])
  {
  }

  lemma ListSizeBounded(tag: byte, buf: bytes, i: nat)
    ensures ReadListSize(tag, buf, i).Ok? ==> ReadListSize(tag, buf, i).value.0 <= 65535
  {
  }

  lemma {:induction false} ReadContentWellSized(buf: bytes, i: nat)
    requires 6 * |buf| < TWO32
    ensures ReadContent(buf, i).Ok? ==> WellSizedContent(ReadContent(buf, i).value.0)
    decreases |buf| - i, 2
  {
    hide ReadNodes; hide ReadToken; hide ReadBlobLength;
    if ReadContent(buf, i).Ok? {
      if IsListTag(buf[i]) {
        ListSizeBounded(buf[i], buf, i + 1);
        var (count, k) := ReadListSize(buf[i], buf, i + 1).value;
        ReadNodesWellSized(buf, k, count);
        assert ReadContent(buf, i).value.0 == Children(ReadNodes(buf, k, count).value.0);
      } else if !IsBlobTag(buf[i]) {
        TokenLength(buf[i], buf, i + 1);
      }
    }
  }

  ghost predicate AllWellSized(nodes: seq<Node>) {
    forall k :: 0 <= k < |nodes| ==> WellSized(nodes[k])
  }

  lemma {:induction false} ReadNodesWellSized(buf: bytes, i: nat, count: nat)
    requires 6 * |buf| < TWO32
    ensures ReadNodes(buf, i, count).Ok? ==> AllWellSized(ReadNodes(buf, i, count).value.0)
    decreases |buf| - i, 1
  {
    hide ReadNode;
    if count > 0 && ReadNodes(buf, i, count).Ok? {
      var (n, j) := ReadNode(buf, i).value;
      var (rest, _) := ReadNodes(buf, j, count - 1).value;
      ReadNodeWellSized(buf, i);
      ReadNodesWellSized(buf, j, count - 1);
      assert ReadNodes(buf, i, count).value.0 == [n] + rest;
    }
  }

  /**
   Any bytes that decode, decode to a tree whose encoding decodes to the same tree again, up to
   string contents; encoding is thus a normal form of everything the decoder accepts.
   */
  lemma DecodedReencodes(buf: bytes, i: nat, rest: bytes)
    requires 6 * |buf| < TWO32 && ReadNode(buf, i).Ok?
    ensures
      var n := ReadNode(buf, i).value.0;
      ReadNode(EncNode(n) + rest, 0) == Ok((Norm(n), |EncNode(n)|)) && Norm(Norm(n)) == Norm(n)
  {
    hide ReadNode; hide EncNode; hide Norm; hide WellSized;
    var n := ReadNode(buf, i).value.0;
    ReadNodeWellSized(buf, i);
    NodeRoundTrip(n, rest);
    NormTwice(n);
  }

  lemma {:induction false} NormTwice(n: Node)
    ensures Norm(Norm(n)) == Norm(n)
    decreases n, 1
  {
    if n.content.Children? {
      NormAllTwice(n.content.nodes);
    }
  }

  lemma {:induction false} NormAllTwice(nodes: seq<Node>)
    ensures NormAll(NormAll(nodes)) == NormAll(nodes)
    decreases nodes, 1
  {
    if nodes != [] {
      NormTwice(nodes[0]);
      NormAllTwice(nodes[1..]);
      assert NormAll(nodes)[1..] == NormAll(nodes[1..]);
    }
  }
}

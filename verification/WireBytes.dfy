/**
 The wire formats byte by byte. Round trips hold under any consistent renaming of tags and field
 numbers; here every tag, number, width and order is written out.
 */
module WireBytes {
  import opened Prelude
  import SignalSession
  import SignalWire
  import Noise = NoiseHandshake
  import Transport = NoiseTransport
  import WaNoise
  import Protobuf
  import MC = MessageContent
  import WABinary
  import WABinaryLaws

  // ----- Signal envelope -----

  /** "KXS1", version 1, counter as four bytes, header key, ciphertext; and one zero byte in front of it all. */
  lemma EnvelopeLayout(m: SignalSession.Message)
    requires |m.ratchetPub| == 32
    ensures
      var b := SignalWire.Wrap(SignalWire.WireOf(m));
      && |b| == 42 + |m.ciphertext| && b[..6] == [0, 75, 88, 83, 49, 1]
      && b[6] == m.counter / 0x100_0000 % 0x100 && b[7] == m.counter / 0x1_0000 % 0x100
      && b[8] == m.counter / 0x100 % 0x100 && b[9] == m.counter % 0x100
      && b[10..42] == m.ratchetPub && b[42..] == m.ciphertext
  {
    var (w, counter) := (SignalWire.WireOf(m), BE32(m.counter));
    hide BE32;
    var b := [0] + w;
    assert b[..6] == [0, 75, 88, 83, 49, 1];
    assert b[6] == counter[0] && b[7] == counter[1] && b[8] == counter[2] && b[9] == counter[3];
    assert b[10..42] == m.ratchetPub && b[42..] == m.ciphertext;
    BE32Layout(m.counter);
  }

  lemma BE32Layout(v: nat)
    ensures BE32(v) == [v / 0x100_0000 % 0x100, v / 0x1_0000 % 0x100, v / 0x100 % 0x100, v % 0x100]
  {
  }

  /** Exactly which bytes are taken for an envelope, whatever their version; and what is read from them. */
  lemma EnvelopeReadExactly(buf: bytes)
    ensures SignalWire.DecodeSignalWire(buf).Ok?
      <==> |buf| >= 41 && buf[0] == 75 && buf[1] == 88 && buf[2] == 83 && buf[3] == 49
    ensures SignalWire.DecodeSignalWire(buf).Ok? ==>
      var m := SignalWire.DecodeSignalWire(buf).value;
      && m.counter == (buf[5] as int) * 0x100_0000 + (buf[6] as int) * 0x1_0000 + (buf[7] as int) * 0x100 + buf[8] as int
      && m.ratchetPub == buf[9..41] && m.ciphertext == buf[41..]
    ensures SignalWire.Unwrap(buf).Ok? <==> |buf| >= 2
    ensures |buf| >= 2 ==> SignalWire.Unwrap(buf).value == (buf[0], buf[1..])
  {
    if |buf| >= 41 {
      assert buf[..4] == [buf[0], buf[1], buf[2], buf[3]];
      assert SignalWire.MAGIC == [75, 88, 83, 49];
    }
  }

  // ----- frames and handshake messages -----

  /** Three bytes of length, most significant first, then the payload. */
  lemma FrameLayout(payload: bytes)
    requires |payload| <= 0xff_ffff
    ensures Transport.Frame(payload) == [|payload| / 0x1_0000, |payload| / 0x100 % 0x100, |payload| % 0x100] + payload
  {
  }

  /** A frame is there exactly if its three length bytes and as many bytes as they say are. */
  lemma FrameReadExactly(buf: bytes)
    ensures Transport.DecodeFrame(buf).Some?
      <==> |buf| >= 3 && |buf| >= 3 + (buf[0] as int) * 0x1_0000 + (buf[1] as int) * 0x100 + buf[2] as int
    ensures Transport.DecodeFrame(buf).Some? ==>
      var len := (buf[0] as int) * 0x1_0000 + (buf[1] as int) * 0x100 + buf[2] as int;
      Transport.DecodeFrame(buf).value == (buf[3..3 + len], buf[3 + len..])
  {
  }

  /** What a short length-delimited field looks like. */
  lemma ShortField(number: nat, data: bytes)
    requires 1 <= number < 16 && |data| < 0x80
    ensures Protobuf.EncodeBytes(number, data) == [8 * number + 2, |data|] + data
  {
    assert Protobuf.Tag(number, 2) == [8 * number + 2];
    assert Protobuf.Varint(|data|) == [|data|];
    assert [8 * number + 2] + [|data|] + data == [8 * number + 2, |data|] + data;
  }

  /** The whole first frame of a client: "WA", 6, 3, then the hello with its two keys. */
  lemma HelloLayout(ephemeral: bytes, staticKey: bytes)
    requires |ephemeral| == 32 && |staticKey| == 32
    ensures WaNoise.WA_HEADER + Transport.Frame(WaNoise.ClientHello(ephemeral, staticKey))
      == [87, 65, 6, 3, 0, 0, 70, 18, 68, 10, 32] + ephemeral + [18, 32] + staticKey
  {
    hide Protobuf.EncodeBytes;
    ShortField(1, ephemeral);
    ShortField(2, staticKey);
    var inner := [10, 32] + ephemeral + ([18, 32] + staticKey);
    ShortField(2, inner);
    var hello := [18, 68] + inner;
    assert WaNoise.ClientHello(ephemeral, staticKey) == hello;
    FrameLayout(hello);
    assert [87, 65, 6, 3] + ([0, 0, 70] + hello)
      == [87, 65, 6, 3, 0, 0, 70, 18, 68, 10, 32] + ephemeral + [18, 32] + staticKey;
  }

  /** With an empty static key the hello carries the ephemeral key alone. */
  lemma BareHelloLayout(ephemeral: bytes)
    requires |ephemeral| == 32
    ensures WaNoise.ClientHello(ephemeral, []) == [18, 34, 10, 32] + ephemeral
  {
    hide Protobuf.EncodeBytes;
    ShortField(1, ephemeral);
    var inner := [10, 32] + ephemeral;
    assert inner + [] == inner;
    ShortField(2, inner);
    assert [18, 34] + inner == [18, 34, 10, 32] + ephemeral;
  }

  /** A client finish with a short payload. */
  lemma FinishLayout(encStatic: bytes, encPayload: bytes)
    requires |encStatic| == 48 && 0 < |encPayload| < 76
    ensures WaNoise.ClientFinish(encStatic, encPayload)
      == [34, 52 + |encPayload|, 10, 48] + encStatic + [18, |encPayload|] + encPayload
  {
    hide Protobuf.EncodeBytes;
    ShortField(1, encStatic);
    ShortField(2, encPayload);
    var inner := [10, 48] + encStatic + ([18, |encPayload|] + encPayload);
    ShortField(4, inner);
    assert [34, 52 + |encPayload|] + inner
      == [34, 52 + |encPayload|, 10, 48] + encStatic + [18, |encPayload|] + encPayload;
  }

  /** A short server hello, as bytes, is understood as its three parts. */
  lemma ServerHelloLayout(ephemeral: bytes, encStatic: bytes, encPayload: bytes)
    requires |ephemeral| == 32 && |encStatic| == 48 && |encPayload| < 42
    ensures WaNoise.ParseServerHello(
        [26, 86 + |encPayload|, 10, 32] + ephemeral + [18, 48] + encStatic + [26, |encPayload|] + encPayload)
      == Ok(WaNoise.ServerHello(ephemeral, encStatic, encPayload))
  {
    hide Protobuf.EncodeBytes; hide WaNoise.ParseServerHello;
    var message := ephemeral + encStatic + encPayload;
    assert message[..32] == ephemeral && message[32..80] == encStatic && message[80..] == encPayload;
    WaNoise.ServerHelloRoundTrip(message);
    ShortField(1, ephemeral);
    ShortField(2, encStatic);
    ShortField(3, encPayload);
    var inner := [10, 32] + ephemeral + ([18, 48] + encStatic) + ([26, |encPayload|] + encPayload);
    ShortField(3, inner);
    assert [26, 86 + |encPayload|] + inner
      == [26, 86 + |encPayload|, 10, 32] + ephemeral + [18, 48] + encStatic + [26, |encPayload|] + encPayload;
  }

  /** Exactly which server hellos are accepted, by the fields found in them. */
  lemma ServerHelloExactly(payload: bytes)
    ensures WaNoise.ParseServerHello(payload).Ok? <==>
      && Protobuf.ReadFields(payload).Ok?
      && var outer := Protobuf.FieldBytes(Protobuf.ReadFields(payload).value, 3);
      && outer.Some? && Protobuf.ReadFields(outer.value).Ok?
      && var fields := Protobuf.ReadFields(outer.value).value;
      && var (e, s) := (Protobuf.FieldBytes(fields, 1), Protobuf.FieldBytes(fields, 2));
      e.Some? && |e.value| == 32 && s.Some? && |s.value| >= 32
  {
    hide Protobuf.ReadFields;
  }

  // ----- varints and fields -----

  lemma VarintStep(v: nat)
    ensures v < 0x80 ==> Protobuf.Varint(v) == [v]
    ensures v >= 0x80 ==> Protobuf.Varint(v) == [v % 0x80 + 0x80] + Protobuf.Varint(v / 0x80)
  {
  }

  /** Seven bits a byte, least significant first, the top bit on all but the last. */
  lemma VarintLayout(v: nat)
    ensures v < 0x80 ==> Protobuf.Varint(v) == [v]
    ensures 0x80 <= v < 0x4000 ==> Protobuf.Varint(v) == [v % 0x80 + 0x80, v / 0x80]
    ensures 0x4000 <= v < 0x20_0000 ==>
      Protobuf.Varint(v) == [v % 0x80 + 0x80, v / 0x80 % 0x80 + 0x80, v / 0x4000]
  {
    hide Protobuf.Varint;
    VarintStep(v);
    VarintStep(v / 0x80);
    VarintStep(v / 0x4000);
    assert v / 0x80 / 0x80 == v / 0x4000;
  }

  /** One field off the front of any bytes, for every wire type; eight and four byte values, slices cut at the end. */
  lemma FieldReadExactly(number: nat, wireType: nat, rest: bytes)
    requires number < 16 && wireType < 8
    ensures
      var r := Protobuf.ReadField([8 * number + wireType] + rest);
      && (wireType == 1 ==>
            r == Ok((Protobuf.Fixed64(number, rest[..Min(8, |rest|)]), rest[Min(8, |rest|)..])))
      && (wireType == 5 ==>
            r == Ok((Protobuf.Fixed32(number, rest[..Min(4, |rest|)]), rest[Min(4, |rest|)..])))
      && (wireType == 0 && rest != [] && rest[0] < 0x80 ==> r == Ok((Protobuf.VarintField(number, rest[0]), rest[1..])))
      && (wireType == 2 && rest != [] && rest[0] < 0x80 ==>
            var (len, data) := (rest[0], rest[1..]);
            r == Ok((Protobuf.BytesField(number, data[..Min(len, |data|)]), data[Min(len, |data|)..])))
      && (wireType in {3, 4, 6, 7} ==> r.Err?)
  {
    var tag: byte := 8 * number + wireType;
    OneByteVarint(tag, rest);
    if rest != [] && rest[0] < 0x80 {
      assert [rest[0]] + rest[1..] == rest;
      OneByteVarint(rest[0], rest[1..]);
      OneByteBig(rest);
    }
    hide Protobuf.ReadVarint; hide Protobuf.BigVarint;
    assert tag / 8 == number && tag % 8 == wireType;
  }

  lemma OneByteBig(rest: bytes)
    requires rest != [] && rest[0] < 0x80
    ensures Protobuf.BigVarint(rest) == (rest[0], rest[1..])
  {
  }

  lemma OneByteVarint(b: byte, rest: bytes)
    requires b < 0x80
    ensures Protobuf.ReadVarint([b] + rest) == Ok((b, rest))
  {
    assert ([b] + rest)[1..] == rest;
    assert b % 0x80 * 1 % 0x1_0000_0000 == b;
  }

  lemma SkipZeroByte(rest: bytes, shift: nat)
    requires shift <= 28
    ensures Protobuf.VarintFrom([0x80] + rest, shift, 0) == Protobuf.VarintFrom(rest, shift + 7, 0)
  {
    assert ([0x80] + rest)[1..] == rest;
  }

  /** Longer varints than any writer makes: a sixth byte counts from bit 3, a seventh is refused, bits above 32 are cut. */
  lemma OverlongVarints(b: byte)
    requires b < 0x80
    ensures Protobuf.ReadVarint([0x80, 0x80, 0x80, 0x80, 0x80, b]) == Ok((b * 8, []))
    ensures Protobuf.ReadVarint([0x80, 0x80, 0x80, 0x80, 0x80, b + 0x80]).Err?
    ensures Protobuf.ReadVarint([0x80, 0x80, 0x80, 0x80, b]) == Ok((b % 0x10 * 0x1000_0000, []))
    ensures Protobuf.ReadVarint([]) == Ok((0, []))
  {
    LastByteOfVarint(b);
    FourZeroBytes([b]);
    FourZeroBytes([0x80, b]);
    FourZeroBytes([0x80, b + 0x80]);
    SkipZeroByte([b], 28);
    SkipZeroByte([b + 0x80], 28);
    hide Protobuf.VarintFrom;
    assert [0x80] + [b] == [0x80, b] && [0x80] + [b + 0x80] == [0x80, b + 0x80];
    assert [0x80, 0x80, 0x80, 0x80] + [b] == [0x80, 0x80, 0x80, 0x80, b];
    assert [0x80, 0x80, 0x80, 0x80] + [0x80, b] == [0x80, 0x80, 0x80, 0x80, 0x80, b];
    assert [0x80, 0x80, 0x80, 0x80] + [0x80, b + 0x80] == [0x80, 0x80, 0x80, 0x80, 0x80, b + 0x80];
  }

  lemma FourZeroBytes(rest: bytes)
    ensures Protobuf.ReadVarint([0x80, 0x80, 0x80, 0x80] + rest) == Protobuf.VarintFrom(rest, 28, 0)
  {
    var (r1, r2, r3) := ([0x80] + rest, [0x80, 0x80] + rest, [0x80, 0x80, 0x80] + rest);
    SkipZeroByte(rest, 21);
    SkipZeroByte(r1, 14);
    SkipZeroByte(r2, 7);
    SkipZeroByte(r3, 0);
    hide Protobuf.VarintFrom;
    assert [0x80] + r1 == r2 && [0x80] + r2 == r3 && [0x80] + r3 == [0x80, 0x80, 0x80, 0x80] + rest;
  }

  lemma LastByteOfVarint(b: byte)
    requires b < 0x80
    ensures Protobuf.VarintFrom([b], 35, 0) == Ok((b * 8, []))
    ensures Protobuf.VarintFrom([b + 0x80], 35, 0).Err?
    ensures Protobuf.VarintFrom([b], 28, 0) == Ok((b % 0x10 * 0x1000_0000, []))
    ensures Protobuf.VarintFrom([], 0, 0) == Ok((0, []))
  {
    assert [b][1..] == [];
    assert b % 0x80 == b;
    assert b * 0x1000_0000 % 0x1_0000_0000 == b % 0x10 * 0x1000_0000;
  }

  /** A varint that the input breaks off counts as far as it goes, in both readers. */
  lemma BrokenOffVarints(b: byte, low: byte)
    requires b < 0x80 && low < 0x80
    ensures Protobuf.ReadVarint([b + 0x80]) == Ok((b, []))
    ensures Protobuf.BigVarint([b + 0x80]) == (b, [])
    ensures Protobuf.BigVarint([low + 0x80, b + 0x80]) == (low + 0x80 * b, [])
    ensures Protobuf.BigVarint([]) == (0, [])
  {
    assert [b + 0x80][1..] == [] && [low + 0x80, b + 0x80][1..] == [b + 0x80];
    assert (b + 0x80) % 0x80 == b && b * 1 % 0x1_0000_0000 == b;
    assert Protobuf.Placed(b + 0x80, 0) == b;
    var one: bytes := [b + 0x80];
    assert one[1..] == [];
    assert Protobuf.VarintFrom(one, 0, 0) == Protobuf.VarintFrom([], 7, Protobuf.Or(0, b)) == Ok((b, []));
  }

  // ----- message contents -----

  /** A plain text. */
  lemma TextLayout(text: bytes)
    requires 0 < |text| < 0x80
    ensures MC.EncodeContent(MC.Conversation(text)) == [10, |text|] + text
  {
    ShortField(1, text);
  }

  /** An extended text. */
  lemma ExtendedLayout(text: bytes)
    requires 0 < |text| < 0x7e
    ensures MC.EncodeContent(MC.Content(None, Some(text), None)) == [50, 2 + |text|, 10, |text|] + text
  {
    hide Protobuf.EncodeBytes;
    ShortField(1, text);
    ShortField(6, [10, |text|] + text);
    assert [50, 2 + |text|] + ([10, |text|] + text) == [50, 2 + |text|, 10, |text|] + text;
  }

  /** A reaction: address, sender flag and id of the message reacted to, then the text. */
  lemma ReactionLayout(jid: bytes, fromMe: bool, id: bytes, text: bytes)
    requires 0 < |jid| && 0 < |id| && |jid| + |id| + |text| < 110
    ensures
      var key := [10, |jid|] + jid + [16, if fromMe then 1 else 0] + [26, |id|] + id;
      var inner := [10, |key|] + key + [18, |text|] + text;
      MC.EncodeContent(MC.Content(None, None, Some(MC.Reaction(
          Some(MC.MessageKey(Some(jid), Some(fromMe), Some(id))), Some(text)))))
        == [242, 2, |inner|] + inner
  {
    hide Protobuf.EncodeBytes; hide Protobuf.EncodeVarint;
    ShortField(1, jid);
    ShortField(3, id);
    FlagLayout(fromMe);
    var flag: byte := if fromMe then 1 else 0;
    var key := [10, |jid|] + jid + [16, flag] + [26, |id|] + id;
    assert [10, |jid|] + jid + [16, flag] + ([26, |id|] + id) == key;
    ShortField(1, key);
    ShortField(2, text);
    var inner := [10, |key|] + key + [18, |text|] + text;
    assert [10, |key|] + key + ([18, |text|] + text) == inner;
    ReactionField(inner);
  }

  /** A key with nothing but an id. */
  lemma BareKeyLayout(id: bytes)
    requires 0 < |id| < 0x80
    ensures MC.EncodeReactionKey(MC.MessageKey(None, None, Some(id))) == [26, |id|] + id
  {
    hide Protobuf.EncodeBytes;
    ShortField(3, id);
    assert [] + [] + ([26, |id|] + id) == [26, |id|] + id;
  }

  lemma FlagLayout(fromMe: bool)
    ensures Protobuf.EncodeVarint(2, if fromMe then 1 else 0) == [16, if fromMe then 1 else 0]
  {
    assert Protobuf.Tag(2, 0) == [16];
  }

  lemma ReactionField(data: bytes)
    requires |data| < 0x80
    ensures Protobuf.EncodeBytes(46, data) == [242, 2, |data|] + data
  {
    VarintLayout(370);
    assert Protobuf.Tag(46, 2) == [242, 2];
    assert Protobuf.Varint(|data|) == [|data|];
    assert [242, 2] + [|data|] + data == [242, 2, |data|] + data;
  }

  /** Anything else is the legacy envelope of an empty text: "KXM1", type 1 and three zero bytes. */
  lemma EmptyLayout(text: bytes)
    ensures MC.EncodeContent(MC.Content(None, None, None)) == [75, 88, 77, 49, 1, 0, 0, 0]
    ensures MC.LegacyText(text) == [75, 88, 77, 49, 1, 0, 0, 0] + text
  {
    assert [75, 88, 77, 49] + [1, 0, 0, 0] + text == [75, 88, 77, 49, 1, 0, 0, 0] + text;
    assert [75, 88, 77, 49] + [1, 0, 0, 0] + [] == [75, 88, 77, 49, 1, 0, 0, 0];
  }

  /**
   Bytes that are no known message: a legacy envelope of type 1 gives its text, of another type nothing;
   other bytes are taken as a text if none of the first 32 is a control character.
   */
  lemma UnknownBytesExactly(buf: bytes)
    requires MC.DecodeProto(buf).Err?
    ensures
      var c := MC.DecodeContent(buf);
      var legacy := |buf| >= 8 && buf[0] == 75 && buf[1] == 88 && buf[2] == 77 && buf[3] == 49;
      var printable := |buf| > 0 && forall k :: 0 <= k < Min(32, |buf|) ==> 9 <= buf[k] <= 13 || 32 <= buf[k];
      c == if legacy && buf[4] == 1 then MC.Content(Some(buf[8..]), None, None)
           else if !legacy && printable then MC.Content(Some(buf), None, None)
           else MC.Content(None, None, None)
  {
    hide MC.DecodeProto;
    if |buf| >= 8 {
      assert buf[..4] == [buf[0], buf[1], buf[2], buf[3]];
      assert MC.LEGACY_MAGIC == [75, 88, 77, 49];
    }
    var head := Protobuf.Take(buf, 32);
    assert head == buf[..Min(32, |buf|)];
    assert (forall b :: b in head ==> !MC.IsControl(b)) <==> (forall k :: 0 <= k < |head| ==> !MC.IsControl(head[k]));
    assert forall k :: 0 <= k < |head| ==> head[k] == buf[k];
  }

  // ----- binary nodes -----

  /** Strings and binaries by length: tags 252, 253 and 254 with one, three and four bytes of length. */
  lemma BlobLayout(s: bytes)
    ensures |s| < 0x100 ==> WABinary.EncBlob(s) == [252, |s|] + s
    ensures 0x100 <= |s| < 0x10_0000 ==>
      WABinary.EncBlob(s) == [253, |s| / 0x1_0000, |s| / 0x100 % 0x100, |s| % 0x100] + s
    ensures 0x10_0000 <= |s| < 0x1_0000_0000 ==>
      WABinary.EncBlob(s) == [254, |s| / 0x100_0000, |s| / 0x1_0000 % 0x100, |s| / 0x100 % 0x100, |s| % 0x100] + s
  {
    var n := |s|;
    if n < 0x10_0000 {
      assert [253] + [n / 0x1_0000 % 0x10, n / 0x100 % 0x100, n % 0x100]
        == [253, n / 0x1_0000 % 0x10, n / 0x100 % 0x100, n % 0x100];
    } else {
      assert [254] + [n / 0x100_0000 % 0x100, n / 0x1_0000 % 0x100, n / 0x100 % 0x100, n % 0x100]
        == [254, n / 0x100_0000 % 0x100, n / 0x1_0000 % 0x100, n / 0x100 % 0x100, n % 0x100];
    }
  }

  /** Lists by size: tag 0 alone, 248 with one byte, 249 with two. */
  lemma ListLayout(n: nat)
    ensures n == 0 ==> WABinary.ListStart(n) == [0]
    ensures 0 < n < 0x100 ==> WABinary.ListStart(n) == [248, n]
    ensures 0x100 <= n < 0x1_0000 ==> WABinary.ListStart(n) == [249, n / 0x100, n % 0x100]
  {
    if n >= 0x100 {
      assert [249] + [n / 0x100 % 0x100, n % 0x100] == [249, n / 0x100 % 0x100, n % 0x100];
    }
  }

  /** Values with an at sign behind their first character and no space are pairs under tag 250, others strings. */
  lemma ValueLayout(v: bytes, k: nat)
    ensures 0 < k < |v| && v[k] == 64 && 64 !in v[..k] && 32 !in v ==>
      WABinary.EncValue(v) == [250] + WABinary.EncBlob(v[..k]) + WABinary.EncBlob(v[k + 1..])
    ensures 64 !in v || 32 in v || v[0] == 64 ==> WABinary.EncValue(v) == WABinary.EncBlob(v)
  {
    hide WABinary.EncBlob;
    var at := WABinary.Find(v, 64);
    if 0 < k < |v| && v[k] == 64 && 64 !in v[..k] {
      assert forall j :: 0 <= j < k ==> v[..k][j] == v[j];
      assert at == k;
    }
  }

  /** A node: the list of its tag, its attributes and its content, if it has any. */
  lemma NodeLayout(tag: bytes, key: bytes, value: bytes, data: bytes)
    ensures WABinary.EncNode(WABinary.Node(tag, [WABinary.Attr(key, value)], WABinary.Binary(data)))
      == [248, 4] + WABinary.EncBlob(tag) + WABinary.EncBlob(key) + WABinary.EncValue(value) + WABinary.EncBlob(data)
    ensures WABinary.EncNode(WABinary.Node(tag, [], WABinary.NoContent)) == [248, 1] + WABinary.EncBlob(tag)
    ensures WABinary.EncNode(WABinary.Node(tag, [], WABinary.Text(data)))
      == [248, 2] + WABinary.EncBlob(tag) + WABinary.EncBlob(data)
    ensures WABinary.EncNode(WABinary.Node(tag, [], WABinary.Children([]))) == [248, 2] + WABinary.EncBlob(tag) + [0]
  {
    hide WABinary.EncBlob; hide WABinary.EncValue; hide WABinary.ListStart;
    ListLayout(0);
    ListLayout(1);
    ListLayout(2);
    ListLayout(4);
    var attrs := [WABinary.Attr(key, value)];
    assert attrs[1..] == [] && WABinary.EncAttrs([]) == [];
    assert WABinary.EncAttrs(attrs) == WABinary.EncBlob(key) + WABinary.EncValue(value) + [];
    assert WABinary.EncNodes([]) == [];
    var t := WABinary.EncBlob(tag);
    assert [248, 4] + t + (WABinary.EncBlob(key) + WABinary.EncValue(value) + []) + WABinary.EncBlob(data)
      == [248, 4] + t + WABinary.EncBlob(key) + WABinary.EncValue(value) + WABinary.EncBlob(data);
    assert [248, 1] + t + [] + [] == [248, 1] + t;
    assert [248, 2] + t + [] + WABinary.EncBlob(data) == [248, 2] + t + WABinary.EncBlob(data);
    assert [248, 2] + t + [] + ([0] + []) == [248, 2] + t + [0];
  }

  /** Every list header that is read, and the tags that are none. */
  lemma ListReadExactly(tag: byte, buf: bytes, i: nat)
    requires i <= |buf|
    ensures
      var r := WABinary.ReadListSize(tag, buf, i);
      && (tag == 0 ==> r == Ok((0, i)))
      && (tag == 248 ==> if i < |buf| then r == Ok((buf[i], i + 1)) else r.Err?)
      && (tag == 249 ==> if i + 2 <= |buf| then r == Ok(((buf[i] as int) * 0x100 + buf[i + 1] as int, i + 2)) else r.Err?)
      && (tag !in {0, 248, 249} ==> r.Err?)
  {
  }

  /** The length in front of string or binary bytes, for each of its three tags. */
  function BlobLength(tag: byte, buf: bytes, i: nat): nat
    requires tag in {252, 253, 254} && i + LengthWidth(tag) <= |buf|
  {
    if tag == 252 then buf[i] as int
    else if tag == 253 then (buf[i] as int) % 0x10 * 0x1_0000 + (buf[i + 1] as int) * 0x100 + buf[i + 2] as int
    else (buf[i] as int) * 0x100_0000 + (buf[i + 1] as int) * 0x1_0000 + (buf[i + 2] as int) * 0x100 + buf[i + 3] as int
  }

  function LengthWidth(tag: byte): nat {
    if tag == 252 then 1 else if tag == 253 then 3 else 4
  }

  lemma BlobLengthExactly(tag: byte, buf: bytes, i: nat)
    requires tag in {252, 253, 254} && i <= |buf|
    ensures
      var r := WABinary.ReadBlobLength(tag, buf, i);
      if i + LengthWidth(tag) > |buf| then r.Err? else r == Ok((BlobLength(tag, buf, i), i + LengthWidth(tag)))
  {
  }

  /** A string or binary is read exactly if its length and as many bytes as that are there. */
  lemma BlobReadExactly(tag: byte, buf: bytes, i: nat)
    requires tag in {252, 253, 254} && i <= |buf|
    ensures
      var r := WABinary.ReadToken(tag, buf, i);
      var j := i + LengthWidth(tag);
      if j > |buf| || j + BlobLength(tag, buf, i) > |buf| then r.Err?
      else r == Ok((buf[j..j + BlobLength(tag, buf, i)], j + BlobLength(tag, buf, i)))
  {
    BlobLengthExactly(tag, buf, i);
    TokenIsBlob(tag, buf, i);
    hide WABinary.ReadBlobLength; hide BlobLength; hide WABinary.ReadToken;
    var j := i + LengthWidth(tag);
    if j <= |buf| {
      var n := BlobLength(tag, buf, i);
      assert WABinary.ReadBlob(tag, buf, i) == WABinary.ReadBytes(buf, j, n);
    }
  }

  lemma TokenIsBlob(tag: byte, buf: bytes, i: nat)
    requires tag in {252, 253, 254}
    ensures WABinary.ReadToken(tag, buf, i) == WABinary.ReadBlob(tag, buf, i)
  {
    hide WABinary.ReadString; hide WABinary.ReadBlob; hide WABinary.ReadPacked; hide WABinary.Decimal;
  }

  /** Numbers below a thousand in decimal digits. */
  lemma DecimalLayout(n: nat)
    requires n < 1000
    ensures WABinary.Decimal(n) ==
      if n < 10 then [48 + n] else if n < 100 then [48 + n / 10, 48 + n % 10] else [48 + n / 100, 48 + n / 10 % 10, 48 + n % 10]
  {
    if n >= 10 {
      var m := n / 10;
      assert WABinary.Decimal(n) == WABinary.Decimal(m) + [48 + n % 10];
      if m >= 10 {
        assert m / 10 == n / 100;
        assert WABinary.Decimal(m) == WABinary.Decimal(m / 10) + [48 + m % 10];
      }
    }
  }

  /** Every other string token: the empty string, pairs, decimal and dictionary tokens, and the tags that are none. */
  lemma TokenReadExactly(tag: byte, buf: bytes, i: nat)
    requires i <= |buf| && tag !in {251, 252, 253, 254, 255}
    ensures
      var r := WABinary.ReadToken(tag, buf, i);
      && (tag == 0 ==> r == Ok(([], i)))
      && (3 <= tag <= 235 ==> r == Ok((WABinary.Decimal(tag), i)))
      && (236 <= tag <= 239 ==>
            if i < |buf| then
              r == Ok(([100, 105, 99, 116, 58] + WABinary.Decimal(tag) + [58] + WABinary.Decimal(buf[i]), i + 1))
            else r.Err?)
      && (tag == 250 ==>
            var user := WABinary.ReadString(buf, i);
            var server := if user.Ok? then WABinary.ReadString(buf, user.value.1) else user;
            if server.Err? then r.Err?
            else
              var (u, s) := (user.value.0, server.value.0);
              r == Ok((if u == [] then s else u + [64] + s, server.value.1)))
      && (tag in {1, 2} || 240 <= tag <= 249 ==> r.Err?)
  {
    hide WABinary.ReadString; hide WABinary.Decimal;
    assert Ascii("dict:") == [100, 105, 99, 116, 58] && Ascii(":") == [58];
  }

  /** The sixteen digits of half bytes: '0' to '9', then 'A' to 'F'. */
  lemma HexDigits(d: nat)
    requires d < 16
    ensures WABinary.HexDigit(d) == [48, 49, 50, 51, 52, 53, 54, 55, 56, 57, 65, 66, 67, 68, 69, 70][d]
  {
  }

  /** Tags 251 and 255: a count, half as many bytes, and the digits of UnpackExactly. */
  lemma PackedReadExactly(tag: byte, buf: bytes, i: nat)
    requires tag in {251, 255} && i <= |buf|
    ensures
      var r := WABinary.ReadToken(tag, buf, i);
      if i >= |buf| then r.Err? else
        var size: nat := buf[i];
        var end := i + 1 + (size + 1) / 2;
        if end > |buf| then r.Err?
        else r == Ok((WABinaryLaws.HalfByteDigits(buf[i + 1..end], size, 0), end))
  {
    hide WABinary.Unpack; hide WABinaryLaws.HalfByteDigits;
    if i < |buf| {
      var size: nat := buf[i];
      if i + 1 + (size + 1) / 2 <= |buf| {
        WABinaryLaws.UnpackExactly(buf[i + 1..i + 1 + (size + 1) / 2], size, 0);
      }
    }
  }

  /** An empty list stands for an empty node, whatever follows. */
  lemma EmptyNodeRead(rest: bytes)
    ensures WABinary.ReadNode([0] + rest, 0) == Ok((WABinary.Node([], [], WABinary.NoContent), 1))
    ensures WABinary.ReadNode([248, 0] + rest, 0) == Ok((WABinary.Node([], [], WABinary.NoContent), 2))
  {
  }

  /** Contents by their first byte: lists of nodes, bytes, and everything else text. */
  lemma ContentReadExactly(buf: bytes, i: nat)
    requires i < |buf|
    ensures
      var r := WABinary.ReadContent(buf, i);
      && (buf[i] in {252, 253, 254} && r.Ok? ==> r.value.0.Binary?)
      && (buf[i] in {252, 253, 254} ==> r.Ok? == WABinary.ReadToken(buf[i], buf, i + 1).Ok?)
      && (buf[i] in {252, 253, 254} && r.Ok? ==>
            (r.value.0.data, r.value.1) == WABinary.ReadToken(buf[i], buf, i + 1).value)
      && (buf[i] in {0, 248, 249} && r.Ok? ==> r.value.0.Children?)
      && (buf[i] == 0 ==> r == Ok((WABinary.Children([]), i + 1)))
      && (buf[i] !in {0, 248, 249, 252, 253, 254} ==> r.Ok? == WABinary.ReadToken(buf[i], buf, i + 1).Ok?)
      && (buf[i] !in {0, 248, 249, 252, 253, 254} && r.Ok? ==>
            r.value.0.Text? && (r.value.0.text, r.value.1) == WABinary.ReadToken(buf[i], buf, i + 1).value)
  {
    hide WABinary.ReadBlobLength; hide WABinary.ReadString; hide WABinary.ReadPacked; hide WABinary.Decimal; hide WABinary.ReadNode;
  }

  /** Setting an attribute: one value per key, the last one, at the place of the first. */
  lemma {:induction false} SetAttrExactly(attrs: seq<WABinary.Attr>, key: bytes, value: bytes)
    requires WABinaryLaws.DistinctKeys(attrs)
    ensures
      var t := WABinary.SetAttr(attrs, key, value);
      var known := exists k :: 0 <= k < |attrs| && attrs[k].key == key;
      && |t| == |attrs| + (if known then 0 else 1)
      && (forall k :: 0 <= k < |attrs| ==> t[k] == if attrs[k].key == key then WABinary.Attr(key, value) else attrs[k])
      && (!known ==> t[|attrs|] == WABinary.Attr(key, value))
  {
    if attrs != [] {
      var rest := attrs[1..];
      assert WABinaryLaws.DistinctKeys(rest);
      assert forall k :: 0 < k < |attrs| ==> attrs[k] == rest[k - 1];
      if attrs[0].key != key {
        SetAttrExactly(rest, key, value);
        assert (exists k :: 0 <= k < |attrs| && attrs[k].key == key) <==> (exists k :: 0 <= k < |rest| && rest[k].key == key) by {
          assert forall k :: 0 <= k < |rest| ==> rest[k] == attrs[k + 1];
        }
      } else {
        assert forall k :: 0 < k < |attrs| ==> attrs[k].key != attrs[0].key;
      }
    }
  }
}

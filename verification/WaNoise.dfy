/** The handshake as it goes over the wire: HandshakeMessage protobufs inside length-prefixed frames. */
module WaNoise {
  import opened Prelude
  import opened Crypto
  import opened NoiseHandshake
  import opened NoiseTransport
  import Protobuf

  /** "WA", protocol major version, dictionary version. */
  const WA_HEADER: bytes := [87, 65, 6, 3]

  // Field numbers of HandshakeMessage.
  const CLIENT_HELLO := 2
  const SERVER_HELLO := 3
  const CLIENT_FINISH := 4

  // ----- messages -----

  /** Empty optional parts are left out. */
  function OptionalField(number: nat, data: bytes): bytes {
    if data == [] then [] else Protobuf.EncodeBytes(number, data)
  }

  /** A submessage with fields 1 and 2, as both client messages are. */
  function Pair(number: nat, x: bytes, y: bytes): bytes {
    Protobuf.EncodeBytes(number, Protobuf.EncodeBytes(1, x) + OptionalField(2, y))
  }

  function ClientHello(ephemeral: bytes, staticKey: bytes): bytes {
    Pair(CLIENT_HELLO, ephemeral, staticKey)
  }

  function ClientFinish(encStatic: bytes, encPayload: bytes): bytes {
    Pair(CLIENT_FINISH, encStatic, encPayload)
  }

  datatype ServerHello = ServerHello(ephemeral: bytes, staticKey: bytes, payload: bytes)

  function ParseServerHello(payload: bytes): Result<ServerHello> {
    var top :- Protobuf.ReadFields(payload);
    match Protobuf.FieldBytes(top, SERVER_HELLO)
    case None => Err("missing HandshakeMessage.serverHello")
    case Some(inner) =>
      var fields :- Protobuf.ReadFields(inner);
      var (ephemeral, staticKey) := (Protobuf.FieldBytes(fields, 1), Protobuf.FieldBytes(fields, 2));
      var cert := Protobuf.FieldBytes(fields, 3);
      if ephemeral.None? || |ephemeral.value| != DH_LEN then Err("serverHello.ephemeral missing or invalid length")
      else if staticKey.None? || |staticKey.value| < DH_LEN then Err("serverHello.static missing or too short")
      else Ok(ServerHello(ephemeral.value, staticKey.value, if cert.Some? then cert.value else []))
  }

  // ----- the client -----

  /** State and first frame of a client; its static key is mixed in before message 1. */
  function ClientStart(c: Primitives, staticPair: KeyPair, ephemeral: KeyPair, prologue: bytes): (State, bytes) {
    var s0 := MixHash(c, Start(c, Initiator, staticPair, ephemeral, prologue), staticPair.pub);
    var (s1, m) := WriteMessage1(c, s0);
    (s1, WA_HEADER + Frame(ClientHello(ephemeral.pub, staticPair.pub)))
  }

  datatype Finish = Finish(frame: bytes, keys: TransportKeys, serverPayload: bytes)

  function ClientContinue(c: Primitives, s: State, serverFrame: bytes, finishPayload: bytes): (State, Result<Finish>) {
    match ParseServerHello(serverFrame)
    case Err(e) => (s, Err(e))
    case Ok(sh) =>
      var (s1, got) := ReadMessageA(c, s, sh.ephemeral + sh.staticKey + sh.payload);
      if got.Err? then (s1, Err(got.error)) else
      var (s2, mB) := WriteMessageB(c, s1, finishPayload);
      if mB.Err? then (s2, Err(mB.error)) else
      var proto := ClientFinish(Protobuf.Take(mB.value, STATIC_LEN), Protobuf.Drop(mB.value, STATIC_LEN));
      match Split(c, s2)
      case Err(e) => (s2, Err(e))
      case Ok(keys) =>
        if |proto| > MAX_FRAME then (s2, Err("payload too large"))
        else (s2, Ok(Finish(Frame(proto), keys, got.value)))
  }

  /** The hash and chaining key of a client after its first message, as a server must reproduce them. */
  lemma ClientHashSequence(c: Primitives, staticPair: KeyPair, ephemeral: KeyPair)
    ensures
      var (s, frame) := ClientStart(c, staticPair, ephemeral, WA_HEADER);
      var h0 := Ascii("Noise_XX_25519_AESGCM_SHA256") + [0, 0, 0, 0];
      && s.ck == h0 && s.step == 1
      && s.h == c.sha256(c.sha256(c.sha256(h0 + WA_HEADER) + staticPair.pub) + ephemeral.pub)
      && WA_HEADER <= frame
  {
    assert Zeros(4) == [0, 0, 0, 0];
  }

  /** Keys of any length are taken; only a hello too large for a frame fails. */
  method StartWaNoiseHandshake(c: Primitives, staticPair: KeyPair, ephemeral: KeyPair, prologue: bytes)
    returns (state: Handshake, r: Result<bytes>)
    ensures fresh(state)
    ensures state.View() == ClientStart(c, staticPair, ephemeral, prologue).0
    ensures r.Ok? <==> |ClientHello(ephemeral.pub, staticPair.pub)| <= MAX_FRAME
    ensures r.Ok? ==> r.value == ClientStart(c, staticPair, ephemeral, prologue).1
  {
    state := new Handshake(c, Initiator, staticPair, ephemeral, prologue);
    state.DoMixHash(c, staticPair.pub);
    var m := state.DoWriteMessage1(c);
    var body := EncodeFrame(ClientHello(m.value, staticPair.pub));
    if body.Err? {
      return state, body;
    }
    return state, Ok(WA_HEADER + body.value);
  }

  lemma {:induction false} VarintLength(v: nat)
    requires v < Protobuf.TWO32
    ensures |Protobuf.Varint(v)|
      == if v < 0x80 then 1 else if v < 0x4000 then 2 else if v < 0x20_0000 then 3 else if v < 0x1000_0000 then 4 else 5
  {
    if v >= 0x80 {
      assert |Protobuf.Varint(v)| == 1 + |Protobuf.Varint(v / 0x80)|;
      if v / 0x80 >= 0x80 {
        assert |Protobuf.Varint(v / 0x80)| == 1 + |Protobuf.Varint(v / 0x4000)|;
        if v / 0x4000 >= 0x80 {
          assert |Protobuf.Varint(v / 0x4000)| == 1 + |Protobuf.Varint(v / 0x20_0000)|;
          if v / 0x20_0000 >= 0x80 {
            assert |Protobuf.Varint(v / 0x20_0000)| == 1 + |Protobuf.Varint(v / 0x1000_0000)|;
          }
        }
      }
    }
  }

  /** A hello with keys of the usual length always fits. */
  lemma HelloFits(ephemeral: bytes, staticKey: bytes)
    requires |ephemeral| == DH_LEN && |staticKey| == DH_LEN
    ensures |ClientHello(ephemeral, staticKey)| <= MAX_FRAME
  {
    hide Protobuf.EncodeBytes;
    EncodedLength(1, ephemeral);
    EncodedLength(2, staticKey);
    EncodedLength(CLIENT_HELLO, Protobuf.EncodeBytes(1, ephemeral) + OptionalField(2, staticKey));
  }

  /** The largest finish message that fits: its second part may have up to MAX_FRAME - 60 bytes. */
  lemma FinishFitsExactly(encStatic: bytes, encPayload: bytes)
    requires |encStatic| == STATIC_LEN && encPayload != []
    ensures |ClientFinish(encStatic, encPayload)| <= MAX_FRAME <==> |encPayload| <= MAX_FRAME - 60
  {
    hide Protobuf.EncodeBytes;
    EncodedLength(1, encStatic);
    var inner := Protobuf.EncodeBytes(1, encStatic) + Protobuf.EncodeBytes(2, encPayload);
    if |encPayload| <= MAX_FRAME {
      EncodedLength(2, encPayload);
      EncodedLength(CLIENT_FINISH, inner);
    } else {
      EncodedLonger(2, encPayload);
      EncodedLonger(CLIENT_FINISH, inner);
    }
  }

  /** The rest of the client's handshake; a finish message too large for a frame fails at the very end. */
  method ContinueWaNoiseHandshake(c: Primitives, state: Handshake, serverFrame: bytes, finishPayload: bytes)
    returns (r: Result<Finish>)
    modifies state
    ensures state.View() == ClientContinue(c, old(state.View()), serverFrame, finishPayload).0
    ensures r.Ok? == ClientContinue(c, old(state.View()), serverFrame, finishPayload).1.Ok?
    ensures r.Ok? ==> r == ClientContinue(c, old(state.View()), serverFrame, finishPayload).1
  {
    hide MixDh; hide EncryptAndHash; hide ReadMessageA; hide WriteMessageB; hide ParseServerHello; hide ClientFinish;
    var parsed := ParseServerHello(serverFrame);
    if parsed.Err? {
      return Err(parsed.error);
    }
    var sh := parsed.value;
    var got := state.DoReadMessageA(c, sh.ephemeral + sh.staticKey + sh.payload);
    if got.Err? {
      return Err(got.error);
    }
    var mB := state.DoWriteMessageB(c, finishPayload);
    if mB.Err? {
      return Err(mB.error);
    }
    var proto := ClientFinish(Protobuf.Take(mB.value, STATIC_LEN), Protobuf.Drop(mB.value, STATIC_LEN));
    if state.step != 3 {
      return Err("handshake incomplete");
    }
    var (k1, k2) := Derive2(c, state.ck, []);
    var keys := if state.role == Initiator
      then TransportKeys(k1, k2, 0, 0, state.remoteStatic, state.h)
      else TransportKeys(k2, k1, 0, 0, state.remoteStatic, state.h);
    var frame := EncodeFrame(proto);
    if frame.Err? {
      return Err(frame.error);
    }
    return Ok(Finish(frame.value, keys, got.value));
  }

  // ----- the server at the other end -----

  function ServerHelloBytes(messageA: bytes): bytes
    requires |messageA| >= DH_LEN + STATIC_LEN
  {
    Protobuf.EncodeBytes(SERVER_HELLO,
      Protobuf.EncodeBytes(1, messageA[..DH_LEN])
      + Protobuf.EncodeBytes(2, messageA[DH_LEN..DH_LEN + STATIC_LEN])
      + Protobuf.EncodeBytes(3, messageA[DH_LEN + STATIC_LEN..]))
  }

  /** Fields 1 and 2 of the submessage with the given number inside the first frame of a buffer. */
  function ReadPair(buf: bytes, number: nat): Option<(bytes, bytes)> {
    match DecodeFrame(buf)
    case None => None
    case Some((payload, _)) =>
      match Protobuf.ReadFields(payload)
      case Err(_) => None
      case Ok(top) =>
        match Protobuf.FieldBytes(top, number)
        case None => None
        case Some(inner) =>
          match Protobuf.ReadFields(inner)
          case Err(_) => None
          case Ok(fields) =>
            match (Protobuf.FieldBytes(fields, 1), Protobuf.FieldBytes(fields, 2))
            case (Some(x), Some(y)) => Some((x, y))
            case _ => None
  }

  // ----- agreement through the wire form -----

  lemma EncodedLength(n: nat, d: bytes)
    requires n < 16 && |d| < Protobuf.TWO32
    ensures |Protobuf.EncodeBytes(n, d)| == 1 + |Protobuf.Varint(|d|)| + |d|
    ensures |Protobuf.Varint(|d|)|
      == if |d| < 0x80 then 1 else if |d| < 0x4000 then 2 else if |d| < 0x20_0000 then 3 else if |d| < 0x1000_0000 then 4 else 5
  {
    VarintLength(n * 8 + 2);
    VarintLength(|d|);
  }

  lemma EncodedLonger(n: nat, d: bytes)
    ensures |d| < |Protobuf.EncodeBytes(n, d)|
  {
  }

  /** Both client messages come back from their frame, whatever follows it. */
  lemma PairRoundTrip(number: nat, x: bytes, y: bytes, rest: bytes)
    requires 1 <= number < 16 && y != [] && |Pair(number, x, y)| <= MAX_FRAME
    ensures ReadPair(Frame(Pair(number, x, y)) + rest, number) == Some((x, y))
  {
    hide DecodeFrame; hide Protobuf.EncodeBytes; hide Protobuf.ReadFields;
    var inner := Protobuf.EncodeBytes(1, x) + Protobuf.EncodeBytes(2, y);
    EncodedLonger(1, x);
    EncodedLonger(2, y);
    EncodedLonger(number, inner);
    DecodeEncodedFrame(Pair(number, x, y), rest);
    Protobuf.ParseOne(number, inner);
    Protobuf.ParseTwo(1, x, 2, y);
  }

  lemma ServerHelloRoundTrip(messageA: bytes)
    requires DH_LEN + STATIC_LEN <= |messageA| < Protobuf.TWO32 - 30
    ensures ParseServerHello(ServerHelloBytes(messageA)) == Ok(ServerHello(
      messageA[..DH_LEN], messageA[DH_LEN..DH_LEN + STATIC_LEN], messageA[DH_LEN + STATIC_LEN..]))
  {
    hide Protobuf.EncodeBytes; hide Protobuf.ReadFields;
    var (e, s, p) := (messageA[..DH_LEN], messageA[DH_LEN..DH_LEN + STATIC_LEN], messageA[DH_LEN + STATIC_LEN..]);
    var inner := Protobuf.EncodeBytes(1, e) + Protobuf.EncodeBytes(2, s) + Protobuf.EncodeBytes(3, p);
    EncodedLength(1, e);
    EncodedLength(2, s);
    EncodedLength(3, p);
    Protobuf.ParseOne(SERVER_HELLO, inner);
    Protobuf.ParseThree(1, e, 2, s, 3, p);
  }

  datatype WaOutcome = WaOutcome(
    client: State, server: State, clientKeys: TransportKeys, serverKeys: TransportKeys,
    serverPayload: bytes, clientPayload: bytes)

  datatype Parties = Parties(
    clientStatic: KeyPair, clientEphemeral: KeyPair, serverStatic: KeyPair, serverEphemeral: KeyPair, prologue: bytes)

  ghost predicate GoodParties(c: Primitives, p: Parties) {
    && GoodKey(c, p.clientStatic) && GoodKey(c, p.clientEphemeral)
    && GoodKey(c, p.serverStatic) && GoodKey(c, p.serverEphemeral)
  }

  /** The server after the client's first frame: both keys come from the wire. */
  function ServerAccept(c: Primitives, p: Parties, firstFrame: bytes): Option<State> {
    if |firstFrame| < |WA_HEADER| then None else
    match ReadPair(firstFrame[|WA_HEADER|..], CLIENT_HELLO)
    case None => None
    case Some((ephemeral, staticKey)) =>
      var s0 := MixHash(c, Start(c, Responder, p.serverStatic, p.serverEphemeral, p.prologue), staticKey);
      var (s1, got) := ReadMessage1(c, s0, ephemeral);
      if got.Err? then None else Some(s1)
  }

  /** Hello, server hello and finish, each in its wire form. */
  function WaRun(c: Primitives, p: Parties, certificate: bytes, finishPayload: bytes): Option<WaOutcome> {
    var (c1, firstFrame) := ClientStart(c, p.clientStatic, p.clientEphemeral, p.prologue);
    match ServerAccept(c, p, firstFrame)
    case None => None
    case Some(s1) =>
      var (s2, mA) := WriteMessageA(c, s1, certificate);
      if mA.Err? || |mA.value| < DH_LEN + STATIC_LEN then None else
      var (c2, fin) := ClientContinue(c, c1, ServerHelloBytes(mA.value), finishPayload);
      if fin.Err? then None else
      match ReadPair(fin.value.frame, CLIENT_FINISH)
      case None => None
      case Some((encStatic, encPayload)) =>
        var (s3, gotB) := ReadMessageB(c, s2, encStatic + encPayload);
        if gotB.Err? || Split(c, s3).Err? then None else
        Some(WaOutcome(c2, s3, fin.value.keys, Split(c, s3).value, fin.value.serverPayload, gotB.value))
  }

  lemma HelloArrives(c: Primitives, p: Parties)
    requires Lawful(c) && GoodParties(c, p)
    ensures
      var (c1, firstFrame) := ClientStart(c, p.clientStatic, p.clientEphemeral, p.prologue);
      var s1 := ServerAccept(c, p, firstFrame);
      && s1.Some? && Synced(c1, s1.value) && c1.step == 1 && s1.value.step == 1
      && c1.role == Initiator && s1.value.role == Responder
      && c1.ephemeral == p.clientEphemeral && c1.staticPair == p.clientStatic
      && s1.value.ephemeral == p.serverEphemeral && s1.value.staticPair == p.serverStatic
      && s1.value.remoteEphemeral == Some(p.clientEphemeral.pub)
  {
    hide ReadPair; hide Protobuf.EncodeBytes;
    var firstFrame := ClientStart(c, p.clientStatic, p.clientEphemeral, p.prologue).1;
    var hello := ClientHello(p.clientEphemeral.pub, p.clientStatic.pub);
    HelloFits(p.clientEphemeral.pub, p.clientStatic.pub);
    PairRoundTrip(CLIENT_HELLO, p.clientEphemeral.pub, p.clientStatic.pub, []);
    assert firstFrame[|WA_HEADER|..] == Frame(hello) + [];
    StartsReady(c, p.clientStatic, p.clientEphemeral, p.serverStatic, p.serverEphemeral, p.prologue);
    Message1Agrees(c,
      MixHash(c, Start(c, Initiator, p.clientStatic, p.clientEphemeral, p.prologue), p.clientStatic.pub),
      MixHash(c, Start(c, Responder, p.serverStatic, p.serverEphemeral, p.prologue), p.clientStatic.pub));
  }

  /**
   Agreement of client and server through the protobuf messages. The handshake completes exactly when
   the finish message fits a frame, and then: equal hashes and chaining keys, each side knows the
   other's static key and payload, and the transport keys are swapped.
   */
  lemma WaAgreement(c: Primitives, p: Parties, certificate: bytes, finishPayload: bytes)
    requires Lawful(c) && GoodParties(c, p)
    requires |certificate| < Protobuf.TWO32 - 200
    ensures WaRun(c, p, certificate, finishPayload).Some? <==> |finishPayload| <= MAX_FRAME - 76
    ensures
      var o := WaRun(c, p, certificate, finishPayload);
      o.Some? ==>
      && o.value.client.h == o.value.server.h && o.value.client.ck == o.value.server.ck
      && o.value.clientKeys.remoteStatic == Some(p.serverStatic.pub)
      && o.value.serverKeys.remoteStatic == Some(p.clientStatic.pub)
      && o.value.serverPayload == certificate && o.value.clientPayload == finishPayload
      && o.value.clientKeys.sendKey == o.value.serverKeys.recvKey
      && o.value.clientKeys.recvKey == o.value.serverKeys.sendKey
      && KeysInOrder(c, o.value.client.ck, o.value.clientKeys, o.value.serverKeys)
      && o.value.clientKeys.writeNonce == o.value.serverKeys.readNonce == 0
      && o.value.clientKeys.readNonce == o.value.serverKeys.writeNonce == 0
  {
    hide ReadPair; hide Protobuf.EncodeBytes; hide ReadMessageA; hide WriteMessageA; hide ReadMessageB;
    hide WriteMessageB; hide ParseServerHello; hide ServerAccept; hide ClientStart; hide Frame; hide Derive2;
    HelloArrives(c, p);
    var (c1, firstFrame) := ClientStart(c, p.clientStatic, p.clientEphemeral, p.prologue);
    var s1 := ServerAccept(c, p, firstFrame).value;
    MessageAAgrees(c, c1, s1, certificate);
    var (s2, mA) := WriteMessageA(c, s1, certificate);
    var m := mA.value;
    ServerHelloRoundTrip(m);
    assert m[..DH_LEN] + m[DH_LEN..DH_LEN + STATIC_LEN] + m[DH_LEN + STATIC_LEN..] == m;
    var c2 := ReadMessageA(c, c1, m).0;
    MessageBAgrees(c, c2, s2, finishPayload);
    var (c3, mB) := WriteMessageB(c, c2, finishPayload);
    var (x, y) := (mB.value[..STATIC_LEN], mB.value[STATIC_LEN..]);
    assert x + y == mB.value;
    MessageBKeepsKey(c, c2, finishPayload);
    SplitInOrder(c, c3, ReadMessageB(c, s2, mB.value).0);
    hide KeysInOrder;
    FinishFitsExactly(x, y);
    if |finishPayload| <= MAX_FRAME - 76 {
      PairRoundTrip(CLIENT_FINISH, x, y, []);
      assert Frame(ClientFinish(x, y)) + [] == Frame(ClientFinish(x, y));
    }
  }
}

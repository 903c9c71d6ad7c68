/**
 The message engine's path: content to protobuf, optionally a Signal envelope, a message node,
 a sealed frame; and back through frames, node, envelope and protobuf to the same content.
 */
module Pipeline {
  import opened Prelude
  import opened Crypto
  import opened SignalSession
  import opened SignalRuns
  import opened SignalWire
  import MC = MessageContent
  import Protobuf
  import opened WABinary
  import opened WABinaryLaws
  import opened NoiseTransport
  import NoiseHandshake
  import WaNoise

  const TAG_MESSAGE: bytes := [109, 101, 115, 115, 97, 103, 101] // "message"
  const ATTR_TO: bytes := [116, 111]
  const ATTR_ID: bytes := [105, 100]
  const ATTR_TYPE: bytes := [116, 121, 112, 101]
  const ATTR_PARTICIPANT: bytes := [112, 97, 114, 116, 105, 99, 105, 112, 97, 110, 116]
  const ATTR_FROM: bytes := [102, 114, 111, 109]
  const ATTR_FROM_ME: bytes := [102, 114, 111, 109, 77, 101]
  const TRUE_TEXT: bytes := [116, 114, 117, 101]
  const TYPE_TEXT: bytes := [116, 101, 120, 116]
  const TAG_BODY: bytes := [98, 111, 100, 121]

  datatype Address = Address(to: bytes, id: bytes, participant: Option<bytes>)

  // ----- outbound -----

  function MessageNode(a: Address, body: bytes): Node {
    var base := [Attr(ATTR_TO, a.to), Attr(ATTR_ID, a.id), Attr(ATTR_TYPE, TYPE_TEXT)];
    Node(TAG_MESSAGE,
      if MC.Truthy(a.participant) then base + [Attr(ATTR_PARTICIPANT, a.participant.value)] else base,
      Binary(body))
  }

  /** The session after the body was made, and the encoded node; without a session the body is the plain content. */
  method BuildOutboundFrame(
      c: Primitives, a: Address, content: MC.Content, session: Option<Session>, iv: bytes)
    returns (next: Option<Session>, r: Result<bytes>)
    requires Lawful(c)
    ensures session.None? ==> next == None && r == Ok(EncNode(MessageNode(a, MC.EncodeContent(content))))
    ensures session.Some? ==>
      var (s, m) := Encrypt(c, session.value, iv, MC.EncodeContent(content));
      && next == Some(s)
      && (r.Ok? <==> |m.ratchetPub| == PUB_LEN)
      && (r.Ok? ==> r.value == EncNode(MessageNode(a, Wrap(WireOf(m)))))
  {
    next := session;
    var body := MC.EncodeContent(content);
    if session.Some? {
      var (s, m) := Encrypt(c, session.value, iv, body);
      next := Some(s);
      var wire := EncodeSignalWire(m);
      if wire.Err? {
        return next, Err(wire.error);
      }
      body := Wrap(wire.value);
    }
    var encoded := EncodeBinaryNode(MessageNode(a, body));
    return next, Ok(encoded);
  }

  // ----- inbound -----

  /** Does a body look like a wrapped Signal envelope? */
  predicate LooksWrapped(body: bytes) {
    |body| > 5 && body[1..5] == MAGIC
  }

  datatype Delivery = Delivery(
    remoteJid: bytes, id: bytes, fromMe: bool, participant: Option<bytes>, content: MC.Content, session: Option<Session>)

  /** The value of an attribute, absent when there is none. */
  function GetAttr(attrs: seq<Attr>, key: bytes): Option<bytes> {
    if attrs == [] then None else if attrs[0].key == key then Some(attrs[0].value) else GetAttr(attrs[1..], key)
  }

  function TextOr(s: Option<bytes>, default: bytes): bytes {
    if MC.Truthy(s) then s.value else default
  }

  /** Who a message is from (or, failing that, to), its id, its sender flag and its participant, around its content. */
  function Deliver(n: Node, content: MC.Content, session: Option<Session>): Delivery {
    Delivery(
      TextOr(GetAttr(n.attrs, ATTR_FROM), TextOr(GetAttr(n.attrs, ATTR_TO), [])),
      TextOr(GetAttr(n.attrs, ATTR_ID), []), GetAttr(n.attrs, ATTR_FROM_ME) == Some(TRUE_TEXT),
      GetAttr(n.attrs, ATTR_PARTICIPANT), content, session)
  }

  function FindChild(nodes: seq<Node>, tag: bytes): Option<Node> {
    if nodes == [] then None else if nodes[0].tag == tag then Some(nodes[0]) else FindChild(nodes[1..], tag)
  }

  /** Contents that are not bytes: text as it stands, or the text of a body child. */
  function OtherContent(content: Content): MC.Content {
    match content
    case Text(t) => MC.Conversation(t)
    case Children(nodes) =>
      (match FindChild(nodes, TAG_BODY)
       case Some(Node(_, _, Text(t))) => MC.Conversation(t)
       case _ => MC.NOTHING)
    case _ => MC.NOTHING
  }

  function DecryptBody(c: Primitives, body: bytes, s: Session): Result<(MC.Content, Session)>
    requires Lawful(c)
  {
    var (kind, wire) :- Unwrap(body);
    var m :- DecodeSignalWire(wire);
    var (next, plaintext) :- Decrypt(c, s, m);
    Ok((MC.DecodeContent(plaintext), next))
  }

  /** An error is a payload that is dropped; the stored session then stays as it was. */
  function HandlePayload(c: Primitives, payload: bytes, session: Option<Session>): Result<Delivery>
    requires Lawful(c)
  {
    var (node, end) :- ReadNode(payload, 0);
    if node.tag != TAG_MESSAGE then Err("not a message") else
    match node.content
    case Binary(body) =>
      if session.Some? && LooksWrapped(body) then
        var (content, next) :- DecryptBody(c, body, session.value);
        Ok(Deliver(node, content, Some(next)))
      else Ok(Deliver(node, MC.DecodeContent(body), session))
    case other => Ok(Deliver(node, OtherContent(other), session))
  }

  // ----- what is delivered for any node at all -----

  const MESSAGE_NAME: bytes := [109, 101, 115, 115, 97, 103, 101] // "message"
  const FROM_NAME: bytes := [102, 114, 111, 109] // "from"
  const TO_NAME: bytes := [116, 111] // "to"
  const ID_NAME: bytes := [105, 100] // "id"
  const FROM_ME_NAME: bytes := [102, 114, 111, 109, 77, 101] // "fromMe"
  const PARTICIPANT_NAME: bytes := [112, 97, 114, 116, 105, 99, 105, 112, 97, 110, 116] // "participant"
  const BODY_NAME: bytes := [98, 111, 100, 121] // "body"

  /** Is there a non-empty attribute of that name? */
  ghost predicate Filled(attrs: seq<Attr>, name: bytes) {
    exists v :: v != [] && Attr(name, v) in attrs
  }

  /** The header of a delivery, by what is among the attributes. */
  ghost predicate DeliveredUnder(d: Delivery, attrs: seq<Attr>) {
    && (if Filled(attrs, FROM_NAME) then Attr(FROM_NAME, d.remoteJid) in attrs
        else if Filled(attrs, TO_NAME) then Attr(TO_NAME, d.remoteJid) in attrs
        else d.remoteJid == [])
    && (if Filled(attrs, ID_NAME) then Attr(ID_NAME, d.id) in attrs else d.id == [])
    && (d.fromMe <==> Attr(FROM_ME_NAME, [116, 114, 117, 101]) in attrs)
    && (forall v :: d.participant == Some(v) <==> Attr(PARTICIPANT_NAME, v) in attrs)
  }

  lemma {:induction false} GetAttrExactly(attrs: seq<Attr>, key: bytes)
    requires DistinctKeys(attrs)
    ensures forall v :: GetAttr(attrs, key) == Some(v) <==> Attr(key, v) in attrs
  {
    if attrs != [] {
      assert DistinctKeys(attrs[1..]);
      GetAttrExactly(attrs[1..], key);
      assert forall a :: a in attrs[1..] ==> a.key != attrs[0].key;
      assert forall a :: a in attrs <==> a == attrs[0] || a in attrs[1..];
    }
  }

  lemma DeliverExactly(n: Node, content: MC.Content, session: Option<Session>)
    requires DistinctKeys(n.attrs)
    ensures DeliveredUnder(Deliver(n, content, session), n.attrs)
    ensures Deliver(n, content, session).content == content && Deliver(n, content, session).session == session
  {
    hide GetAttr; hide DistinctKeys;
    GetAttrExactly(n.attrs, ATTR_FROM);
    GetAttrExactly(n.attrs, ATTR_TO);
    GetAttrExactly(n.attrs, ATTR_ID);
    GetAttrExactly(n.attrs, ATTR_FROM_ME);
    GetAttrExactly(n.attrs, ATTR_PARTICIPANT);
  }

  /** A body that is taken for an envelope: more than five bytes, "KXS1" behind the first. */
  predicate EnvelopeShaped(body: bytes) {
    |body| > 5 && body[1] == 75 && body[2] == 88 && body[3] == 83 && body[4] == 49
  }

  /** The message an envelope holds: counter at 6, header key at 10, ciphertext from 42 on. */
  function EnvelopeMessage(body: bytes): Option<Message> {
    if |body| < 42 then None else
    Some(Message(
      (body[6] as int) * 0x100_0000 + (body[7] as int) * 0x1_0000 + (body[8] as int) * 0x100 + body[9] as int,
      body[10..42], body[42..]))
  }

  /** The text of the first child called "body", if that child holds text. */
  ghost predicate BodyText(nodes: seq<Node>, text: bytes) {
    exists k :: 0 <= k < |nodes| && nodes[k].tag == BODY_NAME && nodes[k].content == Text(text)
      && forall j :: 0 <= j < k ==> nodes[j].tag != BODY_NAME
  }

  /** What becomes of a decoded node, case by case. */
  ghost predicate HandledRightly(c: Primitives, n: Node, session: Option<Session>, r: Result<Delivery>)
    requires Lawful(c)
  {
    && (n.tag != MESSAGE_NAME ==> r.Err?)
    && (r.Ok? ==> DeliveredUnder(r.value, n.attrs))
    && (n.tag == MESSAGE_NAME ==>
          match n.content
          case Binary(body) =>
            if session.Some? && EnvelopeShaped(body) then
              var m := EnvelopeMessage(body);
              && (r.Ok? <==> m.Some? && Decrypt(c, session.value, m.value).Ok?)
              && (r.Ok? ==>
                    var (next, plaintext) := Decrypt(c, session.value, m.value).value;
                    r.value.content == MC.DecodeContent(plaintext) && r.value.session == Some(next))
            else r.Ok? && r.value.content == MC.DecodeContent(body) && r.value.session == session
          case Text(t) => r.Ok? && r.value.content == MC.Content(Some(t), None, None) && r.value.session == session
          case Children(nodes) =>
            && r.Ok? && r.value.session == session
            && (forall t :: BodyText(nodes, t) ==> r.value.content == MC.Content(Some(t), None, None))
            && ((forall t :: !BodyText(nodes, t)) ==> r.value.content == MC.Content(None, None, None))
          case NoContent => r.Ok? && r.value.content == MC.Content(None, None, None) && r.value.session == session)
  }

  lemma EnvelopeExactly(body: bytes)
    ensures LooksWrapped(body) <==> EnvelopeShaped(body)
    ensures EnvelopeShaped(body) ==>
      var m := EnvelopeMessage(body);
      && Unwrap(body).Ok?
      && (DecodeSignalWire(Unwrap(body).value.1).Ok? <==> m.Some?)
      && (m.Some? ==> DecodeSignalWire(Unwrap(body).value.1) == Ok(m.value))
  {
    if |body| > 5 {
      assert body[1..5] == [body[1], body[2], body[3], body[4]];
      assert MAGIC == [75, 88, 83, 49];
      var wire := body[1..];
      assert wire[..4] == body[1..5];
      if |body| >= 42 {
        assert wire[5] == body[6] && wire[6] == body[7] && wire[7] == body[8] && wire[8] == body[9];
        assert wire[9..41] == body[10..42] && wire[41..] == body[42..];
      }
    }
  }

  lemma {:induction false} FindChildExactly(nodes: seq<Node>, tag: bytes) returns (k: nat)
    ensures k <= |nodes| && forall j :: 0 <= j < k ==> nodes[j].tag != tag
    ensures FindChild(nodes, tag) == if k < |nodes| then Some(nodes[k]) else None
    ensures k < |nodes| ==> nodes[k].tag == tag
  {
    if nodes == [] || nodes[0].tag == tag {
      return 0;
    }
    k := FindChildExactly(nodes[1..], tag);
    k := k + 1;
  }

  lemma BodyChildExactly(nodes: seq<Node>)
    ensures forall t :: BodyText(nodes, t) ==> OtherContent(Children(nodes)) == MC.Content(Some(t), None, None)
    ensures (forall t :: !BodyText(nodes, t)) ==> OtherContent(Children(nodes)) == MC.Content(None, None, None)
  {
    var k := FindChildExactly(nodes, TAG_BODY);
    if k < |nodes| && nodes[k].content.Text? {
      assert BodyText(nodes, nodes[k].content.text);
    }
    forall t | BodyText(nodes, t) ensures k < |nodes| && nodes[k].content == Text(t) {
      var i :| 0 <= i < |nodes| && nodes[i].tag == BODY_NAME && nodes[i].content == Text(t)
        && forall j :: 0 <= j < i ==> nodes[j].tag != BODY_NAME;
      assert i == k;
    }
  }

  lemma HandleExactly(c: Primitives, payload: bytes, n: Node, end: nat, session: Option<Session>)
    requires Lawful(c) && ReadNode(payload, 0) == Ok((n, end)) && DistinctKeys(n.attrs)
    ensures HandledRightly(c, n, session, HandlePayload(c, payload, session))
  {
    hide ReadNode; hide MC.DecodeContent; hide Decrypt; hide DistinctKeys; hide DeliveredUnder; hide Deliver;
    hide LooksWrapped; hide Unwrap; hide DecodeSignalWire; hide EnvelopeShaped; hide EnvelopeMessage; hide BodyText;
    var r := HandlePayload(c, payload, session);
    if r.Ok? {
      DeliverExactly(n, r.value.content, r.value.session);
      forall content, s ensures Deliver(n, content, s).content == content && Deliver(n, content, s).session == s
        && DeliveredUnder(Deliver(n, content, s), n.attrs)
      {
        DeliverExactly(n, content, s);
      }
    }
    match n.content {
      case Binary(body) => EnvelopeExactly(body);
      case Children(nodes) => BodyChildExactly(nodes); hide FindChild;
      case _ =>
    }
  }

  /** Any node that was encoded: its strings arrive as bytes, and so it is handled. */
  lemma EncodedNodeHandled(c: Primitives, n: Node, rest: bytes, session: Option<Session>)
    requires Lawful(c) && WellSized(n)
    ensures HandledRightly(c, Norm(n), session, HandlePayload(c, EncNode(n) + rest, session))
  {
    hide EncNode; hide ReadNode; hide HandledRightly; hide HandlePayload;
    NodeRoundTrip(n, rest);
    HandleExactly(c, EncNode(n) + rest, Norm(n), |EncNode(n)|, session);
  }

  /** Any payload at all that fits a frame: it is dropped if no node can be read, and else handled as that node. */
  lemma PayloadHandled(c: Primitives, payload: bytes, session: Option<Session>)
    requires Lawful(c) && |payload| <= MAX_FRAME
    ensures ReadNode(payload, 0).Err? ==> HandlePayload(c, payload, session).Err?
    ensures ReadNode(payload, 0).Ok? ==>
      HandledRightly(c, ReadNode(payload, 0).value.0, session, HandlePayload(c, payload, session))
  {
    hide ReadNode; hide HandledRightly;
    if ReadNode(payload, 0).Ok? {
      ReadNodeWellSized(payload, 0);
      HandleExactly(c, payload, ReadNode(payload, 0).value.0, ReadNode(payload, 0).value.1, session);
    }
  }

  // ----- the two halves meet -----

  predicate ShortAddress(a: Address) {
    |a.to| < 0x1_0000 && |a.id| < 0x1_0000 && MC.LengthOf(a.participant) < 0x1_0000
  }

  /** A delivery under the address it was sent to. */
  function Addressed(a: Address, content: MC.Content, session: Option<Session>): Delivery {
    Delivery(a.to, a.id, false, if MC.Truthy(a.participant) then a.participant else None, content, session)
  }

  /** The node of an outgoing message, its names as bytes: message to id type="text", with the participant if given. */
  lemma MessageNodeLayout(a: Address, body: bytes)
    ensures
      var n := MessageNode(a, body);
      && n.tag == MESSAGE_NAME && n.content == Binary(body)
      && n.attrs == [Attr(TO_NAME, a.to), Attr(ID_NAME, a.id), Attr([116, 121, 112, 101], [116, 101, 120, 116])]
        + (match a.participant
           case Some(p) => if p == [] then [] else [Attr(PARTICIPANT_NAME, p)]
           case None => [])
  {
  }

  lemma AddressRoundTrip(a: Address, body: bytes)
    ensures forall content, session :: Deliver(MessageNode(a, body), content, session) == Addressed(a, content, session)
  {
    var attrs := MessageNode(a, body).attrs;
    assert ATTR_TO[0] == 116 && ATTR_ID[0] == 105 && ATTR_PARTICIPANT[0] == 112 && ATTR_FROM[0] == 102;
    assert |ATTR_TYPE| == 4 && |ATTR_TO| == 2;
    assert GetAttr(attrs, ATTR_TO) == Some(a.to);
    assert GetAttr(attrs, ATTR_ID) == GetAttr(attrs[1..], ATTR_ID) == Some(a.id);
    var tail := attrs[1..][1..][1..];
    assert forall key :: key != ATTR_TO && key != ATTR_ID && key != ATTR_TYPE ==>
      GetAttr(attrs, key) == GetAttr(attrs[1..], key) == GetAttr(attrs[1..][1..], key) == GetAttr(tail, key);
    assert tail == if MC.Truthy(a.participant) then [Attr(ATTR_PARTICIPANT, a.participant.value)] else [];
    assert |ATTR_FROM_ME| == 6 && |ATTR_PARTICIPANT| == 11;
    assert GetAttr(tail, ATTR_FROM) == None && GetAttr(tail, ATTR_FROM_ME) == None;
    assert GetAttr(tail, ATTR_PARTICIPANT) == if MC.Truthy(a.participant) then a.participant else None;
  }

  lemma MessageNodeRoundTrip(a: Address, body: bytes)
    requires ShortAddress(a) && |body| < 0x1_0000_0000
    ensures
      var r := ReadNode(EncNode(MessageNode(a, body)), 0);
      r.Ok? && r.value.0 == MessageNode(a, body)
    ensures forall content, session :: Deliver(MessageNode(a, body), content, session) == Addressed(a, content, session)
  {
    AddressRoundTrip(a, body);
    var n := MessageNode(a, body);
    hide EncNode; hide ReadNode;
    assert WellSized(n) by {
      assert ATTR_TO[0] == 116 && ATTR_ID[0] == 105 && ATTR_PARTICIPANT[0] == 112 && |ATTR_TYPE| == 4 && |ATTR_TO| == 2;
      assert DistinctKeys(n.attrs);
    }
    NodeRoundTrip(n, []);
    assert EncNode(n) + [] == EncNode(n);
    assert NormContent(n.content) == Binary(body);
  }

  /** A payload without a session on either end gives back the content as far as contents are carried. */
  lemma PlainDelivery(c: Primitives, a: Address, content: MC.Content)
    requires Lawful(c) && ShortAddress(a) && MC.Short(content) && |MC.EncodeContent(content)| < 0x1_0000_0000
    ensures HandlePayload(c, EncNode(MessageNode(a, MC.EncodeContent(content))), None)
      == Ok(Addressed(a, MC.Carried(content), None))
  {
    hide EncNode; hide ReadNode; hide MC.EncodeContent; hide MC.DecodeContent; hide MC.Carried;
    MessageNodeRoundTrip(a, MC.EncodeContent(content));
    MC.ContentRoundTrip(content);
  }

  lemma WrappedBody(m: Message)
    requires |m.ratchetPub| == PUB_LEN && m.counter < 0x1_0000_0000
    ensures var body := Wrap(WireOf(m));
      LooksWrapped(body) && Unwrap(body) == Ok((0, WireOf(m))) && DecodeSignalWire(WireOf(m)) == Ok(m)
      && |body| == 1 + HEADER_LEN + |m.ciphertext|
  {
    WireRoundTripExactly(m);
    var body := Wrap(WireOf(m));
    assert body[1..] == WireOf(m) && body[1..5] == WireOf(m)[..4] == MAGIC;
  }

  /** A payload encrypted by the sender's session decrypts under the receiver's, if it is in the window. */
  lemma EncryptedDelivery(
      c: Primitives, start: bytes, sender: Party, receiver: Party, iv: bytes, a: Address, content: MC.Content)
    requires Lawful(c) && SenderInv(c, start, sender) && ReceiverInv(c, start, HeaderKey(sender.session), receiver)
    requires |iv| == IV_LEN && |HeaderKey(sender.session)| == PUB_LEN && |sender.sent| < 0x1_0000_0000
    requires InWindow(receiver.session, |sender.sent|)
    requires ShortAddress(a) && MC.Short(content) && |MC.EncodeContent(content)| < 0xf000_0000
    ensures
      var (s, m) := Encrypt(c, sender.session, iv, MC.EncodeContent(content));
      && Decrypt(c, receiver.session, m).Ok?
      && HandlePayload(c, EncNode(MessageNode(a, Wrap(WireOf(m)))), Some(receiver.session))
        == Ok(Addressed(a, MC.Carried(content), Some(Decrypt(c, receiver.session, m).value.0)))
  {
    var plaintext := MC.EncodeContent(content);
    hide EncNode; hide ReadNode; hide MC.EncodeContent; hide MC.DecodeContent; hide MC.Carried;
    hide Unwrap; hide DecodeSignalWire; hide WireOf; hide Wrap; hide LooksWrapped; hide Decrypt; hide IsHonest;
    hide ReceiverInv; hide SenderInv;
    var sender' := Send(c, sender, iv, plaintext);
    var m := Encrypt(c, sender.session, iv, plaintext).1;
    SendKeepsSender(c, start, sender, iv, plaintext);
    SendKeepsReceiver(c, start, [], sender, iv, plaintext);
    assert sender'.sent[|sender.sent|] == Sent(plaintext, iv, m);
    HonestAcceptance(c, start, sender', receiver, |sender.sent|);
    SentMessage(c, start, sender, iv, plaintext);
    WrappedBody(m);
    MessageNodeRoundTrip(a, Wrap(WireOf(m)));
    MC.ContentRoundTrip(content);
  }

  lemma SentMessage(c: Primitives, start: bytes, sender: Party, iv: bytes, plaintext: bytes)
    requires Lawful(c) && SenderInv(c, start, sender) && |iv| == IV_LEN
    ensures
      var m := Encrypt(c, sender.session, iv, plaintext).1;
      && m.counter == |sender.sent| && m.ratchetPub == HeaderKey(sender.session)
      && |m.ciphertext| == IV_LEN + |plaintext| + TAG_LEN
  {
  }

  // ----- end to end, over any chunking of the transport stream -----

  /** The text of a conversation. */
  function TextContent(text: bytes): MC.Content {
    MC.Conversation(text)
  }

  lemma TextLength(text: bytes)
    requires text != [] && |text| <= MAX_FRAME
    ensures MC.Short(TextContent(text)) && |MC.EncodeContent(TextContent(text))| < 0xf000_0000
    ensures MC.Carried(TextContent(text)) == TextContent(text)
  {
    hide Protobuf.EncodeBytes;
    MC.SmallLength(1, text);
  }

  /** Some cutting of the sealed payloads, with an unfinished frame behind the last one. */
  ghost predicate Streamed(
      c: Primitives, key: bytes, nonce: nat, payloads: seq<bytes>, tail: bytes, chunks: seq<bytes>)
  {
    Sendable(payloads) && DecodeFrame(tail).None? && Concat(chunks) == SealedStream(c, key, nonce, payloads) + tail
  }

  /** The j-th of the sealed payloads of such a stream. */
  ghost predicate OnTheWire(
      c: Primitives, key: bytes, nonce: nat, payloads: seq<bytes>, j: nat, payload: bytes, tail: bytes, chunks: seq<bytes>)
  {
    Streamed(c, key, nonce, payloads, tail, chunks) && j < |payloads| && payloads[j] == payload
  }

  // ----- encrypted texts -----

  /** The payload that carries a text under a session, and the message in it. */
  function TextMessage(c: Primitives, s: Session, iv: bytes, text: bytes): Message
    requires Lawful(c)
  {
    Encrypt(c, s, iv, MC.EncodeContent(TextContent(text))).1
  }

  function TextPayload(c: Primitives, s: Session, iv: bytes, a: Address, text: bytes): bytes
    requires Lawful(c)
  {
    EncNode(MessageNode(a, Wrap(WireOf(TextMessage(c, s, iv, text)))))
  }

  /**
   A text of the sender, sealed among any other payloads and cut in any way, comes out at the receiver
   as it was, and the receiver's session becomes the one after this message.
   */
  ghost predicate TextCrosses(
      c: Primitives, sender: Session, receiver: Session, iv: bytes, a: Address, text: bytes,
      key: bytes, nonce: nat, payloads: seq<bytes>, j: nat, tail: bytes, chunks: seq<bytes>)
    requires Lawful(c)
  {
    OnTheWire(c, key, nonce, payloads, j, TextPayload(c, sender, iv, a, text), tail, chunks) ==>
      var got := FeedAll(c, key, nonce, [], chunks);
      var after := Decrypt(c, receiver, TextMessage(c, sender, iv, text));
      && got.ok && |got.out| == |payloads| && after.Ok?
      && HandlePayload(c, got.out[j], Some(receiver)) == Ok(Addressed(a, TextContent(text), Some(after.value.0)))
  }

  /** Encrypted text between a sender and a receiver of the same chain. */
  lemma EncryptedTextArrives(
      c: Primitives, start: bytes, sender: Party, receiver: Party, iv: bytes, a: Address, text: bytes,
      key: bytes, nonce: nat, payloads: seq<bytes>, j: nat, tail: bytes, chunks: seq<bytes>)
    requires Lawful(c) && SenderInv(c, start, sender) && ReceiverInv(c, start, HeaderKey(sender.session), receiver)
    requires |iv| == IV_LEN && |HeaderKey(sender.session)| == PUB_LEN && |sender.sent| < 0x1_0000_0000
    requires InWindow(receiver.session, |sender.sent|)
    requires ShortAddress(a) && text != [] && |text| <= MAX_FRAME
    ensures TextCrosses(c, sender.session, receiver.session, iv, a, text, key, nonce, payloads, j, tail, chunks)
  {
    hide Encrypt; hide HandlePayload; hide MC.EncodeContent; hide SealedStream; hide EncNode; hide WireOf;
    hide SenderInv; hide ReceiverInv; hide DecodeFrame; hide Decrypt;
    if OnTheWire(c, key, nonce, payloads, j, TextPayload(c, sender.session, iv, a, text), tail, chunks) {
      SealedStreamArrives(c, key, nonce, payloads, tail, chunks);
      TextLength(text);
      EncryptedDelivery(c, start, sender, receiver, iv, a, TextContent(text));
    }
  }

  /**
   From key agreement on: after any admissible run of freshly agreed sessions, the next text of either
   side arrives at the other, as long as fewer than 2^32 went before and it is in the window.
   */
  lemma AgreedSessionsCarryText(
      c: Primitives, ag: Agreement, events: seq<Event>, iv: bytes, a: Address, text: bytes,
      key: bytes, nonce: nat, payloads: seq<bytes>, j: nat, tail: bytes, chunks: seq<bytes>)
    requires Lawful(c) && GoodAgreement(c, ag) && AdmissibleRun(c, Establish(c, ag), events)
    requires |iv| == IV_LEN && ShortAddress(a) && text != [] && |text| <= MAX_FRAME
    ensures
      var sys := Run(c, Establish(c, ag), events);
      var (x, y) := (sys.alice, sys.bob);
      && (InWindow(y.session, |x.sent|) && |x.sent| < 0x1_0000_0000 ==>
            TextCrosses(c, x.session, y.session, iv, a, text, key, nonce, payloads, j, tail, chunks))
      && (InWindow(x.session, |y.sent|) && |y.sent| < 0x1_0000_0000 ==>
            TextCrosses(c, y.session, x.session, iv, a, text, key, nonce, payloads, j, tail, chunks))
  {
    hide TextCrosses; hide InWindow; hide Run; hide Establish;
    var sys, start := Run(c, Establish(c, ag), events), ChainStart(c, ag);
    AgreedInv(c, ag, events);
    hide SenderInv; hide ReceiverInv;
    if InWindow(sys.bob.session, |sys.alice.sent|) && |sys.alice.sent| < 0x1_0000_0000 {
      EncryptedTextArrives(c, start, sys.alice, sys.bob, iv, a, text, key, nonce, payloads, j, tail, chunks);
    }
    if InWindow(sys.alice.session, |sys.bob.sent|) && |sys.bob.sent| < 0x1_0000_0000 {
      EncryptedTextArrives(c, start, sys.bob, sys.alice, iv, a, text, key, nonce, payloads, j, tail, chunks);
    }
  }

  /** Where the two chains of an agreement start. */
  function ChainStart(c: Primitives, ag: Agreement): bytes
    requires Lawful(c)
  {
    Establish(c, ag).alice.session.sending.key
  }

  lemma AgreedInv(c: Primitives, ag: Agreement, events: seq<Event>)
    requires Lawful(c) && GoodAgreement(c, ag) && AdmissibleRun(c, Establish(c, ag), events)
    ensures
      var sys := Run(c, Establish(c, ag), events);
      && Inv(c, ChainStart(c, ag), ChainStart(c, ag), sys)
      && |HeaderKey(sys.alice.session)| == PUB_LEN && |HeaderKey(sys.bob.session)| == PUB_LEN
  {
    hide Run; hide Step;
    var first := Establish(c, ag);
    SessionsAgree(c, ag);
    assert |HeaderKey(first.alice.session)| == PUB_LEN && |HeaderKey(first.bob.session)| == PUB_LEN;
    hide SenderInv; hide ReceiverInv; hide Inv;
    RunKeepsInv(c, ChainStart(c, ag), ChainStart(c, ag), first, events);
    RunKeepsHeaders(c, first, events);
  }

  // ----- a whole list of texts in one stream -----

  datatype Outgoing = Outgoing(address: Address, iv: bytes, text: bytes)

  ghost predicate GoodTexts(texts: seq<Outgoing>) {
    forall o :: o in texts ==> ShortAddress(o.address) && |o.iv| == IV_LEN && o.text != [] && |o.text| <= MAX_FRAME
  }

  /** What a sender makes of its texts, each under the session the one before left. */
  function SendTexts(c: Primitives, s: Session, texts: seq<Outgoing>): (r: (Session, seq<bytes>))
    requires Lawful(c)
    ensures |r.1| == |texts|
    decreases |texts|
  {
    if texts == [] then (s, []) else
    var o := texts[0];
    var (s', payloads) := SendTexts(c, Encrypt(c, s, o.iv, MC.EncodeContent(TextContent(o.text))).0, texts[1..]);
    (s', [TextPayload(c, s, o.iv, o.address, o.text)] + payloads)
  }

  /** What a receiver makes of payloads: their deliveries in order, and the session it ends with. */
  function HandleAll(c: Primitives, payloads: seq<bytes>, session: Option<Session>): (seq<Delivery>, Option<Session>)
    requires Lawful(c)
    decreases |payloads|
  {
    if payloads == [] then ([], session) else
    match HandlePayload(c, payloads[0], session)
    case Err(_) => HandleAll(c, payloads[1..], session)
    case Ok(d) =>
      var (rest, last) := HandleAll(c, payloads[1..], d.session);
      ([d] + rest, last)
  }

  /** Sender and receiver after each text was sent and received in turn. */
  function Exchange(c: Primitives, sender: Party, receiver: Party, texts: seq<Outgoing>): (Party, Party)
    requires Lawful(c)
    decreases |texts|
  {
    if texts == [] then (sender, receiver) else
    var (iv, plaintext) := (texts[0].iv, MC.EncodeContent(TextContent(texts[0].text)));
    var m := Encrypt(c, sender.session, iv, plaintext).1;
    Exchange(c, Send(c, sender, iv, plaintext), Receive(c, receiver, m), texts[1..])
  }

  /** The deliveries are exactly the texts, in order. */
  ghost predicate DeliveredInOrder(out: seq<Delivery>, texts: seq<Outgoing>) {
    && |out| == |texts|
    && forall k :: 0 <= k < |texts| ==>
      out[k] == Addressed(texts[k].address, TextContent(texts[k].text), out[k].session)
  }

  /** The receiver is not ahead of the sender, and takes its next message. */
  predicate InStep(sender: Party, receiver: Party) {
    receiver.session.receiving.counter <= |sender.sent| && InWindow(receiver.session, |sender.sent|)
  }

  ghost predicate Paired(c: Primitives, start: bytes, sender: Party, receiver: Party)
    requires Lawful(c)
  {
    && SenderInv(c, start, sender) && ReceiverInv(c, start, HeaderKey(sender.session), receiver)
    && |HeaderKey(sender.session)| == PUB_LEN && InStep(sender, receiver)
  }

  /** After one message both sides are in step again. */
  lemma StaysPaired(c: Primitives, start: bytes, sender: Party, receiver: Party, iv: bytes, plaintext: bytes)
    requires Lawful(c) && Paired(c, start, sender, receiver) && |iv| == IV_LEN
    ensures
      var m := Encrypt(c, sender.session, iv, plaintext).1;
      Paired(c, start, Send(c, sender, iv, plaintext), Receive(c, receiver, m))
  {
    hide IsHonest; hide KdfRoot; hide OpenBody; hide MessageKey; hide NextChainKey; hide Lawful;
    var (n, sender', m) := (|sender.sent|, Send(c, sender, iv, plaintext), Encrypt(c, sender.session, iv, plaintext).1);
    SendKeepsSender(c, start, sender, iv, plaintext);
    SendKeepsReceiver(c, start, [], sender, iv, plaintext);
    assert sender'.sent[n] == Sent(plaintext, iv, m);
    HonestAcceptance(c, start, sender', receiver, n);
    ReceiveKeepsReceiver(c, start, HeaderKey(sender.session), receiver, m);
    assert m.counter == n;
    SkipKeysReaches(c, receiver.session.receiving, n, receiver.session.skipped);
  }

  lemma {:induction false} TextsInOrder(c: Primitives, start: bytes, sender: Party, receiver: Party, texts: seq<Outgoing>)
    requires Lawful(c) && Paired(c, start, sender, receiver)
    requires GoodTexts(texts) && |sender.sent| + |texts| <= 0x1_0000_0000
    ensures
      var (s, payloads) := SendTexts(c, sender.session, texts);
      var (out, last) := HandleAll(c, payloads, Some(receiver.session));
      var (sender', receiver') := Exchange(c, sender, receiver, texts);
      && DeliveredInOrder(out, texts)
      && s == sender'.session && last == Some(receiver'.session) && Paired(c, start, sender', receiver')
    decreases |texts|
  {
    hide Decrypt; hide HandlePayload; hide MC.EncodeContent; hide EncNode; hide WireOf; hide SenderInv; hide ReceiverInv;
    if texts != [] {
      var o := texts[0];
      var plaintext := MC.EncodeContent(TextContent(o.text));
      var (s1, m) := Encrypt(c, sender.session, o.iv, plaintext);
      assert ShortAddress(o.address);
      TextLength(o.text);
      EncryptedDelivery(c, start, sender, receiver, o.iv, o.address, TextContent(o.text));
      StaysPaired(c, start, sender, receiver, o.iv, plaintext);
      var (sender1, receiver1) := (Send(c, sender, o.iv, plaintext), Receive(c, receiver, m));
      hide Encrypt; hide Paired;
      TextsInOrder(c, start, sender1, receiver1, texts[1..]);
      var payloads := SendTexts(c, sender.session, texts).1;
      assert payloads[1..] == SendTexts(c, sender1.session, texts[1..]).1;
    }
  }

  /** Two ends of one transport link: what one sends under is what the other reads under. */
  predicate Linked(from: NoiseHandshake.TransportKeys, to: NoiseHandshake.TransportKeys) {
    from.sendKey == to.recvKey && from.writeNonce == to.readNonce
  }

  /** All texts of a sender, sealed one after the other at one end and cut in any way, come out at the other. */
  ghost predicate TextsCross(
      c: Primitives, sender: Party, receiver: Party, texts: seq<Outgoing>,
      from: NoiseHandshake.TransportKeys, to: NoiseHandshake.TransportKeys, tail: bytes, chunks: seq<bytes>)
    requires Lawful(c)
  {
    var (_, payloads) := SendTexts(c, sender.session, texts);
    Streamed(c, from.sendKey, from.writeNonce, payloads, tail, chunks) ==>
      var got := FeedAll(c, to.recvKey, to.readNonce, [], chunks);
      var (out, last) := HandleAll(c, got.out, Some(receiver.session));
      && got.ok && got.rest == tail && DeliveredInOrder(out, texts)
      && last == Some(Exchange(c, sender, receiver, texts).1.session)
  }

  lemma TextsArrive(
      c: Primitives, start: bytes, sender: Party, receiver: Party, texts: seq<Outgoing>,
      from: NoiseHandshake.TransportKeys, to: NoiseHandshake.TransportKeys, tail: bytes, chunks: seq<bytes>)
    requires Lawful(c) && Paired(c, start, sender, receiver) && Linked(from, to)
    requires GoodTexts(texts) && |sender.sent| + |texts| <= 0x1_0000_0000
    ensures TextsCross(c, sender, receiver, texts, from, to, tail, chunks)
  {
    hide SealedStream; hide SendTexts; hide HandleAll; hide Exchange; hide FeedAll; hide Paired; hide DecodeFrame;
    var (_, payloads) := SendTexts(c, sender.session, texts);
    if Streamed(c, from.sendKey, from.writeNonce, payloads, tail, chunks) {
      SealedStreamArrives(c, from.sendKey, from.writeNonce, payloads, tail, chunks);
      TextsInOrder(c, start, sender, receiver, texts);
    }
  }

  /**
   The whole path. Two sessions are agreed and used in any admissible run; a transport link is made
   by the handshake; then a list of texts, sealed at one end of the link and cut in any way, arrives
   at the other end complete, in order and under the right addresses, in either direction.
   */
  lemma ConversationArrives(
      c: Primitives, ag: Agreement, events: seq<Event>, p: WaNoise.Parties, certificate: bytes, finishPayload: bytes,
      texts: seq<Outgoing>, tail: bytes, chunks: seq<bytes>)
    requires Lawful(c) && GoodAgreement(c, ag) && AdmissibleRun(c, Establish(c, ag), events)
    requires WaNoise.GoodParties(c, p) && |certificate| < Protobuf.TWO32 - 200 && |finishPayload| <= MAX_FRAME - 76
    requires GoodTexts(texts)
    ensures
      var sys := Run(c, Establish(c, ag), events);
      var (x, y, link) := (sys.alice, sys.bob, WaNoise.WaRun(c, p, certificate, finishPayload));
      && link.Some?
      && (InStep(x, y) && |x.sent| + |texts| <= 0x1_0000_0000 ==>
            TextsCross(c, x, y, texts, link.value.clientKeys, link.value.serverKeys, tail, chunks))
      && (InStep(y, x) && |y.sent| + |texts| <= 0x1_0000_0000 ==>
            TextsCross(c, y, x, texts, link.value.serverKeys, link.value.clientKeys, tail, chunks))
  {
    hide TextsCross; hide InStep; hide Run; hide Establish; hide WaNoise.WaRun; hide WaNoise.GoodParties;
    var sys, start := Run(c, Establish(c, ag), events), ChainStart(c, ag);
    AgreedInv(c, ag, events);
    hide SenderInv; hide ReceiverInv;
    WaNoise.WaAgreement(c, p, certificate, finishPayload);
    var link := WaNoise.WaRun(c, p, certificate, finishPayload).value;
    if InStep(sys.alice, sys.bob) && |sys.alice.sent| + |texts| <= 0x1_0000_0000 {
      TextsArrive(c, start, sys.alice, sys.bob, texts, link.clientKeys, link.serverKeys, tail, chunks);
    }
    if InStep(sys.bob, sys.alice) && |sys.bob.sent| + |texts| <= 0x1_0000_0000 {
      TextsArrive(c, start, sys.bob, sys.alice, texts, link.serverKeys, link.clientKeys, tail, chunks);
    }
  }

  // ----- plain texts -----

  const XS1: bytes := [88, 83, 49] // "XS1"

  /** Texts whose plain body has the shape of an envelope. */
  predicate Mistakable(text: bytes) {
    |text| == 75 && text[..3] == XS1
  }

  /** The body of a plain text looks like an envelope exactly when the text is 75 bytes long and starts with "XS1". */
  lemma PlainTextLooksWrapped(text: bytes)
    requires text != [] && |text| < 0x1_0000_0000
    ensures LooksWrapped(MC.EncodeContent(TextContent(text))) <==> Mistakable(text)
    ensures |text| < 0x80 ==> MC.EncodeContent(TextContent(text)) == [10, |text|] + text
  {
    var body := MC.EncodeContent(TextContent(text));
    assert Protobuf.Tag(1, 2) == [10];
    var len := Protobuf.Varint(|text|);
    assert body == [10] + len + text;
    if |text| < 0x80 {
      assert len == [|text|];
      assert body == [10, |text|] + text;
      if |body| > 5 {
        assert body[1..5] == [|text|] + text[..3];
        assert MAGIC == [75] + XS1;
        assert body[1..5][0] == |text| && body[1..5][1..] == text[..3];
        assert MAGIC[0] == 75 && MAGIC[1..] == XS1;
      }
    } else {
      assert len[0] >= 0x80 && body[1] == len[0];
      if |body| > 5 {
        assert body[1..5][0] == body[1];
      }
    }
  }

  /** The message that a mistakable text is read as. */
  function MisreadAs(text: bytes): Message
    requires Mistakable(text)
  {
    Message(Join32(text[4], text[5], text[6], text[7]), text[8..40], text[40..])
  }

  /** What a receiver with a session makes of such a text: whatever its decryption gives. */
  function Misread(c: Primitives, a: Address, text: bytes, s: Session): Result<Delivery>
    requires Lawful(c) && Mistakable(text)
  {
    var (next, plaintext) :- Decrypt(c, s, MisreadAs(text));
    Ok(Addressed(a, MC.DecodeContent(plaintext), Some(next)))
  }

  /** What a receiver with or without a session makes of a plain text. */
  function PlainOutcome(c: Primitives, a: Address, text: bytes, session: Option<Session>): Result<Delivery>
    requires Lawful(c)
  {
    if session.Some? && Mistakable(text) then Misread(c, a, text, session.value)
    else Ok(Addressed(a, TextContent(text), session))
  }

  lemma MistakenBody(text: bytes)
    requires Mistakable(text)
    ensures
      var u := Unwrap([10, 75] + text);
      u.Ok? && DecodeSignalWire(u.value.1) == Ok(MisreadAs(text))
  {
    var wire := ([10, 75] + text)[1..];
    assert wire == [75] + text;
    assert wire[..4] == [75] + text[..3] == MAGIC;
    assert wire[9..HEADER_LEN] == text[8..40] && wire[HEADER_LEN..] == text[40..];
  }

  /** Plain text at any receiver: taken as it is or, exactly if mistakable and met by a session, decrypted. */
  lemma PlainTextDelivery(c: Primitives, a: Address, text: bytes, session: Option<Session>)
    requires Lawful(c) && ShortAddress(a) && text != [] && |text| <= MAX_FRAME
    ensures HandlePayload(c, EncNode(MessageNode(a, MC.EncodeContent(TextContent(text)))), session)
      == PlainOutcome(c, a, text, session)
  {
    hide EncNode; hide ReadNode; hide MC.EncodeContent; hide MC.DecodeContent; hide MC.Carried; hide Decrypt;
    var body := MC.EncodeContent(TextContent(text));
    TextLength(text);
    MessageNodeRoundTrip(a, body);
    MC.ContentRoundTrip(TextContent(text));
    PlainTextLooksWrapped(text);
    hide LooksWrapped;
    if Mistakable(text) {
      MistakenBody(text);
    }
    hide Unwrap; hide DecodeSignalWire;
  }

  /** A receiver delivers a plain text unchanged exactly if it has no session or the text is not mistakable. */
  lemma PlainTextUnchangedExactly(c: Primitives, a: Address, text: bytes, session: Option<Session>)
    requires Lawful(c)
    ensures PlainOutcome(c, a, text, session) == Ok(Addressed(a, TextContent(text), session))
      <==> session.None? || !Mistakable(text)
  {
    if session.Some? && Mistakable(text) {
      DecryptChangesSession(c, session.value, MisreadAs(text));
      hide Decrypt;
    }
  }

  /** Plain text through seal and frames, to a receiver with or without a session. */
  lemma PlainTextArrives(
      c: Primitives, a: Address, text: bytes, session: Option<Session>,
      key: bytes, nonce: nat, payloads: seq<bytes>, j: nat, tail: bytes, chunks: seq<bytes>)
    requires Lawful(c) && ShortAddress(a) && text != [] && |text| <= MAX_FRAME
    ensures
      OnTheWire(c, key, nonce, payloads, j, EncNode(MessageNode(a, MC.EncodeContent(TextContent(text)))), tail, chunks) ==>
        var got := FeedAll(c, key, nonce, [], chunks);
        && got.ok && |got.out| == |payloads|
        && HandlePayload(c, got.out[j], session) == PlainOutcome(c, a, text, session)
        && (HandlePayload(c, got.out[j], session) == Ok(Addressed(a, TextContent(text), session)) <==>
            session.None? || !Mistakable(text))
  {
    hide HandlePayload; hide MC.EncodeContent; hide SealedStream; hide EncNode; hide DecodeFrame; hide PlainOutcome;
    if OnTheWire(c, key, nonce, payloads, j, EncNode(MessageNode(a, MC.EncodeContent(TextContent(text)))), tail, chunks) {
      SealedStreamArrives(c, key, nonce, payloads, tail, chunks);
      PlainTextDelivery(c, a, text, session);
      PlainTextUnchangedExactly(c, a, text, session);
    }
  }
}

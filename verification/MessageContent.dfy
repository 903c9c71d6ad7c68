/** Message contents and their protobuf-like encoding, with the legacy text envelope behind it. */
module MessageContent {
  import opened Prelude
  import opened Protobuf

  datatype MessageKey = MessageKey(remoteJid: Option<bytes>, fromMe: Option<bool>, id: Option<bytes>)

  datatype Reaction = Reaction(key: Option<MessageKey>, text: Option<bytes>)

  /** The kinds of content that have an encoding of their own. */
  datatype Content = Content(conversation: Option<bytes>, extendedText: Option<bytes>, reaction: Option<Reaction>)

  const REACTION := 46
  const LEGACY_MAGIC: bytes := [75, 88, 77, 49] // "KXM1"

  /** A string that counts as true: present and not empty. */
  predicate Truthy(s: Option<bytes>) {
    s.Some? && s.value != []
  }

  function EncodeReactionKey(key: MessageKey): bytes
    requires Truthy(key.id)
  {
    (if Truthy(key.remoteJid) then EncodeBytes(1, key.remoteJid.value) else [])
    + (if key.fromMe.Some? then EncodeVarint(2, if key.fromMe.value then 1 else 0) else [])
    + EncodeBytes(3, key.id.value)
  }

  function EncodeReaction(r: Reaction): bytes {
    (if r.key.Some? && Truthy(r.key.value.id) then EncodeBytes(1, EncodeReactionKey(r.key.value)) else [])
    + (if r.text.Some? then EncodeBytes(2, r.text.value) else [])
  }

  function LegacyText(text: bytes): bytes {
    LEGACY_MAGIC + [1, 0, 0, 0] + text
  }

  function EncodeContent(c: Content): bytes {
    if Truthy(c.conversation) then EncodeBytes(1, c.conversation.value)
    else if Truthy(c.extendedText) then EncodeBytes(6, EncodeBytes(1, c.extendedText.value))
    else if c.reaction.Some? then EncodeBytes(REACTION, EncodeReaction(c.reaction.value))
    else LegacyText([])
  }

  function Conversation(text: bytes): Content {
    Content(Some(text), None, None)
  }

  const NOTHING := Content(None, None, None)

  predicate IsControl(b: byte) {
    b <= 8 || 14 <= b <= 31
  }

  function DecodeLegacy(buf: bytes): Content {
    if |buf| >= 8 && buf[..4] == LEGACY_MAGIC then
      if buf[4] == 1 then Conversation(buf[8..]) else NOTHING
    else if |buf| > 0 && forall b :: b in Take(buf, 32) ==> !IsControl(b) then Conversation(buf)
    else NOTHING
  }

  function DecodeReaction(buf: bytes): Result<Content> {
    var inner :- ReadFields(buf);
    var text := FieldBytes(inner, 2);
    var text' := Some(if text.Some? then text.value else []);
    match FieldBytes(inner, 1)
    case None => Ok(Content(None, None, Some(Reaction(None, text'))))
    case Some(keyBuf) =>
      var kf :- ReadFields(keyBuf);
      var fromMe := if FieldBytes(kf, 2).Some? then Some(false) else None;
      Ok(Content(None, None, Some(Reaction(Some(MessageKey(FieldBytes(kf, 1), fromMe, FieldBytes(kf, 3))), text'))))
  }

  /** The first of conversation, extended text and reaction that is there; an error means none parsed. */
  function DecodeProto(buf: bytes): Result<Content> {
    var fields :- ReadFields(buf);
    if Truthy(FieldBytes(fields, 1)) then Ok(Content(FieldBytes(fields, 1), None, None)) else
    match FieldBytes(fields, 6)
    case Some(ext) =>
      var inner :- ReadFields(ext);
      if Truthy(FieldBytes(inner, 1)) then Ok(Content(None, FieldBytes(inner, 1), None))
      else DecodeReactionField(fields)
    case None => DecodeReactionField(fields)
  }

  function DecodeReactionField(fields: seq<Field>): Result<Content> {
    match FieldBytes(fields, REACTION)
    case Some(r) => DecodeReaction(r)
    case None => Err("no known field")
  }

  function DecodeContent(buf: bytes): Content {
    match DecodeProto(buf)
    case Ok(c) => c
    case Err(_) => DecodeLegacy(buf)
  }

  // ----- round trip -----

  /** What a content looks like after a trip: one kind is left, and the sender flag of a reaction is lost. */
  function Carried(c: Content): Content {
    if Truthy(c.conversation) then Content(c.conversation, None, None)
    else if Truthy(c.extendedText) then Content(None, c.extendedText, None)
    else if c.reaction.Some? then
      var r := c.reaction.value;
      Content(None, None, Some(Reaction(
        if r.key.Some? && Truthy(r.key.value.id) then
          Some(MessageKey(if Truthy(r.key.value.remoteJid) then r.key.value.remoteJid else None, None, r.key.value.id))
        else None,
        Some(if r.text.Some? then r.text.value else []))))
    else Conversation([])
  }

  function LengthOf(s: Option<bytes>): nat {
    if s.Some? then |s.value| else 0
  }

  predicate Short(c: Content) {
    && LengthOf(c.conversation) < 0x1000_0000 && LengthOf(c.extendedText) < 0x1000_0000
    && (c.reaction.Some? ==>
          && LengthOf(c.reaction.value.text) < 0x1000_0000
          && (c.reaction.value.key.Some? ==>
                LengthOf(c.reaction.value.key.value.remoteJid) < 0x1000_0000
                && LengthOf(c.reaction.value.key.value.id) < 0x1000_0000))
  }

  lemma {:induction false} VarintShort(v: nat)
    ensures |Varint(v)| <= 1 + v
    decreases v
  {
    if v >= 0x80 {
      VarintShort(v / 0x80);
    }
  }

  lemma SmallLength(n: nat, d: bytes)
    requires n < 0x100 && |d| < TWO32
    ensures |EncodeBytes(n, d)| <= |d| + 10
  {
    var t, l := n * 8 + 2, |d|;
    assert |Varint(t)| <= 2 by { assert t >= 0x80 ==> |Varint(t)| == 1 + |Varint(t / 0x80)|; }
    FiveBytes(l);
  }

  lemma FiveBytes(v: nat)
    requires v < TWO32
    ensures |Varint(v)| <= 5
  {
    var (a, b, d, e) := (v / 0x80, v / 0x80 / 0x80, v / 0x80 / 0x80 / 0x80, v / 0x80 / 0x80 / 0x80 / 0x80);
    assert e < 0x10;
    assert |Varint(e)| <= 1;
    assert |Varint(d)| <= 2 && |Varint(b)| <= 3 && |Varint(a)| <= 4;
  }

  /** The fields written for a key. */
  function KeyItems(key: MessageKey): seq<Item>
    requires Truthy(key.id)
  {
    (if Truthy(key.remoteJid) then [Data(1, key.remoteJid.value)] else [])
    + ((if key.fromMe.Some? then [Int32(2, if key.fromMe.value then 1 else 0)] else [])
       + [Data(3, key.id.value)])
  }

  lemma KeyItemsEncode(key: MessageKey)
    requires Truthy(key.id)
    ensures EncodeAll(KeyItems(key)) == EncodeReactionKey(key)
  {
    hide EncodeBytes; hide EncodeVarint; hide EncodeAll; hide FieldsOf;
    var jid := if Truthy(key.remoteJid) then [Data(1, key.remoteJid.value)] else [];
    var flag := if key.fromMe.Some? then [Int32(2, if key.fromMe.value then 1 else 0)] else [];
    var id := [Data(3, key.id.value)];
    OneOrNone(jid);
    OneOrNone(flag);
    OneOrNone(id);
    EncodeAllAppend(flag, id);
    EncodeAllAppend(jid, flag + id);
  }

  lemma {:induction false} FieldsOfEach(items: seq<Item>)
    ensures forall k :: 0 <= k < |items| ==> FieldsOf(items)[k] == FieldOf(items[k])
  {
    if items != [] {
      FieldsOfEach(items[1..]);
    }
  }

  /** A key parses back without its sender flag, which is written as a number but looked up as text. */
  lemma KeyRoundTrip(key: MessageKey)
    requires Truthy(key.id) && |key.id.value| < 0x1000_0000 && LengthOf(key.remoteJid) < 0x1000_0000
    ensures ReadFields(EncodeReactionKey(key)).Ok?
    ensures var kf := ReadFields(EncodeReactionKey(key)).value;
      && FieldBytes(kf, 1) == (if Truthy(key.remoteJid) then key.remoteJid else None)
      && FieldBytes(kf, 2) == None && FieldBytes(kf, 3) == key.id
  {
    hide ReadFields; hide EncodeBytes; hide EncodeVarint; hide EncodeAll; hide FieldsOf; hide FieldBytes;
    hide EncodeReactionKey;
    var items := KeyItems(key);
    KeyItemsEncode(key);
    ParseEncoded(items);
    FieldsOfEach(items);
    LookupEncoded(items, |items| - 1);
    if Truthy(key.remoteJid) {
      LookupEncoded(items, 0);
    }
  }

  lemma OneOrNone(items: seq<Item>)
    requires |items| <= 1
    ensures EncodeAll(items) == if items == [] then [] else Encode(items[0])
    ensures FieldsOf(items) == if items == [] then [] else [FieldOf(items[0])]
  {
  }

  lemma {:induction false} EncodeAllAppend(a: seq<Item>, b: seq<Item>)
    ensures EncodeAll(a + b) == EncodeAll(a) + EncodeAll(b)
    ensures FieldsOf(a + b) == FieldsOf(a) + FieldsOf(b)
  {
    if a == [] {
      assert a + b == b;
    } else {
      assert (a + b)[1..] == a[1..] + b;
      EncodeAllAppend(a[1..], b);
    }
  }

  lemma ReactionRoundTrip(r: Reaction)
    requires Short(Content(None, None, Some(r)))
    ensures DecodeReaction(EncodeReaction(r)) == Ok(Carried(Content(None, None, Some(r))))
    ensures |EncodeReaction(r)| < 0x5000_0000
  {
    hide ReadFields; hide EncodeBytes; hide EncodeReactionKey; hide EncodeAll; hide FieldsOf; hide FieldBytes;
    var keyed := r.key.Some? && Truthy(r.key.value.id);
    var key := if keyed then [Data(1, EncodeReactionKey(r.key.value))] else [];
    var text := if r.text.Some? then [Data(2, r.text.value)] else [];
    if keyed {
      KeyRoundTrip(r.key.value);
      KeyLength(r.key.value);
      SmallLength(1, EncodeReactionKey(r.key.value));
    }
    if r.text.Some? {
      SmallLength(2, r.text.value);
    }
    OneOrNone(key);
    OneOrNone(text);
    EncodeAllAppend(key, text);
    var items := key + text;
    assert EncodeAll(items) == EncodeReaction(r);
    ParseEncoded(items);
    assert FieldsOf(items) == FieldsOf(key) + FieldsOf(text);
    if keyed {
      LookupEncoded(items, 0);
    }
    if r.text.Some? {
      LookupEncoded(items, |items| - 1);
    }
  }

  lemma KeyLength(key: MessageKey)
    requires Truthy(key.id) && |key.id.value| < 0x1000_0000 && LengthOf(key.remoteJid) < 0x1000_0000
    ensures |EncodeReactionKey(key)| < 0x2000_0000 + 100
  {
    hide EncodeBytes;
    SmallLength(3, key.id.value);
    if Truthy(key.remoteJid) {
      SmallLength(1, key.remoteJid.value);
    }
    if key.fromMe.Some? {
      VarintShort(16);
      VarintShort(1);
      VarintShort(0);
    }
  }

  /** Round trip of every kind of content with an encoding; anything else arrives as empty text. */
  lemma ContentRoundTrip(c: Content)
    requires Short(c)
    ensures DecodeContent(EncodeContent(c)) == Carried(c)
  {
    hide ReadFields; hide EncodeBytes; hide EncodeReaction; hide DecodeReaction;
    if Truthy(c.conversation) {
      ParseOne(1, c.conversation.value);
    } else if Truthy(c.extendedText) {
      var text := c.extendedText.value;
      SmallLength(1, text);
      ParseOne(1, text);
      ParseOne(6, EncodeBytes(1, text));
    } else if c.reaction.Some? {
      ReactionRoundTrip(c.reaction.value);
      ParseOne(REACTION, EncodeReaction(c.reaction.value));
    } else {
      LegacyIsNoProto([]);
    }
  }

  /** Texts in the legacy envelope are still understood. */
  lemma LegacyRoundTrip(text: bytes)
    ensures DecodeContent(LegacyText(text)) == Conversation(text)
  {
    LegacyIsNoProto(text);
    hide DecodeProto;
    assert LegacyText(text)[..4] == LEGACY_MAGIC && LegacyText(text)[8..] == text;
  }

  /** The legacy envelope starts with a wire type that no field has. */
  lemma LegacyIsNoProto(text: bytes)
    ensures DecodeProto(LegacyText(text)).Err?
  {
    var buf := LegacyText(text);
    assert Varint(75) == [75];
    hide VarintFrom; hide Varint;
    VarintRoundTrip(75, buf[1..]);
    assert [75] + buf[1..] == buf;
    assert ReadField(buf).Err?;
  }

  // ----- which content wins -----

  /** The bytes of the first item with that number, among encoded fields. */
  function FirstData(items: seq<Item>, number: nat): Option<bytes> {
    if items == [] then None
    else if items[0].Data? && items[0].number == number then Some(items[0].data)
    else FirstData(items[1..], number)
  }

  lemma {:induction false} FirstDataIsLooked(items: seq<Item>, number: nat)
    ensures FieldBytes(FieldsOf(items), number) == FirstData(items, number)
  {
    if items != [] {
      FirstDataIsLooked(items[1..], number);
      assert FieldsOf(items) == [FieldOf(items[0])] + FieldsOf(items[1..]);
      assert FieldsOf(items)[1..] == FieldsOf(items[1..]);
    }
  }

  /**
   A buffer with several contents gives one of them: a non-empty conversation (field 1) before an
   extended text (field 6, its text in field 1), that before a reaction (field 46).
   */
  lemma FirstKindWins(items: seq<Item>, text: bytes, reaction: Reaction)
    requires forall it :: it in items ==> GoodItem(it)
    requires text != [] && |text| < 0x1000_0000 && Short(Content(None, None, Some(reaction)))
    ensures
      var c := DecodeContent(EncodeAll(items));
      var (one, six, many) := (FirstData(items, 1), FirstData(items, 6), FirstData(items, 46));
      && (Truthy(one) ==> c == Content(one, None, None))
      && (!Truthy(one) && six == Some(EncodeBytes(1, text)) ==> c == Content(None, Some(text), None))
      && (!Truthy(one) && six in {None, Some([])} && many == Some(EncodeReaction(reaction)) ==>
            c == Carried(Content(None, None, Some(reaction))))
  {
    hide ReadFields; hide EncodeBytes; hide EncodeReaction; hide DecodeReaction; hide FieldBytes; hide EncodeAll; hide FieldsOf;
    ParseEncoded(items);
    FirstDataIsLooked(items, 1);
    FirstDataIsLooked(items, 6);
    FirstDataIsLooked(items, 46);
    ParseOne(1, text);
    ReactionRoundTrip(reaction);
    NoFields();
  }

  lemma NoFields()
    ensures ReadFields([]) == Ok([]) && FieldBytes([], 1) == None
  {
  }

  /** Empty strings count as absent: for the two texts, and for the address and id of a reaction's key. */
  lemma EmptyIsAbsent(c: Content, jid: bytes, fromMe: Option<bool>, text: Option<bytes>)
    ensures EncodeContent(c.(conversation := Some([]))) == EncodeContent(c.(conversation := None))
    ensures c.conversation == None ==>
      EncodeContent(c.(extendedText := Some([]))) == EncodeContent(c.(extendedText := None))
    ensures
      var key := MessageKey(Some(jid), fromMe, Some([]));
      EncodeContent(Content(None, None, Some(Reaction(Some(key), text))))
        == EncodeContent(Content(None, None, Some(Reaction(None, text))))
    ensures
      var (bare, empty) := (MessageKey(None, fromMe, Some([1])), MessageKey(Some([]), fromMe, Some([1])));
      EncodeReactionKey(bare) == EncodeReactionKey(empty)
  {
    hide EncodeBytes;
  }

  /** A reaction's key by its fields: address in 1, id in 3, and anything of bytes in 2 as "not from me". */
  lemma ReactionKeyExactly(items: seq<Item>, text: bytes)
    requires forall it :: it in items ==> GoodItem(it)
    requires |EncodeAll(items)| < 0x1000_0000 && |text| < 0x1000_0000
    ensures DecodeReaction(EncodeBytes(1, EncodeAll(items)) + EncodeBytes(2, text))
      == Ok(Content(None, None, Some(Reaction(Some(KeyOf(items)), Some(text)))))
    ensures DecodeReaction(EncodeBytes(1, EncodeAll(items)))
      == Ok(Content(None, None, Some(Reaction(Some(KeyOf(items)), Some([])))))
  {
    hide ReadFields; hide EncodeBytes; hide EncodeAll; hide FieldsOf; hide FirstData;
    ParseEncoded(items);
    FirstDataIsLooked(items, 1);
    FirstDataIsLooked(items, 2);
    FirstDataIsLooked(items, 3);
    var data := EncodeAll(items);
    ParseTwo(1, data, 2, text);
    ParseOne(1, data);
    assert FieldBytes([BytesField(1, data)], 2) == None;
    hide FieldBytes;
    ReactionOfKey(EncodeBytes(1, data) + EncodeBytes(2, text), data, Some(text), FieldsOf(items));
    ReactionOfKey(EncodeBytes(1, data), data, None, FieldsOf(items));
  }

  function KeyOf(items: seq<Item>): MessageKey {
    MessageKey(FirstData(items, 1), if FirstData(items, 2).Some? then Some(false) else None, FirstData(items, 3))
  }

  lemma ReactionOfKey(buf: bytes, key: bytes, text: Option<bytes>, kf: seq<Field>)
    requires ReadFields(buf).Ok? && ReadFields(key) == Ok(kf)
    requires FieldBytes(ReadFields(buf).value, 1) == Some(key) && FieldBytes(ReadFields(buf).value, 2) == text
    ensures
      var fromMe := if FieldBytes(kf, 2).Some? then Some(false) else None;
      DecodeReaction(buf) == Ok(Content(None, None, Some(Reaction(
        Some(MessageKey(FieldBytes(kf, 1), fromMe, FieldBytes(kf, 3))), Some(if text.Some? then text.value else [])))))
  {
    hide ReadFields; hide FieldBytes;
  }
}

/**
 The handshake as the Noise Protocol Framework (revision 34) describes it: a symmetric state
 (section 5.2), messages as lists of tokens (section 5.3) and the XX pattern (section 7.5). The
 program's six message functions do exactly this, apart from empty key material (32 zero bytes).
 */
module NoiseStandard {
  import opened Prelude
  import opened Crypto
  import opened NoiseHandshake
  import Hkdf

  datatype Token = E | S | EE | ES | SE

  /** -> e, <- e, ee, s, es, -> s, se */
  const XX_1 := [E]
  const XX_2 := [E, EE, S, ES]
  const XX_3 := [S, SE]

  /** "Noise_XX_25519_AESGCM_SHA256" */
  const NAME_BYTES: bytes :=
    [78, 111, 105, 115, 101, 95, 88, 88, 95, 50, 53, 53, 49, 57, 95, 65, 69, 83, 71, 67, 77, 95, 83, 72, 65, 50, 53, 54]

  // ----- the symmetric state -----

  datatype Symmetric = Symmetric(ck: bytes, h: bytes, k: Option<bytes>, n: nat)

  function SymmetricOf(s: State): Symmetric {
    Symmetric(s.ck, s.h, s.k, s.n)
  }

  /** The name padded with zeros to the hash length is both the chaining key and what the prologue is hashed behind. */
  function InitializeSymmetric(c: Primitives, prologue: bytes): Symmetric {
    var name := NAME_BYTES + [0, 0, 0, 0];
    Symmetric(name, c.sha256(name + prologue), None, 0)
  }

  function MixHashed(c: Primitives, y: Symmetric, data: bytes): Symmetric {
    y.(h := c.sha256(y.h + data))
  }

  /** HKDF with the chaining key as salt and no info: first output the chaining key, second the cipher key. */
  function MixKeyed(c: Primitives, y: Symmetric, material: bytes): Symmetric
    requires Lawful(c)
  {
    var out := Hkdf.Derive(c, if material == [] then seq(32, i => 0) else material, 64, [], y.ck);
    Symmetric(out[..32], y.h, Some(out[32..]), 0)
  }

  /** Four zero bytes and the counter as eight bytes, most significant first. */
  function AesGcmNonce(n: nat): bytes {
    [0, 0, 0, 0,
     n / 0x100_0000_0000_0000 % 0x100, n / 0x1_0000_0000_0000 % 0x100, n / 0x100_0000_0000 % 0x100,
     n / 0x1_0000_0000 % 0x100, n / 0x100_0000 % 0x100, n / 0x1_0000 % 0x100, n / 0x100 % 0x100, n % 0x100]
  }

  /** With a key: sealed with the hash as associated data, the ciphertext then hashed, the nonce spent. */
  function EncryptAndHashed(c: Primitives, y: Symmetric, plaintext: bytes): (Symmetric, bytes) {
    match y.k
    case None => (MixHashed(c, y, plaintext), plaintext)
    case Some(k) =>
      var ct := c.seal(k, AesGcmNonce(y.n), y.h, plaintext);
      (MixHashed(c, y, ct).(n := y.n + 1), ct)
  }

  function DecryptAndHashed(c: Primitives, y: Symmetric, ciphertext: bytes): Option<(Symmetric, bytes)> {
    match y.k
    case None => Some((MixHashed(c, y, ciphertext), ciphertext))
    case Some(k) =>
      if |ciphertext| < 16 then None else
      match c.open(k, AesGcmNonce(y.n), y.h, ciphertext)
      case None => None
      case Some(p) => Some((MixHashed(c, y, ciphertext).(n := y.n + 1), p))
  }

  // ----- tokens -----

  /** One party's keys, and what it knows of the other's. */
  datatype Keys = Keys(initiator: bool, s: KeyPair, e: KeyPair, rs: Option<bytes>, re: Option<bytes>)

  function KeysOf(s: State): Keys {
    Keys(s.role == Initiator, s.staticPair, s.ephemeral, s.remoteStatic, s.remoteEphemeral)
  }

  /** The Diffie-Hellman function of a token; keys have 32 bytes. */
  function TokenSecret(c: Primitives, t: Token, k: Keys): Option<bytes> {
    var (own, theirs) := match t
      case EE => (k.e.priv, k.re)
      case ES => if k.initiator then (k.e.priv, k.rs) else (k.s.priv, k.re)
      case SE => if k.initiator then (k.s.priv, k.re) else (k.e.priv, k.rs)
      case _ => ([], None);
    if theirs.None? || |own| != 32 || |theirs.value| != 32 then None else Some(c.agree(own, theirs.value))
  }

  /** What one token does when written: the new state and the bytes it adds; None when a key is missing or too short. */
  function WriteToken(c: Primitives, y: Symmetric, k: Keys, t: Token): Option<(Symmetric, bytes)>
    requires Lawful(c)
  {
    match t
    case E => Some((MixHashed(c, y, k.e.pub), k.e.pub))
    case S => Some(EncryptAndHashed(c, y, k.s.pub))
    case _ =>
      match TokenSecret(c, t, k)
      case None => None
      case Some(secret) => Some((MixKeyed(c, y, secret), []))
  }

  function WriteTokens(c: Primitives, y: Symmetric, k: Keys, tokens: seq<Token>): Option<(Symmetric, bytes)>
    requires Lawful(c)
    decreases |tokens|
  {
    if tokens == [] then Some((y, [])) else
    match WriteToken(c, y, k, tokens[0])
    case None => None
    case Some((y1, out)) =>
      match WriteTokens(c, y1, k, tokens[1..])
      case None => None
      case Some((y2, rest)) => Some((y2, out + rest))
  }

  /** A whole message: its tokens, then the payload. */
  function Write(c: Primitives, y: Symmetric, k: Keys, tokens: seq<Token>, payload: bytes): Option<(Symmetric, bytes)>
    requires Lawful(c)
  {
    match WriteTokens(c, y, k, tokens)
    case None => None
    case Some((y1, out)) =>
      var (y2, ct) := EncryptAndHashed(c, y1, payload);
      Some((y2, out + ct))
  }

  /** What one token does when read: the new state and keys, and the bytes behind its own. */
  function ReadToken(c: Primitives, y: Symmetric, k: Keys, t: Token, message: bytes): Option<(Symmetric, Keys, bytes)>
    requires Lawful(c)
  {
    match t
    case E =>
      if |message| < 32 then None
      else Some((MixHashed(c, y, message[..32]), k.(re := Some(message[..32])), message[32..]))
    case S =>
      var size := if y.k.Some? then 48 else 32;
      if |message| < size then None else
      (match DecryptAndHashed(c, y, message[..size])
       case None => None
       case Some((y1, rs)) => Some((y1, k.(rs := Some(rs)), message[size..])))
    case _ =>
      match TokenSecret(c, t, k)
      case None => None
      case Some(secret) => Some((MixKeyed(c, y, secret), k, message))
  }

  function ReadTokens(c: Primitives, y: Symmetric, k: Keys, tokens: seq<Token>, message: bytes)
    : Option<(Symmetric, Keys, bytes)>
    requires Lawful(c)
    decreases |tokens|
  {
    if tokens == [] then Some((y, k, message)) else
    match ReadToken(c, y, k, tokens[0], message)
    case None => None
    case Some((y1, k1, rest)) => ReadTokens(c, y1, k1, tokens[1..], rest)
  }

  /** A whole message: its tokens, then the payload is what is left. */
  function Read(c: Primitives, y: Symmetric, k: Keys, tokens: seq<Token>, message: bytes): Option<(Symmetric, Keys, bytes)>
    requires Lawful(c)
  {
    match ReadTokens(c, y, k, tokens, message)
    case None => None
    case Some((y1, k1, rest)) =>
      match DecryptAndHashed(c, y1, rest)
      case None => None
      case Some((y2, payload)) => Some((y2, k1, payload))
  }

  // ----- the pieces agree -----

  lemma NameIsBytes()
    ensures Ascii(PROTOCOL_NAME) == NAME_BYTES
  {
  }

  lemma StartIsStandard(c: Primitives, role: Role, staticPair: KeyPair, ephemeral: KeyPair, prologue: bytes)
    ensures
      var s := Start(c, role, staticPair, ephemeral, prologue);
      && SymmetricOf(s) == InitializeSymmetric(c, prologue)
      && KeysOf(s) == Keys(role == Initiator, staticPair, ephemeral, None, None) && s.step == 0
  {
    NameIsBytes();
    assert Zeros(4) == [0, 0, 0, 0];
  }

  lemma NonceIsStandard(n: nat)
    ensures NonceBytes(n) == AesGcmNonce(n)
  {
    var high := n / 0x1_0000_0000;
    assert high / 0x100_0000 == n / 0x100_0000_0000_0000;
    assert high / 0x1_0000 == n / 0x1_0000_0000_0000;
    assert high / 0x100 == n / 0x100_0000_0000;
  }

  lemma MixKeyIsStandard(c: Primitives, s: State, input: bytes)
    requires Lawful(c) && s.ck != []
    ensures SymmetricOf(MixKey(c, s, input)) == MixKeyed(c, SymmetricOf(s), input)
    ensures KeysOf(MixKey(c, s, input)) == KeysOf(s) && MixKey(c, s, input).ck != []
  {
    Derive2IsRfc(c, s.ck, input);
    var (out1, out2) := Derive2(c, s.ck, input);
    assert Zeros(32) == seq(32, i => 0);
    assert |out1| == 32 && (out1 + out2)[..32] == out1 && (out1 + out2)[32..] == out2;
  }

  lemma EncryptIsStandard(c: Primitives, s: State, plaintext: bytes)
    ensures
      var (s', ct) := EncryptAndHash(c, s, plaintext);
      (SymmetricOf(s'), ct) == EncryptAndHashed(c, SymmetricOf(s), plaintext) && KeysOf(s') == KeysOf(s)
  {
    NonceIsStandard(s.n);
  }

  lemma DecryptIsStandard(c: Primitives, s: State, ciphertext: bytes)
    ensures
      var (s', r) := DecryptAndHash(c, s, ciphertext);
      var d := DecryptAndHashed(c, SymmetricOf(s), ciphertext);
      && r.Ok? == d.Some? && (r.Ok? ==> d.value == (SymmetricOf(s'), r.value)) && KeysOf(s') == KeysOf(s)
      && (r.Err? ==> s' == s)
  {
    NonceIsStandard(s.n);
  }

  // ----- the messages agree -----

  lemma WriteFour(c: Primitives, y: Symmetric, k: Keys, y1: Symmetric, y2: Symmetric, y3: Symmetric, o1: bytes, o3: bytes)
    requires Lawful(c)
    requires WriteToken(c, y, k, E) == Some((y1, o1)) && WriteToken(c, y1, k, EE) == Some((y2, []))
    requires WriteToken(c, y2, k, S) == Some((y3, o3))
    ensures WriteTokens(c, y, k, XX_2) == match WriteToken(c, y3, k, ES)
      case None => None
      case Some((y4, o4)) => Some((y4, o1 + o3 + o4))
  {
    hide WriteToken;
    var (t1, t2, t3) := ([EE, S, ES], [S, ES], [ES]);
    assert XX_2[1..] == t1 && t1[1..] == t2 && t2[1..] == t3 && t3[1..] == [];
    var w3 := WriteTokens(c, y3, k, t3);
    var last := WriteToken(c, y3, k, ES);
    assert last.Some? ==> WriteTokens(c, last.value.0, k, []) == Some((last.value.0, []));
    assert w3 == match last case None => None case Some((y4, o4)) => Some((y4, o4 + []));
    var w2 := WriteTokens(c, y2, k, t2);
    assert w2 == match w3 case None => None case Some((y4, o4)) => Some((y4, o3 + o4));
    var w1 := WriteTokens(c, y1, k, t1);
    assert w1 == match w2 case None => None case Some((y4, o4)) => Some((y4, [] + o4));
    assert WriteTokens(c, y, k, XX_2) == match w1 case None => None case Some((y4, o4)) => Some((y4, o1 + o4));
    if last.Some? {
      assert o1 + ([] + (o3 + (last.value.1 + []))) == o1 + o3 + last.value.1;
    }
  }

  /** The program's first message is the token list without the empty payload that the standard hashes behind it. */
  lemma WriteMessage1IsStandard(c: Primitives, s: State)
    requires Lawful(c) && s.role == Initiator && s.step == 0
    ensures
      var (s', r) := WriteMessage1(c, s);
      && r.Ok? && WriteTokens(c, SymmetricOf(s), KeysOf(s), XX_1) == Some((SymmetricOf(s'), r.value))
      && s'.step == 1 && KeysOf(s') == KeysOf(s)
  {
    assert XX_1[1..] == [];
    assert s.ephemeral.pub + [] == s.ephemeral.pub;
  }

  lemma ReadMessage1IsStandard(c: Primitives, s: State, message: bytes)
    requires Lawful(c) && s.role == Responder && s.step == 0
    ensures
      var (s', r) := ReadMessage1(c, s, message);
      var d := ReadTokens(c, SymmetricOf(s), KeysOf(s), XX_1, message);
      && r.Ok? == d.Some?
      && (r.Ok? ==> d.value.0 == SymmetricOf(s') && d.value.1 == KeysOf(s') && s'.step == 1)
  {
    assert XX_1[1..] == [];
  }

  /** The responder's message is that of the standard, for every payload. */
  lemma WriteMessageAIsStandard(c: Primitives, s: State, payload: bytes)
    requires Lawful(c) && s.role == Responder && s.step == 1 && s.ck != []
    ensures
      var (s', r) := WriteMessageA(c, s, payload);
      var w := Write(c, SymmetricOf(s), KeysOf(s), XX_2, payload);
      && r.Ok? == w.Some?
      && (r.Ok? ==> w.value == (SymmetricOf(s'), r.value) && s'.step == 2 && KeysOf(s') == KeysOf(s))
  {
    hide MixKeyed; hide MixKey; hide EncryptAndHash; hide EncryptAndHashed; hide Derive2;
    var (y, k) := (SymmetricOf(s), KeysOf(s));
    assert XX_2[1..] == [EE, S, ES];
    if s.remoteEphemeral.Some? {
      var re := s.remoteEphemeral.value;
      var s1 := MixHash(c, s, s.ephemeral.pub);
      if |s.ephemeral.priv| == 32 && |re| == 32 {
        var secret := c.agree(s.ephemeral.priv, re);
        var s2 := MixKey(c, s1, secret);
        MixKeyIsStandard(c, s1, secret);
        var (s3, encStatic) := EncryptAndHash(c, s2, s.staticPair.pub);
        EncryptIsStandard(c, s2, s.staticPair.pub);
        WriteFour(c, y, k, SymmetricOf(s1), SymmetricOf(s2), SymmetricOf(s3), s.ephemeral.pub, encStatic);
        if |s.staticPair.priv| == 32 {
          var es := c.agree(s.staticPair.priv, re);
          CkStays(c, s2, s.staticPair.pub);
          MixKeyIsStandard(c, s3, es);
          EncryptIsStandard(c, MixKey(c, s3, es), payload);
          assert s.ephemeral.pub + encStatic + [] == s.ephemeral.pub + encStatic;
        }
      }
    }
  }

  lemma CkStays(c: Primitives, s: State, data: bytes)
    ensures EncryptAndHash(c, s, data).0.ck == s.ck && DecryptAndHash(c, s, data).0.ck == s.ck
    ensures EncryptAndHash(c, s, data).0.k.Some? == s.k.Some? && DecryptAndHash(c, s, data).0.k.Some? == s.k.Some?
  {
  }

  /** So is the initiator's last message. */
  lemma WriteMessageBIsStandard(c: Primitives, s: State, payload: bytes)
    requires Lawful(c) && s.role == Initiator && s.step == 2 && s.ck != []
    ensures
      var (s', r) := WriteMessageB(c, s, payload);
      var w := Write(c, SymmetricOf(s), KeysOf(s), XX_3, payload);
      && r.Ok? == w.Some?
      && (r.Ok? ==> w.value == (SymmetricOf(s'), r.value) && s'.step == 3 && KeysOf(s') == KeysOf(s))
  {
    hide MixKeyed; hide MixKey; hide EncryptAndHash; hide EncryptAndHashed; hide Derive2;
    assert XX_3[1..] == [SE] && [SE][1..] == [];
    var (s1, encStatic) := EncryptAndHash(c, s, s.staticPair.pub);
    EncryptIsStandard(c, s, s.staticPair.pub);
    CkStays(c, s, s.staticPair.pub);
    if s.remoteEphemeral.Some? && |s.staticPair.priv| == 32 && |s.remoteEphemeral.value| == 32 {
      var se := c.agree(s.staticPair.priv, s.remoteEphemeral.value);
      MixKeyIsStandard(c, s1, se);
      EncryptIsStandard(c, MixKey(c, s1, se), payload);
      assert encStatic + ([] + []) == encStatic;
    }
  }

  /** What the payload step of the program makes of the rest of a message: an empty rest passes unread. */
  ghost predicate PayloadRead(c: Primitives, y: Symmetric, rest: bytes, s': State, payload: bytes)
  {
    if rest == [] then SymmetricOf(s') == y && payload == []
    else DecryptAndHashed(c, y, rest) == Some((SymmetricOf(s'), payload))
  }

  lemma ReadPayloadIsStandard(c: Primitives, s: State, rest: bytes, step: nat)
    ensures
      var (s', r) := ReadPayload(c, s, rest, step);
      && (r.Ok? <==> rest == [] || DecryptAndHashed(c, SymmetricOf(s), rest).Some?)
      && (r.Ok? ==> PayloadRead(c, SymmetricOf(s), rest, s', r.value))
      && (r.Ok? ==> KeysOf(s') == KeysOf(s) && s'.step == step && s'.remotePayload == Some(r.value))
  {
    DecryptIsStandard(c, s, rest);
  }

  /**
   The initiator accepts a message exactly if its tokens read and its payload authenticates, or if
   nothing follows the tokens: then the payload counts as empty where the standard would refuse.
   */
  lemma ReadMessageAIsStandard(c: Primitives, s: State, message: bytes)
    requires Lawful(c) && s.role == Initiator && s.step == 1 && s.ck != []
    ensures
      var (s', r) := ReadMessageA(c, s, message);
      var d := ReadTokens(c, SymmetricOf(s), KeysOf(s), XX_2, message);
      && (r.Ok? <==> d.Some? && (d.value.2 == [] || DecryptAndHashed(c, d.value.0, d.value.2).Some?))
      && (r.Ok? ==> PayloadRead(c, d.value.0, d.value.2, s', r.value) && KeysOf(s') == d.value.1 && s'.step == 2)
  {
    hide MixKeyed; hide MixKey; hide DecryptAndHash; hide DecryptAndHashed; hide Derive2; hide ReadPayload; hide PayloadRead;
    assert XX_2[1..] == [EE, S, ES] && [EE, S, ES][1..] == [S, ES] && [S, ES][1..] == [ES] && [ES][1..] == [];
    if |message| >= 32 && |s.ephemeral.priv| == 32 {
      var (re, rest) := (message[..32], message[32..]);
      var s1 := MixHash(c, s.(remoteEphemeral := Some(re)), re);
      var ee := c.agree(s.ephemeral.priv, re);
      var s2 := MixKey(c, s1, ee);
      MixKeyIsStandard(c, s1, ee);
      KeyAfterMix(c, s1, ee);
      var (k1, k2) := (KeysOf(s1), KeysOf(s2));
      assert ReadTokens(c, SymmetricOf(s), KeysOf(s), XX_2, message)
        == ReadTokens(c, SymmetricOf(s1), k1, [EE, S, ES], rest) == ReadTokens(c, SymmetricOf(s2), k2, [S, ES], rest);
      if |rest| >= 48 {
        var (s3, r3) := DecryptAndHash(c, s2, rest[..48]);
        DecryptIsStandard(c, s2, rest[..48]);
        CkStays(c, s2, rest[..48]);
        if r3.Ok? {
          var s3' := s3.(remoteStatic := Some(r3.value));
          assert ReadTokens(c, SymmetricOf(s2), k2, [S, ES], rest)
            == ReadTokens(c, SymmetricOf(s3'), KeysOf(s3'), [ES], rest[48..]);
          if |r3.value| == 32 {
            var es := c.agree(s.ephemeral.priv, r3.value);
            MixKeyIsStandard(c, s3', es);
            ReadPayloadIsStandard(c, MixKey(c, s3', es), rest[48..], 2);
          }
        }
      }
    }
  }

  lemma KeyAfterMix(c: Primitives, s: State, input: bytes)
    ensures MixKey(c, s, input).k.Some?
    ensures KeysOf(MixKey(c, s, input)) == KeysOf(s)
  {
  }

  lemma ReadMessageBIsStandard(c: Primitives, s: State, message: bytes)
    requires Lawful(c) && s.role == Responder && s.step == 2 && s.ck != [] && s.k.Some?
    ensures
      var (s', r) := ReadMessageB(c, s, message);
      var d := ReadTokens(c, SymmetricOf(s), KeysOf(s), XX_3, message);
      && (r.Ok? <==> d.Some? && (d.value.2 == [] || DecryptAndHashed(c, d.value.0, d.value.2).Some?))
      && (r.Ok? ==> PayloadRead(c, d.value.0, d.value.2, s', r.value) && KeysOf(s') == d.value.1 && s'.step == 3)
  {
    hide MixKeyed; hide MixKey; hide DecryptAndHash; hide DecryptAndHashed; hide Derive2; hide ReadPayload; hide PayloadRead;
    assert XX_3[1..] == [SE] && [SE][1..] == [];
    if |message| >= 48 {
      var (s1, r1) := DecryptAndHash(c, s, message[..48]);
      DecryptIsStandard(c, s, message[..48]);
      CkStays(c, s, message[..48]);
      if r1.Ok? {
        var s1' := s1.(remoteStatic := Some(r1.value));
        assert ReadTokens(c, SymmetricOf(s), KeysOf(s), XX_3, message)
          == ReadTokens(c, SymmetricOf(s1'), KeysOf(s1'), [SE], message[48..]);
        if |s.ephemeral.priv| == 32 && |r1.value| == 32 {
          var se := c.agree(s.ephemeral.priv, r1.value);
          MixKeyIsStandard(c, s1', se);
          ReadPayloadIsStandard(c, MixKey(c, s1', se), message[48..], 3);
        }
      }
    }
  }

  /** Out of turn or in the wrong role every message function fails and leaves the state alone. */
  lemma OutOfTurn(c: Primitives, s: State, data: bytes)
    ensures !(s.role == Initiator && s.step == 0) ==> WriteMessage1(c, s).1.Err? && WriteMessage1(c, s).0 == s
    ensures !(s.role == Responder && s.step == 0) ==> ReadMessage1(c, s, data).1.Err? && ReadMessage1(c, s, data).0 == s
    ensures !(s.role == Responder && s.step == 1) ==> WriteMessageA(c, s, data).1.Err? && WriteMessageA(c, s, data).0 == s
    ensures !(s.role == Initiator && s.step == 1) ==> ReadMessageA(c, s, data).1.Err? && ReadMessageA(c, s, data).0 == s
    ensures !(s.role == Initiator && s.step == 2) ==> WriteMessageB(c, s, data).1.Err? && WriteMessageB(c, s, data).0 == s
    ensures !(s.role == Responder && s.step == 2) ==> ReadMessageB(c, s, data).1.Err? && ReadMessageB(c, s, data).0 == s
    ensures s.step != 3 ==> Split(c, s).Err?
  {
  }

  /**
   The split: the first derived key is the initiator's to send under and the responder's to read
   under, the second the other way round; both count from zero.
   */
  lemma SplitExactly(c: Primitives, s: State)
    requires Lawful(c) && s.ck != []
    ensures Split(c, s).Ok? <==> s.step == 3
    ensures s.step == 3 ==>
      var keys := Split(c, s).value;
      var out := Hkdf.Derive(c, seq(32, i => 0), 64, [], s.ck);
      && (if s.role == Initiator then keys.sendKey + keys.recvKey else keys.recvKey + keys.sendKey) == out
      && |keys.sendKey| == 32 && |keys.recvKey| == 32 && keys.writeNonce == 0 && keys.readNonce == 0
      && keys.remoteStatic == s.remoteStatic && keys.handshakeHash == s.h
  {
    Derive2IsRfc(c, s.ck, []);
    assert Zeros(32) == seq(32, i => 0);
  }

  // ----- what an error leaves behind -----

  /** The symmetric state after the leading tokens that can be written. */
  function WriteProgress(c: Primitives, y: Symmetric, k: Keys, tokens: seq<Token>): Symmetric
    requires Lawful(c)
    decreases |tokens|
  {
    if tokens == [] then y else
    match WriteToken(c, y, k, tokens[0])
    case None => y
    case Some((y1, _)) => WriteProgress(c, y1, k, tokens[1..])
  }

  /** The symmetric state and the keys after the leading tokens that can be read. */
  function ReadProgress(c: Primitives, y: Symmetric, k: Keys, tokens: seq<Token>, message: bytes): (Symmetric, Keys)
    requires Lawful(c)
    decreases |tokens|
  {
    if tokens == [] then (y, k) else
    match ReadToken(c, y, k, tokens[0], message)
    case None => (y, k)
    case Some((y1, k1, rest)) => ReadProgress(c, y1, k1, tokens[1..], rest)
  }

  /** A writing error, once the other side's ephemeral key is known, leaves the state behind the tokens done so far. */
  lemma WriteErrorLeaves(c: Primitives, s: State, payload: bytes)
    requires Lawful(c) && s.ck != [] && s.remoteEphemeral.Some?
    ensures s.role == Responder && s.step == 1 && WriteMessageA(c, s, payload).1.Err? ==>
      var s' := WriteMessageA(c, s, payload).0;
      SymmetricOf(s') == WriteProgress(c, SymmetricOf(s), KeysOf(s), XX_2) && KeysOf(s') == KeysOf(s) && s'.step == 1
    ensures s.role == Initiator && s.step == 2 && WriteMessageB(c, s, payload).1.Err? ==>
      var s' := WriteMessageB(c, s, payload).0;
      SymmetricOf(s') == WriteProgress(c, SymmetricOf(s), KeysOf(s), XX_3) && KeysOf(s') == KeysOf(s) && s'.step == 2
  {
    hide WriteMessageA; hide WriteMessageB; hide WriteProgress;
    if s.role == Responder && s.step == 1 {
      WriteAErrorLeaves(c, s, payload);
    }
    if s.role == Initiator && s.step == 2 {
      WriteBErrorLeaves(c, s, payload);
    }
  }

  lemma WriteAErrorLeaves(c: Primitives, s: State, payload: bytes)
    requires Lawful(c) && s.ck != [] && s.remoteEphemeral.Some? && s.role == Responder && s.step == 1
    ensures WriteMessageA(c, s, payload).1.Err? ==>
      var s' := WriteMessageA(c, s, payload).0;
      SymmetricOf(s') == WriteProgress(c, SymmetricOf(s), KeysOf(s), XX_2) && KeysOf(s') == KeysOf(s) && s'.step == 1
  {
    hide MixKeyed; hide MixKey; hide EncryptAndHash; hide EncryptAndHashed; hide Derive2;
    assert XX_2[1..] == [EE, S, ES] && [EE, S, ES][1..] == [S, ES] && [S, ES][1..] == [ES] && [ES][1..] == [];
    var s1 := MixHash(c, s, s.ephemeral.pub);
    var ee := c.agree(s.ephemeral.priv, s.remoteEphemeral.value);
    MixKeyIsStandard(c, s1, ee);
    EncryptIsStandard(c, MixKey(c, s1, ee), s.staticPair.pub);
    EncryptKeeps(c, MixKey(c, s1, ee), s.staticPair.pub);
    MixKeyKeeps(c, s1, ee);
  }

  lemma WriteBErrorLeaves(c: Primitives, s: State, payload: bytes)
    requires Lawful(c) && s.ck != [] && s.remoteEphemeral.Some? && s.role == Initiator && s.step == 2
    ensures WriteMessageB(c, s, payload).1.Err? ==>
      var s' := WriteMessageB(c, s, payload).0;
      SymmetricOf(s') == WriteProgress(c, SymmetricOf(s), KeysOf(s), XX_3) && KeysOf(s') == KeysOf(s) && s'.step == 2
  {
    hide MixKeyed; hide MixKey; hide EncryptAndHash; hide EncryptAndHashed; hide Derive2;
    assert XX_3[1..] == [SE] && [SE][1..] == [];
    EncryptIsStandard(c, s, s.staticPair.pub);
    EncryptKeeps(c, s, s.staticPair.pub);
  }

  lemma EncryptKeeps(c: Primitives, s: State, data: bytes)
    ensures EncryptAndHash(c, s, data).0.step == s.step && EncryptAndHash(c, s, data).0.role == s.role
    ensures DecryptAndHash(c, s, data).0.step == s.step && DecryptAndHash(c, s, data).0.role == s.role
  {
  }

  lemma MixKeyKeeps(c: Primitives, s: State, input: bytes)
    ensures MixKey(c, s, input).step == s.step && MixKey(c, s, input).role == s.role
  {
  }

  /**
   A reading error leaves the state behind the tokens read so far, with the keys learned from them; a
   static key of another length than 32, which no sealed 48 bytes hold, is the one thing not kept.
   */
  lemma ReadErrorLeaves(c: Primitives, s: State, message: bytes)
    requires Lawful(c) && s.ck != [] && s.role == Initiator && s.step == 1 && ReadMessageA(c, s, message).1.Err?
    ensures
      var s' := ReadMessageA(c, s, message).0;
      var (y, k) := ReadProgress(c, SymmetricOf(s), KeysOf(s), XX_2, message);
      && SymmetricOf(s') == y && s'.step == 1
      && (k.rs.None? || |k.rs.value| == 32 || k.rs == s.remoteStatic ==> KeysOf(s') == k)
  {
    hide MixKeyed; hide MixKey; hide DecryptAndHash; hide DecryptAndHashed; hide Derive2; hide ReadPayload;
    assert XX_2[1..] == [EE, S, ES] && [EE, S, ES][1..] == [S, ES] && [S, ES][1..] == [ES] && [ES][1..] == [];
    if |message| >= 32 {
      var (re, rest) := (message[..32], message[32..]);
      var s1 := MixHash(c, s.(remoteEphemeral := Some(re)), re);
      if |s.ephemeral.priv| == 32 {
        var ee := c.agree(s.ephemeral.priv, re);
        var s2 := MixKey(c, s1, ee);
        MixKeyIsStandard(c, s1, ee);
        MixKeyKeeps(c, s1, ee);
        KeyAfterMix(c, s1, ee);
        assert ReadProgress(c, SymmetricOf(s), KeysOf(s), XX_2, message)
          == ReadProgress(c, SymmetricOf(s2), KeysOf(s2), [S, ES], rest);
        if |rest| >= 48 {
          StaticErrorLeaves(c, s2, rest);
        }
      }
    }
  }

  /** The reading of the static key and what follows it, from the state behind the first exchange. */
  function ReadStatic(c: Primitives, s: State, rest: bytes): (State, Result<bytes>)
    requires |rest| >= 48
  {
    var (s3, r3) := DecryptAndHash(c, s, rest[..48]);
    if r3.Err? then (s3, r3)
    else if |r3.value| != DH_LEN then (s3, Err("remote static key length invalid")) else
    var (s4, r4) := MixDh(c, s3.(remoteStatic := Some(r3.value)), s.ephemeral.priv, r3.value);
    if r4.Err? then (s4, r4) else
    ReadPayload(c, s4, rest[48..], 2)
  }

  lemma StaticErrorLeaves(c: Primitives, s: State, rest: bytes)
    requires Lawful(c) && s.ck != [] && s.role == Initiator && s.step == 1 && s.k.Some?
    requires |rest| >= 48 && ReadStatic(c, s, rest).1.Err? && |s.ephemeral.priv| == 32
    ensures
      var s' := ReadStatic(c, s, rest).0;
      var (y, k) := ReadProgress(c, SymmetricOf(s), KeysOf(s), [S, ES], rest);
      && SymmetricOf(s') == y && s'.step == 1
      && (k.rs.None? || |k.rs.value| == 32 || k.rs == s.remoteStatic ==> KeysOf(s') == k)
  {
    hide MixKeyed; hide MixKey; hide DecryptAndHash; hide DecryptAndHashed; hide Derive2; hide ReadPayload;
    assert [S, ES][1..] == [ES] && [ES][1..] == [];
    var (s3, r3) := DecryptAndHash(c, s, rest[..48]);
    DecryptIsStandard(c, s, rest[..48]);
    CkStays(c, s, rest[..48]);
    EncryptKeeps(c, s, rest[..48]);
    if r3.Ok? {
      var s3' := s3.(remoteStatic := Some(r3.value));
      assert ReadProgress(c, SymmetricOf(s), KeysOf(s), [S, ES], rest)
        == ReadProgress(c, SymmetricOf(s3'), KeysOf(s3'), [ES], rest[48..]);
      if |r3.value| == 32 {
        var es := c.agree(s.ephemeral.priv, r3.value);
        MixKeyIsStandard(c, s3', es);
        MixKeyKeeps(c, s3', es);
        PayloadErrorLeaves(c, MixKey(c, s3', es), rest[48..], 2);
      }
    }
  }

  lemma PayloadErrorLeaves(c: Primitives, s: State, rest: bytes, step: nat)
    ensures ReadPayload(c, s, rest, step).1.Err? ==> ReadPayload(c, s, rest, step).0 == s
  {
  }
}

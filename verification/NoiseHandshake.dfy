/**
 The Noise XX handshake (sections 5.2, 5.3 and 7.5 of the Noise Protocol Framework, revision 34).
 Ephemeral keys are parameters. One deviation of the program is kept: for empty input the key
 derivation uses 32 zero bytes.
 */
module NoiseHandshake {
  import opened Prelude
  import opened Crypto
  import Hkdf

  const PROTOCOL_NAME := "Noise_XX_25519_AESGCM_SHA256"
  const STATIC_LEN := DH_LEN + TAG_LEN

  datatype Role = Initiator | Responder

  datatype State = State(
    role: Role, step: nat,
    h: bytes, ck: bytes, k: Option<bytes>, n: nat,
    ephemeral: KeyPair, staticPair: KeyPair,
    remoteEphemeral: Option<bytes>, remoteStatic: Option<bytes>, remotePayload: Option<bytes>)

  datatype TransportKeys = TransportKeys(
    sendKey: bytes, recvKey: bytes, writeNonce: nat, readNonce: nat,
    remoteStatic: Option<bytes>, handshakeHash: bytes)

  // ----- symmetric state -----

  function Derive2(c: Primitives, ck: bytes, input: bytes): (bytes, bytes) {
    var temp := c.hmac(ck, if input == [] then Zeros(HASH_LEN) else input);
    var out1 := c.hmac(temp, [1]);
    (out1, c.hmac(temp, out1 + [2]))
  }

  /** The two outputs are the first two blocks of RFC 5869 with the chaining key as salt and no info. */
  lemma Derive2IsRfc(c: Primitives, ck: bytes, input: bytes)
    requires Lawful(c) && ck != []
    ensures
      var (out1, out2) := Derive2(c, ck, input);
      out1 + out2 == Hkdf.Derive(c, if input == [] then Zeros(HASH_LEN) else input, 2 * HASH_LEN, [], ck)
  {
    var prk := Hkdf.Extract(c, if input == [] then Zeros(HASH_LEN) else input, ck);
    var (b1, b2) := (Hkdf.Block(c, prk, [], 1), Hkdf.Block(c, prk, [], 2));
    assert Hkdf.Block(c, prk, [], 0) + [] + [1] == [1];
    assert b1 + [] + [2] == b1 + [2];
    assert Hkdf.Blocks(c, prk, [], 1) == [] + b1;
    assert Hkdf.Blocks(c, prk, [], 2) == b1 + b2;
  }

  /** Four zero bytes and a 64-bit big-endian counter. */
  function NonceBytes(n: nat): (r: bytes)
    ensures |r| == 12
  {
    [0, 0, 0, 0] + BE32(n / 0x1_0000_0000) + BE32(n)
  }

  method Nonce(n: nat) returns (r: bytes)
    ensures r == NonceBytes(n)
  {
    var nonce := new byte[12](i => 0);
    WriteUInt32BE(nonce, n / 0x1_0000_0000, 4);
    WriteUInt32BE(nonce, n, 8);
    r := nonce[..];
    assert r == [0, 0, 0, 0] + BE32(n / 0x1_0000_0000) + BE32(n);
  }

  function CounterOf(nonce: bytes): nat
    requires |nonce| == 12
  {
    Join32(nonce[4], nonce[5], nonce[6], nonce[7]) * 0x1_0000_0000 + Join32(nonce[8], nonce[9], nonce[10], nonce[11])
  }

  /** The counter can be read back from a nonce, so distinct counters below 2^64 give distinct nonces. */
  lemma CounterRoundTrip(n: nat)
    requires n < 0x1_0000_0000_0000_0000
    ensures CounterOf(NonceBytes(n)) == n
  {
    hide BE32; hide Join32;
    CounterOfWords(BE32(n / 0x1_0000_0000), BE32(n));
    JoinBE32(n);
    JoinBE32(n / 0x1_0000_0000);
    assert n / 0x1_0000_0000 % 0x1_0000_0000 == n / 0x1_0000_0000;
  }

  lemma CounterOfWords(high: bytes, low: bytes)
    requires |high| == 4 && |low| == 4
    ensures CounterOf([0, 0, 0, 0] + high + low)
      == Join32(high[0], high[1], high[2], high[3]) * 0x1_0000_0000 + Join32(low[0], low[1], low[2], low[3])
  {
    hide Join32;
  }

  function MixHash(c: Primitives, s: State, data: bytes): State {
    s.(h := c.sha256(s.h + data))
  }

  function MixKey(c: Primitives, s: State, input: bytes): State {
    var (ck, k) := Derive2(c, s.ck, input);
    s.(ck := ck, k := Some(k), n := 0)
  }

  function EncryptAndHash(c: Primitives, s: State, plaintext: bytes): (State, bytes) {
    if s.k.None? then (MixHash(c, s, plaintext), plaintext) else
    var ct := c.seal(s.k.value, NonceBytes(s.n), s.h, plaintext);
    (MixHash(c, s, ct).(n := s.n + 1), ct)
  }

  /** A failed decryption changes nothing. */
  function DecryptAndHash(c: Primitives, s: State, ciphertext: bytes): (State, Result<bytes>) {
    if s.k.None? then (MixHash(c, s, ciphertext), Ok(ciphertext))
    else if |ciphertext| < TAG_LEN then (s, Err("ciphertext too short"))
    else match c.open(s.k.value, NonceBytes(s.n), s.h, ciphertext)
      case None => (s, Err("unable to authenticate data"))
      case Some(p) => (MixHash(c, s, ciphertext).(n := s.n + 1), Ok(p))
  }

  function Dh(c: Primitives, priv: bytes, pub: bytes): Result<bytes> {
    if |priv| != DH_LEN || |pub| != DH_LEN then Err("DH keys must be 32 bytes") else Ok(c.agree(priv, pub))
  }

  /** Mixes a Diffie-Hellman result into the key, or reports bad key lengths. */
  function MixDh(c: Primitives, s: State, priv: bytes, pub: bytes): (State, Result<bytes>) {
    match Dh(c, priv, pub)
    case Err(e) => (s, Err(e))
    case Ok(secret) => (MixKey(c, s, secret), Ok([]))
  }

  // ----- the six messages and the split -----

  function Start(c: Primitives, role: Role, staticPair: KeyPair, ephemeral: KeyPair, prologue: bytes): State {
    var h0 := Ascii(PROTOCOL_NAME) + Zeros(HASH_LEN - |PROTOCOL_NAME|);
    State(role, 0, c.sha256(h0 + prologue), h0, None, 0, ephemeral, staticPair, None, None, None)
  }

  function WriteMessage1(c: Primitives, s: State): (State, Result<bytes>) {
    if s.role != Initiator || s.step != 0 then (s, Err("message1 invalid state")) else
    (MixHash(c, s, s.ephemeral.pub).(step := 1), Ok(s.ephemeral.pub))
  }

  function ReadMessage1(c: Primitives, s: State, message: bytes): (State, Result<bytes>) {
    if s.role != Responder || s.step != 0 then (s, Err("read1 invalid state"))
    else if |message| < DH_LEN then (s, Err("message1 too short")) else
    var re := message[..DH_LEN];
    (MixHash(c, s, re).(remoteEphemeral := Some(re), step := 1), Ok([]))
  }

  /** e, ee, s, es */
  function WriteMessageA(c: Primitives, s: State, payload: bytes): (State, Result<bytes>) {
    if s.role != Responder || s.step != 1 then (s, Err("write A invalid state"))
    else if s.remoteEphemeral.None? then (s, Err("missing remote e")) else
    var s1 := MixHash(c, s, s.ephemeral.pub);
    var (s2, r2) := MixDh(c, s1, s.ephemeral.priv, s.remoteEphemeral.value);
    if r2.Err? then (s2, r2) else
    var (s3, encStatic) := EncryptAndHash(c, s2, s.staticPair.pub);
    var (s4, r4) := MixDh(c, s3, s.staticPair.priv, s.remoteEphemeral.value);
    if r4.Err? then (s4, r4) else
    var (s5, encPayload) := EncryptAndHash(c, s4, payload);
    (s5.(step := 2), Ok(s.ephemeral.pub + encStatic + encPayload))
  }

  /** The optional payload at the end of a message. */
  function ReadPayload(c: Primitives, s: State, payloadEnc: bytes, step: nat): (State, Result<bytes>) {
    if payloadEnc == [] then (s.(remotePayload := Some([]), step := step), Ok([])) else
    var (s1, r) := DecryptAndHash(c, s, payloadEnc);
    if r.Err? then (s1, r) else (s1.(remotePayload := Some(r.value), step := step), r)
  }

  function ReadMessageA(c: Primitives, s: State, message: bytes): (State, Result<bytes>) {
    if s.role != Initiator || s.step != 1 then (s, Err("read A invalid state"))
    else if |message| < DH_LEN then (s, Err("message A too short")) else
    var re := message[..DH_LEN];
    var s1 := MixHash(c, s.(remoteEphemeral := Some(re)), re);
    var (s2, r2) := MixDh(c, s1, s.ephemeral.priv, re);
    if r2.Err? then (s2, r2) else
    var rest := message[DH_LEN..];
    if |rest| < STATIC_LEN then (s2, Err("message A missing encrypted static")) else
    var (s3, r3) := DecryptAndHash(c, s2, rest[..STATIC_LEN]);
    if r3.Err? then (s3, r3)
    else if |r3.value| != DH_LEN then (s3, Err("remote static key length invalid")) else
    var (s4, r4) := MixDh(c, s3.(remoteStatic := Some(r3.value)), s.ephemeral.priv, r3.value);
    if r4.Err? then (s4, r4) else
    ReadPayload(c, s4, rest[STATIC_LEN..], 2)
  }

  /** s, se */
  function WriteMessageB(c: Primitives, s: State, payload: bytes): (State, Result<bytes>) {
    if s.role != Initiator || s.step != 2 then (s, Err("message B invalid state"))
    else if s.remoteEphemeral.None? then (s, Err("missing remote ephemeral")) else
    var (s1, encStatic) := EncryptAndHash(c, s, s.staticPair.pub);
    var (s2, r2) := MixDh(c, s1, s.staticPair.priv, s.remoteEphemeral.value);
    if r2.Err? then (s2, r2) else
    var (s3, encPayload) := EncryptAndHash(c, s2, payload);
    (s3.(step := 3), Ok(encStatic + encPayload))
  }

  function ReadMessageB(c: Primitives, s: State, message: bytes): (State, Result<bytes>) {
    if s.role != Responder || s.step != 2 then (s, Err("read B invalid state"))
    else if |message| < STATIC_LEN then (s, Err("message B too short")) else
    var (s1, r1) := DecryptAndHash(c, s, message[..STATIC_LEN]);
    if r1.Err? then (s1, r1) else
    var (s2, r2) := MixDh(c, s1.(remoteStatic := Some(r1.value)), s.ephemeral.priv, r1.value);
    if r2.Err? then (s2, r2) else
    ReadPayload(c, s2, message[STATIC_LEN..], 3)
  }

  function Split(c: Primitives, s: State): Result<TransportKeys> {
    if s.step != 3 then Err("handshake incomplete") else
    var (k1, k2) := Derive2(c, s.ck, []);
    Ok(if s.role == Initiator
       then TransportKeys(k1, k2, 0, 0, s.remoteStatic, s.h)
       else TransportKeys(k2, k1, 0, 0, s.remoteStatic, s.h))
  }

  // ----- the handshake object of the program -----

  class Handshake {
    const role: Role
    const ephemeral: KeyPair
    const staticPair: KeyPair
    var step: nat
    var h: bytes
    var ck: bytes
    var k: Option<bytes>
    var n: nat
    var remoteEphemeral: Option<bytes>
    var remoteStatic: Option<bytes>
    var remotePayload: Option<bytes>

    ghost function View(): State
      reads this
    {
      State(role, step, h, ck, k, n, ephemeral, staticPair, remoteEphemeral, remoteStatic, remotePayload)
    }

    constructor (c: Primitives, role: Role, staticPair: KeyPair, ephemeral: KeyPair, prologue: bytes)
      ensures View() == Start(c, role, staticPair, ephemeral, prologue)
    {
      this.role, this.ephemeral, this.staticPair := role, ephemeral, staticPair;
      var h0 := Ascii(PROTOCOL_NAME) + Zeros(HASH_LEN - |PROTOCOL_NAME|);
      h, ck := c.sha256(h0 + prologue), h0;
      k, n, step := None, 0, 0;
      remoteEphemeral, remoteStatic, remotePayload := None, None, None;
    }

    method DoMixHash(c: Primitives, data: bytes)
      modifies this
      ensures View() == MixHash(c, old(View()), data)
    {
      h := c.sha256(h + data);
    }

    method DoMixDh(c: Primitives, priv: bytes, pub: bytes) returns (r: Result<bytes>)
      modifies this
      ensures (View(), r) == MixDh(c, old(View()), priv, pub)
    {
      if |priv| != DH_LEN || |pub| != DH_LEN {
        return Err("DH keys must be 32 bytes");
      }
      var out := Derive2(c, ck, c.agree(priv, pub));
      ck := out.0;
      k := Some(out.1);
      n := 0;
      return Ok([]);
    }

    method DoEncryptAndHash(c: Primitives, plaintext: bytes) returns (ct: bytes)
      modifies this
      ensures (View(), ct) == EncryptAndHash(c, old(View()), plaintext)
    {
      if k.None? {
        DoMixHash(c, plaintext);
        return plaintext;
      }
      var nonce := Nonce(n);
      ct := c.seal(k.value, nonce, h, plaintext);
      DoMixHash(c, ct);
      n := n + 1;
    }

    method DoDecryptAndHash(c: Primitives, ciphertext: bytes) returns (r: Result<bytes>)
      modifies this
      ensures (View(), r) == DecryptAndHash(c, old(View()), ciphertext)
    {
      if k.None? {
        DoMixHash(c, ciphertext);
        return Ok(ciphertext);
      }
      if |ciphertext| < TAG_LEN {
        return Err("ciphertext too short");
      }
      var nonce := Nonce(n);
      var p := c.open(k.value, nonce, h, ciphertext);
      if p.None? {
        return Err("unable to authenticate data");
      }
      DoMixHash(c, ciphertext);
      n := n + 1;
      return Ok(p.value);
    }

    method DoWriteMessage1(c: Primitives) returns (r: Result<bytes>)
      modifies this
      ensures (View(), r) == WriteMessage1(c, old(View()))
    {
      if role != Initiator || step != 0 {
        return Err("message1 invalid state");
      }
      DoMixHash(c, ephemeral.pub);
      step := 1;
      return Ok(ephemeral.pub);
    }

    method DoReadMessage1(c: Primitives, message: bytes) returns (r: Result<bytes>)
      modifies this
      ensures (View(), r) == ReadMessage1(c, old(View()), message)
    {
      if role != Responder || step != 0 {
        return Err("read1 invalid state");
      }
      if |message| < DH_LEN {
        return Err("message1 too short");
      }
      remoteEphemeral := Some(message[..DH_LEN]);
      DoMixHash(c, message[..DH_LEN]);
      step := 1;
      return Ok([]);
    }

    method DoWriteMessageA(c: Primitives, payload: bytes) returns (r: Result<bytes>)
      modifies this
      ensures (View(), r) == WriteMessageA(c, old(View()), payload)
    {
      if role != Responder || step != 1 {
        return Err("write A invalid state");
      }
      if remoteEphemeral.None? {
        return Err("missing remote e");
      }
      var re := remoteEphemeral.value;
      DoMixHash(c, ephemeral.pub);
      r := DoMixDh(c, ephemeral.priv, re);
      if r.Err? {
        return;
      }
      var encStatic := DoEncryptAndHash(c, staticPair.pub);
      r := DoMixDh(c, staticPair.priv, re);
      if r.Err? {
        return;
      }
      var encPayload := DoEncryptAndHash(c, payload);
      step := 2;
      return Ok(ephemeral.pub + encStatic + encPayload);
    }

    method DoReadPayload(c: Primitives, payloadEnc: bytes, next: nat) returns (r: Result<bytes>)
      modifies this
      ensures (View(), r) == ReadPayload(c, old(View()), payloadEnc, next)
    {
      r := Ok([]);
      if |payloadEnc| > 0 {
        r := DoDecryptAndHash(c, payloadEnc);
        if r.Err? {
          return;
        }
      }
      remotePayload := Some(r.value);
      step := next;
    }

    method DoReadMessageA(c: Primitives, message: bytes) returns (r: Result<bytes>)
      modifies this
      ensures (View(), r) == ReadMessageA(c, old(View()), message)
    {
      if role != Initiator || step != 1 {
        return Err("read A invalid state");
      }
      if |message| < DH_LEN {
        return Err("message A too short");
      }
      var re := message[..DH_LEN];
      remoteEphemeral := Some(re);
      DoMixHash(c, re);
      r := DoMixDh(c, ephemeral.priv, re);
      if r.Err? {
        return;
      }
      var rest := message[DH_LEN..];
      if |rest| < STATIC_LEN {
        return Err("message A missing encrypted static");
      }
      r := DoDecryptAndHash(c, rest[..STATIC_LEN]);
      if r.Err? {
        return;
      }
      if |r.value| != DH_LEN {
        return Err("remote static key length invalid");
      }
      var rs := r.value;
      remoteStatic := Some(rs);
      r := DoMixDh(c, ephemeral.priv, rs);
      if r.Err? {
        return;
      }
      r := DoReadPayload(c, rest[STATIC_LEN..], 2);
    }

    method DoWriteMessageB(c: Primitives, payload: bytes) returns (r: Result<bytes>)
      modifies this
      ensures (View(), r) == WriteMessageB(c, old(View()), payload)
    {
      if role != Initiator || step != 2 {
        return Err("message B invalid state");
      }
      if remoteEphemeral.None? {
        return Err("missing remote ephemeral");
      }
      var re := remoteEphemeral.value;
      var encStatic := DoEncryptAndHash(c, staticPair.pub);
      r := DoMixDh(c, staticPair.priv, re);
      if r.Err? {
        return;
      }
      var encPayload := DoEncryptAndHash(c, payload);
      step := 3;
      return Ok(encStatic + encPayload);
    }

    method DoReadMessageB(c: Primitives, message: bytes) returns (r: Result<bytes>)
      modifies this
      ensures (View(), r) == ReadMessageB(c, old(View()), message)
    {
      if role != Responder || step != 2 {
        return Err("read B invalid state");
      }
      if |message| < STATIC_LEN {
        return Err("message B too short");
      }
      r := DoDecryptAndHash(c, message[..STATIC_LEN]);
      if r.Err? {
        return;
      }
      var rs := r.value;
      remoteStatic := Some(rs);
      r := DoMixDh(c, ephemeral.priv, rs);
      if r.Err? {
        return;
      }
      r := DoReadPayload(c, message[STATIC_LEN..], 3);
    }
  }

  // ----- agreement -----

  ghost predicate GoodKey(c: Primitives, kp: KeyPair) {
    GoodPair(c, kp) && |kp.priv| == DH_LEN
  }

  /** Equal symmetric states. */
  ghost predicate Synced(a: State, b: State) {
    a.h == b.h && a.ck == b.ck && a.k == b.k && a.n == b.n
  }

  /** From equal states, what one side encrypts the other decrypts, and they stay equal. */
  lemma DecryptUndoesEncrypt(c: Primitives, a: State, b: State, plaintext: bytes)
    requires Lawful(c) && Synced(a, b)
    ensures
      var (a', ct) := EncryptAndHash(c, a, plaintext);
      var (b', r) := DecryptAndHash(c, b, ct);
      && r == Ok(plaintext) && Synced(a', b')
      && a' == a.(h := a'.h, n := a'.n) && b' == b.(h := b'.h, n := b'.n)
      && (a.k.Some? ==> |ct| == |plaintext| + TAG_LEN)
  {
  }

  /** From equal states, both sides of a Diffie-Hellman mix to equal states. */
  lemma DhAgrees(c: Primitives, a: State, b: State, x: KeyPair, y: KeyPair)
    requires Lawful(c) && Synced(a, b) && GoodKey(c, x) && GoodKey(c, y)
    ensures
      var (a', ra) := MixDh(c, a, x.priv, y.pub);
      var (b', rb) := MixDh(c, b, y.priv, x.pub);
      && ra.Ok? && rb.Ok? && Synced(a', b') && a'.k.Some?
      && a' == a.(ck := a'.ck, k := a'.k, n := a'.n) && b' == b.(ck := b'.ck, k := b'.k, n := b'.n)
  {
  }

  /** Both parties at the start, with or without the client's static key mixed in first. */
  ghost predicate Ready(c: Primitives, i: State, r: State) {
    && Synced(i, r)
    && i.role == Initiator && r.role == Responder && i.step == 0 && r.step == 0
    && GoodKey(c, i.staticPair) && GoodKey(c, i.ephemeral)
    && GoodKey(c, r.staticPair) && GoodKey(c, r.ephemeral)
  }

  lemma StartsReady(c: Primitives, si: KeyPair, ei: KeyPair, sr: KeyPair, er: KeyPair, prologue: bytes)
    requires GoodKey(c, si) && GoodKey(c, ei) && GoodKey(c, sr) && GoodKey(c, er)
    ensures
      var (i, r) := (Start(c, Initiator, si, ei, prologue), Start(c, Responder, sr, er, prologue));
      Ready(c, i, r) && Ready(c, MixHash(c, i, si.pub), MixHash(c, r, si.pub))
  {
  }

  ghost predicate SameKeys(a: State, b: State) {
    a.role == b.role && a.ephemeral == b.ephemeral && a.staticPair == b.staticPair
  }

  lemma Message1Agrees(c: Primitives, i: State, r: State)
    requires Lawful(c) && Ready(c, i, r)
    ensures
      var (i1, m1) := WriteMessage1(c, i);
      m1.Ok? &&
      var (r1, got) := ReadMessage1(c, r, m1.value);
      && got.Ok? && Synced(i1, r1) && SameKeys(i, i1) && SameKeys(r, r1)
      && i1.step == 1 && r1.step == 1 && r1.remoteEphemeral == Some(i.ephemeral.pub)
  {
    assert i.ephemeral.pub[..DH_LEN] == i.ephemeral.pub;
  }

  lemma MessageAAgrees(c: Primitives, i: State, r: State, payload: bytes)
    requires Lawful(c) && Synced(i, r) && i.role == Initiator && r.role == Responder && i.step == 1 && r.step == 1
    requires GoodKey(c, i.ephemeral) && GoodKey(c, r.ephemeral) && GoodKey(c, r.staticPair)
    requires r.remoteEphemeral == Some(i.ephemeral.pub)
    ensures
      var (r1, mA) := WriteMessageA(c, r, payload);
      && mA.Ok? && |mA.value| == DH_LEN + STATIC_LEN + |payload| + TAG_LEN
      && var (i1, got) := ReadMessageA(c, i, mA.value);
      && got == Ok(payload) && Synced(i1, r1) && i1.k.Some? && SameKeys(i, i1) && SameKeys(r, r1)
      && i1.step == 2 && r1.step == 2
      && i1.remoteEphemeral == Some(r.ephemeral.pub) && i1.remoteStatic == Some(r.staticPair.pub)
  {
    var r1 := MixHash(c, r, r.ephemeral.pub);
    var i1 := MixHash(c, i.(remoteEphemeral := Some(r.ephemeral.pub)), r.ephemeral.pub);
    DhAgrees(c, i1, r1, i.ephemeral, r.ephemeral);
    var (r2, i2) := (MixDh(c, r1, r.ephemeral.priv, i.ephemeral.pub).0, MixDh(c, i1, i.ephemeral.priv, r.ephemeral.pub).0);
    DecryptUndoesEncrypt(c, r2, i2, r.staticPair.pub);
    var (r3, encS) := EncryptAndHash(c, r2, r.staticPair.pub);
    var i3 := DecryptAndHash(c, i2, encS).0.(remoteStatic := Some(r.staticPair.pub));
    DhAgrees(c, i3, r3, i.ephemeral, r.staticPair);
    var (r4, i4) := (MixDh(c, r3, r.staticPair.priv, i.ephemeral.pub).0, MixDh(c, i3, i.ephemeral.priv, r.staticPair.pub).0);
    DecryptUndoesEncrypt(c, r4, i4, payload);
    var (r5, encP) := EncryptAndHash(c, r4, payload);
    var message := r.ephemeral.pub + encS + encP;
    assert message[..DH_LEN] == r.ephemeral.pub;
    assert message[DH_LEN..][..STATIC_LEN] == encS && message[DH_LEN..][STATIC_LEN..] == encP;
  }

  lemma MessageBAgrees(c: Primitives, i: State, r: State, payload: bytes)
    requires Lawful(c) && Synced(i, r) && i.role == Initiator && r.role == Responder && i.step == 2 && r.step == 2
    requires i.k.Some? && GoodKey(c, i.staticPair) && GoodKey(c, r.ephemeral)
    requires i.remoteEphemeral == Some(r.ephemeral.pub)
    ensures
      var (i1, mB) := WriteMessageB(c, i, payload);
      && mB.Ok? && |mB.value| == STATIC_LEN + |payload| + TAG_LEN
      && var (r1, got) := ReadMessageB(c, r, mB.value);
      && got == Ok(payload) && Synced(i1, r1) && i1.role == Initiator && r1.role == Responder
      && i1.step == 3 && r1.step == 3 && r1.remoteStatic == Some(i.staticPair.pub) && i1.remoteStatic == i.remoteStatic
  {
    DecryptUndoesEncrypt(c, i, r, i.staticPair.pub);
    var (i1, encS) := EncryptAndHash(c, i, i.staticPair.pub);
    var r1 := DecryptAndHash(c, r, encS).0.(remoteStatic := Some(i.staticPair.pub));
    DhAgrees(c, i1, r1, i.staticPair, r.ephemeral);
    var (i2, r2) := (MixDh(c, i1, i.staticPair.priv, r.ephemeral.pub).0, MixDh(c, r1, r.ephemeral.priv, i.staticPair.pub).0);
    DecryptUndoesEncrypt(c, i2, r2, payload);
    var (i3, encP) := EncryptAndHash(c, i2, payload);
    var message := encS + encP;
    assert message[..STATIC_LEN] == encS && message[STATIC_LEN..] == encP;
  }

  /**
   Which derived key is whose: the first 32 bytes of the derivation under the final chaining key are
   what the initiator sends under and the responder reads under, the next 32 the other way round.
   */
  ghost predicate KeysInOrder(c: Primitives, ck: bytes, initiator: TransportKeys, responder: TransportKeys)
    requires Lawful(c)
  {
    var out := Hkdf.Derive(c, seq(32, i => 0), 64, [], ck);
    && initiator.sendKey + initiator.recvKey == out
    && responder.recvKey + responder.sendKey == out
    && |initiator.sendKey| == 32 && |responder.recvKey| == 32
  }

  lemma SplitInOrder(c: Primitives, i: State, r: State)
    requires Lawful(c) && i.ck == r.ck != [] && i.step == 3 && r.step == 3
    requires i.role == Initiator && r.role == Responder
    ensures KeysInOrder(c, i.ck, Split(c, i).value, Split(c, r).value)
  {
    Derive2IsRfc(c, i.ck, []);
    assert Zeros(32) == seq(32, i => 0);
  }

  datatype Outcome = Outcome(i: State, r: State, serverPayload: bytes, clientPayload: bytes)

  /** Three messages passed on unchanged. */
  function HonestRun(c: Primitives, i: State, r: State, payloadA: bytes, payloadB: bytes): Result<Outcome> {
    var (i1, m1) := WriteMessage1(c, i);
    var message1 :- m1;
    var (r1, got1) := ReadMessage1(c, r, message1);
    var _ :- got1;
    var (r2, mA) := WriteMessageA(c, r1, payloadA);
    var messageA :- mA;
    var (i2, gotA) := ReadMessageA(c, i1, messageA);
    var serverPayload :- gotA;
    var (i3, mB) := WriteMessageB(c, i2, payloadB);
    var messageB :- mB;
    var (r3, gotB) := ReadMessageB(c, r2, messageB);
    var clientPayload :- gotB;
    Ok(Outcome(i3, r3, serverPayload, clientPayload))
  }

  /** What both sides hold at the end of a handshake that agreed. */
  ghost predicate Agreed(c: Primitives, o: Outcome, si: KeyPair, sr: KeyPair, payloadA: bytes, payloadB: bytes)
    requires Lawful(c)
  {
    && o.i.h == o.r.h && o.i.ck == o.r.ck
    && o.i.remoteStatic == Some(sr.pub) && o.r.remoteStatic == Some(si.pub)
    && o.serverPayload == payloadA && o.clientPayload == payloadB
    && Split(c, o.i).Ok? && Split(c, o.r).Ok?
    && Split(c, o.i).value.sendKey == Split(c, o.r).value.recvKey
    && Split(c, o.i).value.recvKey == Split(c, o.r).value.sendKey
    && Split(c, o.i).value.handshakeHash == Split(c, o.r).value.handshakeHash == o.i.h
    && KeysInOrder(c, o.i.ck, Split(c, o.i).value, Split(c, o.r).value)
  }

  /** XX agreement, for payloads of any length. */
  lemma XXAgreement(c: Primitives, i: State, r: State, payloadA: bytes, payloadB: bytes)
    requires Lawful(c) && Ready(c, i, r)
    ensures HonestRun(c, i, r, payloadA, payloadB).Ok?
    ensures Agreed(c, HonestRun(c, i, r, payloadA, payloadB).value, i.staticPair, r.staticPair, payloadA, payloadB)
  {
    hide WriteMessage1; hide ReadMessage1; hide WriteMessageA; hide ReadMessageA; hide WriteMessageB; hide ReadMessageB;
    hide Derive2;
    Message1Agrees(c, i, r);
    var (i1, m1) := WriteMessage1(c, i);
    var r1 := ReadMessage1(c, r, m1.value).0;
    MessageAAgrees(c, i1, r1, payloadA);
    var (r2, mA) := WriteMessageA(c, r1, payloadA);
    var i2 := ReadMessageA(c, i1, mA.value).0;
    MessageBAgrees(c, i2, r2, payloadB);
    var (i3, mB) := WriteMessageB(c, i2, payloadB);
    MessageBKeepsKey(c, i2, payloadB);
    hide KeysInOrder; hide Split;
    SplitInOrder(c, i3, ReadMessageB(c, r2, mB.value).0);
  }

  /** After the last message the chaining key is a hash. */
  lemma MessageBKeepsKey(c: Primitives, s: State, payload: bytes)
    requires Lawful(c) && WriteMessageB(c, s, payload).1.Ok?
    ensures |WriteMessageB(c, s, payload).0.ck| == HASH_LEN
  {
  }
}

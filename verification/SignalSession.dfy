/**
 The Signal-style session: X3DH-like agreement, a symmetric chain per direction, a bounded
 store of skipped message keys, and a Diffie-Hellman step when the peer's header key changes.
 Random ivs and ephemeral keys are parameters.
 */
module SignalSession {
  import opened Prelude
  import opened Crypto

  const MAX_SKIP := 100
  const IV_LEN := 12

  datatype Chain = Chain(key: bytes, counter: nat)

  datatype Session = Session(
    remoteAddress: string,
    rootKey: bytes,
    sending: Chain,
    receiving: Chain,
    remoteRatchetPub: Option<bytes>,
    localRatchet: KeyPair,
    localRatchetPub: Option<bytes>,
    skipped: map<nat, bytes>)

  datatype Message = Message(counter: nat, ratchetPub: bytes, ciphertext: bytes)

  // ----- key derivation -----

  function NextChainKey(c: Primitives, key: bytes): bytes
    requires Lawful(c)
  {
    c.hkdf(key, 32, Ascii("WhisperChain"))
  }

  function MessageKey(c: Primitives, key: bytes): (k: bytes)
    requires Lawful(c)
  {
    c.hkdf(key, 32, Ascii("WhisperMessageKeys"))
  }

  function Advance(c: Primitives, chain: Chain): Chain
    requires Lawful(c)
  {
    Chain(NextChainKey(c, chain.key), chain.counter + 1)
  }

  /** One Diffie-Hellman ratchet step: the new root key and chain key. */
  function KdfRoot(c: Primitives, rootKey: bytes, dhOut: bytes): (r: (bytes, bytes))
    requires Lawful(c)
    ensures |r.0| == 32 && r.0 + r.1 == c.hkdf(rootKey + dhOut, 64, Ascii("WhisperRatchet"))
  {
    var out := c.hkdf(rootKey + dhOut, 64, Ascii("WhisperRatchet"));
    (out[..32], out[32..])
  }

  // ----- agreement -----

  function InitialSession(
    c: Primitives, remoteAddress: string, secret: bytes,
    remotePub: bytes, local: KeyPair): (s: Session)
    requires Lawful(c)
    ensures |s.rootKey| == 32 && s.rootKey + s.sending.key == c.hkdf(secret, 64, Ascii("WhisperText"))
  {
    var master := c.hkdf(secret, 64, Ascii("WhisperText"));
    var chain := Chain(master[32..], 0);
    Session(remoteAddress, master[..32], chain, chain, Some(remotePub), local, Some(local.pub), map[])
  }

  function InitAsInitiator(
    c: Primitives, remoteAddress: string, identity: KeyPair, ephemeral: KeyPair,
    remoteIdentityPub: bytes, remoteSignedPreKeyPub: bytes, remoteOneTimePub: Option<bytes>): Session
    requires Lawful(c)
  {
    var dh1 := c.agree(identity.priv, remoteSignedPreKeyPub);
    var dh2 := c.agree(ephemeral.priv, remoteIdentityPub);
    var dh3 := c.agree(ephemeral.priv, remoteSignedPreKeyPub);
    var dh4 := if remoteOneTimePub.Some? then c.agree(ephemeral.priv, remoteOneTimePub.value) else [];
    InitialSession(c, remoteAddress, dh1 + dh2 + dh3 + dh4, remoteSignedPreKeyPub, ephemeral)
  }

  function InitAsResponder(
    c: Primitives, remoteAddress: string, identity: KeyPair, signedPreKey: KeyPair,
    remoteIdentityPub: bytes, remoteEphemeralPub: bytes, oneTime: Option<KeyPair>): Session
    requires Lawful(c)
  {
    var dh1 := c.agree(signedPreKey.priv, remoteIdentityPub);
    var dh2 := c.agree(identity.priv, remoteEphemeralPub);
    var dh3 := c.agree(signedPreKey.priv, remoteEphemeralPub);
    var dh4 := if oneTime.Some? then c.agree(oneTime.value.priv, remoteEphemeralPub) else [];
    InitialSession(c, remoteAddress, dh1 + dh2 + dh3 + dh4, remoteEphemeralPub, signedPreKey)
  }

  // ----- encryption and decryption -----

  function SealBody(c: Primitives, key: bytes, iv: bytes, plaintext: bytes): bytes {
    iv + c.seal(key, iv, [], plaintext)
  }

  function OpenBody(c: Primitives, key: bytes, ciphertext: bytes): Option<bytes> {
    if |ciphertext| < IV_LEN + TAG_LEN then None
    else c.open(key, ciphertext[..IV_LEN], [], ciphertext[IV_LEN..])
  }

  lemma OpenSealedBody(c: Primitives, key: bytes, iv: bytes, plaintext: bytes)
    requires Lawful(c) && |iv| == IV_LEN
    ensures OpenBody(c, key, SealBody(c, key, iv, plaintext)) == Some(plaintext)
  {
    var sealed := SealBody(c, key, iv, plaintext);
    assert sealed[..IV_LEN] == iv && sealed[IV_LEN..] == c.seal(key, iv, [], plaintext);
  }

  function HeaderKey(s: Session): bytes {
    if s.localRatchetPub.Some? then s.localRatchetPub.value else s.localRatchet.pub
  }

  function Encrypt(c: Primitives, s: Session, iv: bytes, plaintext: bytes): (Session, Message)
    requires Lawful(c)
  {
    var body := SealBody(c, MessageKey(c, s.sending.key), iv, plaintext);
    (s.(sending := Advance(c, s.sending)), Message(s.sending.counter, HeaderKey(s), body))
  }

  /** Walks the chain up to `until`, storing every message key passed over; None when the store is full. */
  function SkipKeys(c: Primitives, chain: Chain, until: nat, skipped: map<nat, bytes>)
    : (r: Option<(Chain, map<nat, bytes>)>)
    requires Lawful(c)
    decreases until - chain.counter
  {
    if until <= chain.counter then Some((chain, skipped))
    else if |skipped| > MAX_SKIP then None
    else SkipKeys(c, Advance(c, chain), until, skipped[chain.counter := MessageKey(c, chain.key)])
  }

  method SkipMessageKeys(c: Primitives, chain: Chain, until: nat, stored: map<nat, bytes>)
    returns (ok: bool, advanced: Chain, skipped: map<nat, bytes>)
    requires Lawful(c)
    ensures SkipKeys(c, chain, until, stored) == if ok then Some((advanced, skipped)) else None
  {
    advanced, skipped := chain, stored;
    while advanced.counter < until
      invariant SkipKeys(c, chain, until, stored) == SkipKeys(c, advanced, until, skipped)
      decreases until - advanced.counter
    {
      if |skipped| > MAX_SKIP {
        return false, advanced, skipped;
      }
      skipped := skipped[advanced.counter := MessageKey(c, advanced.key)];
      advanced := Advance(c, advanced);
    }
    ok := true;
  }

  /** Does the message carry a header key other than the one on record? */
  predicate NewHeaderKey(s: Session, m: Message) {
    s.remoteRatchetPub != Some(m.ratchetPub)
  }

  /** The receiving state after the Diffie-Hellman step, which is taken only for a new header key. */
  function AfterRatchet(c: Primitives, s: Session, m: Message): Session
    requires Lawful(c)
  {
    if !NewHeaderKey(s, m) then s else
    var (root, chainKey) := KdfRoot(c, s.rootKey, c.agree(s.localRatchet.priv, m.ratchetPub));
    s.(rootKey := root, receiving := Chain(chainKey, 0), remoteRatchetPub := Some(m.ratchetPub))
  }

  /** Decryption as a function of the stored session: the next session and the plaintext, or an error. */
  function Decrypt(c: Primitives, s: Session, m: Message): (r: Result<(Session, bytes)>)
    requires Lawful(c)
  {
    if m.counter in s.skipped then
      match OpenBody(c, s.skipped[m.counter], m.ciphertext)
      case Some(p) => Ok((s.(skipped := s.skipped - {m.counter}), p))
      case None => Err("bad ciphertext")
    else
      var s1 := AfterRatchet(c, s, m);
      if m.counter < s1.receiving.counter then Err("message counter already processed")
      else match SkipKeys(c, s1.receiving, m.counter, s.skipped)
        case None => Err("too many skipped message keys")
        case Some((chain, skipped)) =>
          match OpenBody(c, MessageKey(c, chain.key), m.ciphertext)
          case None => Err("bad ciphertext")
          case Some(p) => Ok((s1.(receiving := Advance(c, chain), skipped := skipped), p))
  }

  /** The program's step-by-step decryption. */
  method SignalDecrypt(c: Primitives, s: Session, m: Message) returns (r: Result<(Session, bytes)>)
    requires Lawful(c)
    ensures r.Ok? == Decrypt(c, s, m).Ok?
    ensures r.Ok? ==> r == Decrypt(c, s, m)
  {
    var skipped := s.skipped;
    if m.counter in skipped {
      var mk := skipped[m.counter];
      skipped := skipped - {m.counter};
      var plain := OpenBody(c, mk, m.ciphertext);
      if plain.None? {
        return Err("bad ciphertext");
      }
      return Ok((s.(skipped := skipped), plain.value));
    }
    var receiving, rootKey, remoteRatchetPub := s.receiving, s.rootKey, s.remoteRatchetPub;
    if remoteRatchetPub.None? || remoteRatchetPub.value != m.ratchetPub {
      var dhOut := c.agree(s.localRatchet.priv, m.ratchetPub);
      var stepped := KdfRoot(c, rootKey, dhOut);
      rootKey := stepped.0;
      receiving := Chain(stepped.1, 0);
      remoteRatchetPub := Some(m.ratchetPub);
    }
    if m.counter < receiving.counter {
      return Err("message counter already processed");
    }
    if m.counter > receiving.counter {
      var ok;
      ok, receiving, skipped := SkipMessageKeys(c, receiving, m.counter, skipped);
      if !ok {
        return Err("too many skipped message keys");
      }
    }
    var plain := OpenBody(c, MessageKey(c, receiving.key), m.ciphertext);
    if plain.None? {
      return Err("bad ciphertext");
    }
    return Ok((
      s.(rootKey := rootKey, remoteRatchetPub := remoteRatchetPub,
         receiving := Advance(c, receiving), skipped := skipped),
      plain.value));
  }

  /** The in-memory session manager, keyed by address. */
  class SessionManager {
    var sessions: map<string, Session>

    constructor ()
      ensures sessions == map[]
    {
      sessions := map[];
    }

    method Set(address: string, s: Session)
      modifies this
      ensures sessions == old(sessions)[address := s]
    {
      sessions := sessions[address := s];
    }

    method Delete(address: string)
      modifies this
      ensures sessions == old(sessions) - {address}
    {
      sessions := sessions - {address};
    }

    method EncryptFor(c: Primitives, address: string, iv: bytes, plaintext: bytes) returns (r: Result<Message>)
      requires Lawful(c)
      modifies this
      ensures r.Ok? <==> address in old(sessions)
      ensures r.Err? ==> sessions == old(sessions)
      ensures r.Ok? ==>
        var (s, m) := Encrypt(c, old(sessions)[address], iv, plaintext);
        r.value == m && sessions == old(sessions)[address := s]
    {
      if address !in sessions {
        return Err("no signal session");
      }
      var (s, m) := Encrypt(c, sessions[address], iv, plaintext);
      sessions := sessions[address := s];
      return Ok(m);
    }

    /** A failed decryption leaves every stored session as it was. */
    method DecryptFrom(c: Primitives, address: string, m: Message) returns (r: Result<bytes>)
      requires Lawful(c)
      modifies this
      ensures r.Ok? <==> address in old(sessions) && Decrypt(c, old(sessions)[address], m).Ok?
      ensures r.Err? ==> sessions == old(sessions)
      ensures r.Ok? ==>
        var (s, p) := Decrypt(c, old(sessions)[address], m).value;
        r.value == p && sessions == old(sessions)[address := s]
    {
      if address !in sessions {
        return Err("no signal session");
      }
      var d := SignalDecrypt(c, sessions[address], m);
      if d.Err? {
        return Err(d.error);
      }
      sessions := sessions[address := d.value.0];
      return Ok(d.value.1);
    }
  }
}

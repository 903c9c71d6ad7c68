/**
 What the Signal session computes, down to HMAC: every key of a session and of a run, and every byte
 of a ciphertext, for primitives whose `hkdf` is the program's own. Labels are written as bytes.
 */
module SignalKeys {
  import opened Prelude
  import opened Crypto
  import opened SignalSession
  import opened SignalRuns
  import Hkdf

  const CHAIN_LABEL: bytes := [87, 104, 105, 115, 112, 101, 114, 67, 104, 97, 105, 110] // "WhisperChain"
  const MESSAGE_LABEL: bytes := // "WhisperMessageKeys"
    [87, 104, 105, 115, 112, 101, 114, 77, 101, 115, 115, 97, 103, 101, 75, 101, 121, 115]
  const RATCHET_LABEL: bytes := [87, 104, 105, 115, 112, 101, 114, 82, 97, 116, 99, 104, 101, 116] // "WhisperRatchet"
  const TEXT_LABEL: bytes := [87, 104, 105, 115, 112, 101, 114, 84, 101, 120, 116] // "WhisperText"

  lemma LabelBytes()
    ensures Ascii("WhisperChain") == CHAIN_LABEL && Ascii("WhisperMessageKeys") == MESSAGE_LABEL
    ensures Ascii("WhisperRatchet") == RATCHET_LABEL && Ascii("WhisperText") == TEXT_LABEL
  {
  }

  // ----- one derivation -----

  /** The extract step without a salt: HMAC under 32 zero bytes. */
  function Extracted(c: Primitives, secret: bytes): bytes {
    c.hmac(seq(32, i => 0), secret)
  }

  /** 32 derived bytes: the first block. */
  function OneBlock(c: Primitives, secret: bytes, info: bytes): bytes {
    c.hmac(Extracted(c, secret), info + [1])
  }

  /** The second 32 of 64 derived bytes. */
  function NextBlock(c: Primitives, secret: bytes, info: bytes): bytes {
    c.hmac(Extracted(c, secret), OneBlock(c, secret, info) + info + [2])
  }

  lemma DerivedBlocks(c: Primitives, secret: bytes, info: bytes)
    requires Lawful(c)
    ensures Hkdf.WithHkdf(c).hkdf(secret, 32, info) == OneBlock(c, secret, info)
    ensures Hkdf.WithHkdf(c).hkdf(secret, 64, info) == OneBlock(c, secret, info) + NextBlock(c, secret, info)
  {
    Hkdf.WithHkdfIsLawful(c);
    var prk := Hkdf.Extract(c, secret, []);
    assert Zeros(32) == seq(32, i => 0);
    assert prk == Extracted(c, secret);
    var (b1, b2) := (Hkdf.Block(c, prk, info, 1), Hkdf.Block(c, prk, info, 2));
    assert Hkdf.Block(c, prk, info, 0) + info + [1] == info + [1];
    assert b1 == OneBlock(c, secret, info);
    assert b2 == NextBlock(c, secret, info);
    assert Hkdf.Blocks(c, prk, info, 1) == [] + b1 == b1;
    assert Hkdf.Blocks(c, prk, info, 2) == b1 + b2;
  }

  // ----- the chain -----

  /** The chain key n steps behind a given one. */
  function KeyAfter(c: Primitives, key: bytes, n: nat): bytes {
    if n == 0 then key else OneBlock(c, KeyAfter(c, key, n - 1), CHAIN_LABEL)
  }

  function MessageKeyOf(c: Primitives, chainKey: bytes): bytes {
    OneBlock(c, chainKey, MESSAGE_LABEL)
  }

  lemma StepIsHmac(c: Primitives, key: bytes)
    requires Lawful(c)
    ensures Lawful(Hkdf.WithHkdf(c))
    ensures NextChainKey(Hkdf.WithHkdf(c), key) == OneBlock(c, key, CHAIN_LABEL)
    ensures MessageKey(Hkdf.WithHkdf(c), key) == MessageKeyOf(c, key)
  {
    Hkdf.WithHkdfIsLawful(c);
    LabelBytes();
    DerivedBlocks(c, key, CHAIN_LABEL);
    DerivedBlocks(c, key, MESSAGE_LABEL);
  }

  lemma {:induction false} ChainIsHmac(c: Primitives, key: bytes, n: nat)
    requires Lawful(c)
    ensures Lawful(Hkdf.WithHkdf(c))
    ensures ChainKeyAt(Hkdf.WithHkdf(c), key, n) == KeyAfter(c, key, n)
    ensures MessageKeyAt(Hkdf.WithHkdf(c), key, n) == MessageKeyOf(c, KeyAfter(c, key, n))
  {
    hide OneBlock; hide NextChainKey; hide MessageKey;
    if n > 0 {
      ChainIsHmac(c, key, n - 1);
      StepIsHmac(c, KeyAfter(c, key, n - 1));
    } else {
      Hkdf.WithHkdfIsLawful(c);
    }
    StepIsHmac(c, KeyAfter(c, key, n));
  }

  // ----- one message -----

  /**
   One encryption, in full: the message carries the old counter, the header key and, behind its iv, the
   plaintext sealed under the message key of the old chain key; only the sending chain moves on.
   */
  lemma EncryptIsHmac(c: Primitives, s: Session, iv: bytes, plaintext: bytes)
    requires Lawful(c)
    ensures Lawful(Hkdf.WithHkdf(c))
    ensures
      var (s', m) := Encrypt(Hkdf.WithHkdf(c), s, iv, plaintext);
      && m.counter == s.sending.counter
      && m.ratchetPub == (match s.localRatchetPub case Some(pub) => pub case None => s.localRatchet.pub)
      && m.ciphertext == iv + c.seal(MessageKeyOf(c, s.sending.key), iv, [], plaintext)
      && s' == s.(sending := Chain(OneBlock(c, s.sending.key, CHAIN_LABEL), s.sending.counter + 1))
  {
    StepIsHmac(c, s.sending.key);
  }

  /** The i-th message of any run is sealed under the message key i steps down the chain. */
  lemma NthMessageIsHmac(c: Primitives, start: bytes, sender: Party, i: nat)
    requires Lawful(c) && Lawful(Hkdf.WithHkdf(c))
    requires SenderInv(Hkdf.WithHkdf(c), start, sender) && i < |sender.sent|
    ensures
      var s := sender.sent[i];
      s.message.ciphertext == s.iv + c.seal(MessageKeyOf(c, KeyAfter(c, start, i)), s.iv, [], s.plaintext)
    ensures sender.session.sending == Chain(KeyAfter(c, start, |sender.sent|), |sender.sent|)
  {
    ChainIsHmac(c, start, i);
    ChainIsHmac(c, start, |sender.sent|);
    assert IsHonest(Hkdf.WithHkdf(c), start, HeaderKey(sender.session), i, sender.sent[i]);
  }

  /** The root key, the chain key and the counter that the next message under a header key starts from. */
  function ReceivingFrom(c: Primitives, s: Session, ratchetPub: bytes): (bytes, bytes, nat) {
    if s.remoteRatchetPub == Some(ratchetPub) then (s.rootKey, s.receiving.key, s.receiving.counter) else
    var secret := s.rootKey + c.agree(s.localRatchet.priv, ratchetPub);
    (OneBlock(c, secret, RATCHET_LABEL), NextBlock(c, secret, RATCHET_LABEL), 0)
  }

  /** Twelve bytes of iv, then at least a tag, opened under a key. */
  function Opened(c: Primitives, key: bytes, ciphertext: bytes): Option<bytes> {
    if |ciphertext| < 28 then None else c.open(key, ciphertext[..12], [], ciphertext[12..])
  }

  lemma {:induction false} SkipKeysWalks(c: Primitives, chain: Chain, until: nat, skipped: map<nat, bytes>)
    requires Lawful(c) && Lawful(Hkdf.WithHkdf(c)) && chain.counter <= until
    ensures SkipKeys(Hkdf.WithHkdf(c), chain, until, skipped).Some? ==>
      SkipKeys(Hkdf.WithHkdf(c), chain, until, skipped).value.0 == Chain(KeyAfter(c, chain.key, until - chain.counter), until)
    decreases until - chain.counter
  {
    hide OneBlock; hide NextChainKey; hide MessageKey;
    var c' := Hkdf.WithHkdf(c);
    if chain.counter < until && |skipped| <= MAX_SKIP {
      StepIsHmac(c, chain.key);
      SkipKeysWalks(c, Advance(c', chain), until, skipped[chain.counter := MessageKey(c', chain.key)]);
      KeyAfterStep(c, chain.key, until - chain.counter);
    }
  }

  lemma {:induction false} KeyAfterStep(c: Primitives, key: bytes, n: nat)
    requires n > 0
    ensures KeyAfter(c, OneBlock(c, key, CHAIN_LABEL), n - 1) == KeyAfter(c, key, n)
  {
    hide OneBlock;
    if n > 1 {
      KeyAfterStep(c, key, n - 1);
    }
  }

  /**
   One successful decryption by the chain, in full: which chain and root key it starts from, also for a
   new header key, how far it walks, and under which key the ciphertext opens.
   */
  lemma DecryptIsHmac(c: Primitives, s: Session, m: Message)
    requires Lawful(c) && Lawful(Hkdf.WithHkdf(c)) && m.counter !in s.skipped
    ensures Decrypt(Hkdf.WithHkdf(c), s, m).Ok? ==>
      var (s', plaintext) := Decrypt(Hkdf.WithHkdf(c), s, m).value;
      var (root, key, from) := ReceivingFrom(c, s, m.ratchetPub);
      && from <= m.counter
      && Opened(c, MessageKeyOf(c, KeyAfter(c, key, m.counter - from)), m.ciphertext) == Some(plaintext)
      && s' == s.(rootKey := root, remoteRatchetPub := Some(m.ratchetPub), skipped := s'.skipped,
                  receiving := Chain(KeyAfter(c, key, m.counter + 1 - from), m.counter + 1))
  {
    hide OneBlock; hide NextBlock; hide NextChainKey; hide MessageKey; hide SkipKeys;
    var c' := Hkdf.WithHkdf(c);
    var (root, key, from) := ReceivingFrom(c, s, m.ratchetPub);
    ReceivingAfterRatchet(c, s, m);
    if Decrypt(c', s, m).Ok? {
      SkipKeysWalks(c, Chain(key, from), m.counter, s.skipped);
      StepIsHmac(c, KeyAfter(c, key, m.counter - from));
    }
  }

  lemma ReceivingAfterRatchet(c: Primitives, s: Session, m: Message)
    requires Lawful(c) && Lawful(Hkdf.WithHkdf(c))
    ensures
      var s1 := AfterRatchet(Hkdf.WithHkdf(c), s, m);
      var (root, key, from) := ReceivingFrom(c, s, m.ratchetPub);
      s1 == s.(rootKey := root, receiving := Chain(key, from), remoteRatchetPub := Some(m.ratchetPub))
  {
    if s.remoteRatchetPub != Some(m.ratchetPub) {
      var secret := s.rootKey + c.agree(s.localRatchet.priv, m.ratchetPub);
      LabelBytes();
      DerivedBlocks(c, secret, RATCHET_LABEL);
      assert |OneBlock(c, secret, RATCHET_LABEL)| == 32;
    }
  }

  /** One decryption by a skipped key: it succeeds exactly if that key opens the ciphertext, and uses the key up. */
  lemma DecryptBySkippedKey(c: Primitives, s: Session, m: Message)
    requires Lawful(c) && m.counter in s.skipped
    ensures Decrypt(c, s, m).Ok? <==> Opened(c, s.skipped[m.counter], m.ciphertext).Some?
    ensures Decrypt(c, s, m).Ok? ==>
      Decrypt(c, s, m).value == (s.(skipped := s.skipped - {m.counter}), Opened(c, s.skipped[m.counter], m.ciphertext).value)
  {
  }

  // ----- agreement -----

  /** A fresh session on the four agreements in their order: its root key and the one key of both its chains. */
  ghost predicate FreshSession(
      c: Primitives, s: Session, remoteAddress: string, secret: bytes, remotePub: bytes, local: KeyPair)
  {
    s == Session(
      remoteAddress, OneBlock(c, secret, TEXT_LABEL),
      Chain(NextBlock(c, secret, TEXT_LABEL), 0), Chain(NextBlock(c, secret, TEXT_LABEL), 0),
      Some(remotePub), local, Some(local.pub), map[])
  }

  lemma InitialSessionIsHmac(c: Primitives, remoteAddress: string, secret: bytes, remotePub: bytes, local: KeyPair)
    requires Lawful(c) && Lawful(Hkdf.WithHkdf(c))
    ensures FreshSession(
      c, InitialSession(Hkdf.WithHkdf(c), remoteAddress, secret, remotePub, local), remoteAddress, secret, remotePub, local)
  {
    LabelBytes();
    DerivedBlocks(c, secret, TEXT_LABEL);
    assert |OneBlock(c, secret, TEXT_LABEL)| == 32;
  }

  /** The initiator's session, with the optional one-time key last. */
  lemma InitiatorIsHmac(
      c: Primitives, address: string, identity: KeyPair, ephemeral: KeyPair,
      theirIdentity: bytes, theirPreKey: bytes, theirOneTime: Option<bytes>)
    requires Lawful(c) && Lawful(Hkdf.WithHkdf(c))
    ensures
      var secret := c.agree(identity.priv, theirPreKey) + c.agree(ephemeral.priv, theirIdentity)
        + c.agree(ephemeral.priv, theirPreKey);
      var full := match theirOneTime case None => secret case Some(pub) => secret + c.agree(ephemeral.priv, pub);
      FreshSession(
        c, InitAsInitiator(Hkdf.WithHkdf(c), address, identity, ephemeral, theirIdentity, theirPreKey, theirOneTime),
        address, full, theirPreKey, ephemeral)
  {
    var secret := c.agree(identity.priv, theirPreKey) + c.agree(ephemeral.priv, theirIdentity)
      + c.agree(ephemeral.priv, theirPreKey);
    var full := match theirOneTime case None => secret case Some(pub) => secret + c.agree(ephemeral.priv, pub);
    assert secret + [] == secret;
    hide InitialSession; hide FreshSession;
    InitialSessionIsHmac(c, address, full, theirPreKey, ephemeral);
  }

  /** The responder's session, from the other halves. */
  lemma ResponderIsHmac(
      c: Primitives, address: string, identity: KeyPair, preKey: KeyPair,
      theirIdentity: bytes, theirEphemeral: bytes, oneTime: Option<KeyPair>)
    requires Lawful(c) && Lawful(Hkdf.WithHkdf(c))
    ensures
      var secret := c.agree(preKey.priv, theirIdentity) + c.agree(identity.priv, theirEphemeral)
        + c.agree(preKey.priv, theirEphemeral);
      var full := match oneTime case None => secret case Some(pair) => secret + c.agree(pair.priv, theirEphemeral);
      FreshSession(
        c, InitAsResponder(Hkdf.WithHkdf(c), address, identity, preKey, theirIdentity, theirEphemeral, oneTime),
        address, full, theirEphemeral, preKey)
  {
    var secret := c.agree(preKey.priv, theirIdentity) + c.agree(identity.priv, theirEphemeral)
      + c.agree(preKey.priv, theirEphemeral);
    var full := match oneTime case None => secret case Some(pair) => secret + c.agree(pair.priv, theirEphemeral);
    assert secret + [] == secret;
    hide InitialSession; hide FreshSession;
    InitialSessionIsHmac(c, address, full, theirEphemeral, preKey);
  }
}

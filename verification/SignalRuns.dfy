/**
 Whole runs of two agreeing sessions over a network that may drop, reorder, duplicate and
 corrupt messages. A run is any list of events; delivery hands the receiver an arbitrary message.
 */
module SignalRuns {
  import opened Prelude
  import opened Crypto
  import opened SignalSession

  // ----- the ideal chain -----

  /** The chain key after n steps of the key derivation. */
  function ChainKeyAt(c: Primitives, start: bytes, n: nat): bytes
    requires Lawful(c)
  {
    if n == 0 then start else NextChainKey(c, ChainKeyAt(c, start, n - 1))
  }

  function MessageKeyAt(c: Primitives, start: bytes, n: nat): bytes
    requires Lawful(c)
  {
    MessageKey(c, ChainKeyAt(c, start, n))
  }

  function ChainAt(c: Primitives, start: bytes, n: nat): Chain
    requires Lawful(c)
  {
    Chain(ChainKeyAt(c, start, n), n)
  }

  // ----- runs -----

  datatype Sent = Sent(plaintext: bytes, iv: bytes, message: Message)
  datatype Received = Received(message: Message, plaintext: bytes)

  /** One party: its session, everything it sent and everything it accepted, in order. */
  datatype Party = Party(session: Session, sent: seq<Sent>, received: seq<Received>)

  datatype System = System(alice: Party, bob: Party)

  datatype Event =
    | AliceSends(iv: bytes, plaintext: bytes)
    | BobSends(iv: bytes, plaintext: bytes)
    | AliceReceives(message: Message)
    | BobReceives(message: Message)

  function Send(c: Primitives, p: Party, iv: bytes, plaintext: bytes): Party
    requires Lawful(c)
  {
    var (s, m) := Encrypt(c, p.session, iv, plaintext);
    p.(session := s, sent := p.sent + [Sent(plaintext, iv, m)])
  }

  function Receive(c: Primitives, p: Party, m: Message): Party
    requires Lawful(c)
  {
    match Decrypt(c, p.session, m)
    case Err(_) => p
    case Ok((s, plaintext)) => p.(session := s, received := p.received + [Received(m, plaintext)])
  }

  function Step(c: Primitives, sys: System, e: Event): System
    requires Lawful(c)
  {
    match e
    case AliceSends(iv, pt) => sys.(alice := Send(c, sys.alice, iv, pt))
    case BobSends(iv, pt) => sys.(bob := Send(c, sys.bob, iv, pt))
    case AliceReceives(m) => sys.(alice := Receive(c, sys.alice, m))
    case BobReceives(m) => sys.(bob := Receive(c, sys.bob, m))
  }

  /**
   What is assumed of the adversary: a message under a header key that the peer never used
   does not pass authenticated decryption. Messages under the true header key are unrestricted.
   */
  ghost predicate NoForgedHeader(c: Primitives, receiver: Session, m: Message)
    requires Lawful(c)
  {
    NewHeaderKey(receiver, m) && m.counter !in receiver.skipped ==> Decrypt(c, receiver, m).Err?
  }

  ghost predicate Admissible(c: Primitives, sys: System, e: Event)
    requires Lawful(c)
  {
    match e
    case AliceSends(iv, _) => |iv| == IV_LEN
    case BobSends(iv, _) => |iv| == IV_LEN
    case AliceReceives(m) => NoForgedHeader(c, sys.alice.session, m)
    case BobReceives(m) => NoForgedHeader(c, sys.bob.session, m)
  }

  function Run(c: Primitives, sys: System, events: seq<Event>): System
    requires Lawful(c)
    decreases |events|
  {
    if events == [] then sys else Run(c, Step(c, sys, events[0]), events[1..])
  }

  ghost predicate AdmissibleRun(c: Primitives, sys: System, events: seq<Event>)
    requires Lawful(c)
    decreases |events|
  {
    events == [] || (Admissible(c, sys, events[0]) && AdmissibleRun(c, Step(c, sys, events[0]), events[1..]))
  }

  // ----- the invariant -----

  ghost predicate SenderInv(c: Primitives, start: bytes, p: Party)
    requires Lawful(c)
  {
    && p.session.sending == ChainAt(c, start, |p.sent|)
    && (forall i :: 0 <= i < |p.sent| ==> IsHonest(c, start, HeaderKey(p.session), i, p.sent[i]))
  }

  ghost predicate IsHonest(c: Primitives, start: bytes, header: bytes, i: nat, s: Sent)
    requires Lawful(c)
  {
    && |s.iv| == IV_LEN
    && s.message == Message(i, header, SealBody(c, MessageKeyAt(c, start, i), s.iv, s.plaintext))
  }

  /** Receive chain at its ideal value, skipped keys correct and below the counter, store bounded. */
  ghost predicate IdealSession(c: Primitives, start: bytes, peerHeader: bytes, s: Session)
    requires Lawful(c)
  {
    && s.receiving == ChainAt(c, start, s.receiving.counter)
    && s.remoteRatchetPub == Some(peerHeader)
    && (forall k :: k in s.skipped ==> k < s.receiving.counter && s.skipped[k] == MessageKeyAt(c, start, k))
    && |s.skipped| <= MAX_SKIP + 1
  }

  ghost predicate ReceiverInv(c: Primitives, start: bytes, peerHeader: bytes, p: Party)
    requires Lawful(c)
  {
    IdealSession(c, start, peerHeader, p.session) && AcceptedInv(c, start, p)
  }

  /** Accepted counters are below the receive counter, not skipped, distinct; plaintexts use the right key. */
  ghost predicate AcceptedInv(c: Primitives, start: bytes, p: Party)
    requires Lawful(c)
  {
    && (forall j :: 0 <= j < |p.received| ==>
          var r := p.received[j];
          && r.message.counter < p.session.receiving.counter
          && r.message.counter !in p.session.skipped
          && OpenBody(c, MessageKeyAt(c, start, r.message.counter), r.message.ciphertext) == Some(r.plaintext))
    && (forall j, k :: 0 <= j < k < |p.received| ==>
          p.received[j].message.counter != p.received[k].message.counter)
  }

  ghost predicate Inv(c: Primitives, startA: bytes, startB: bytes, sys: System)
    requires Lawful(c)
  {
    && SenderInv(c, startA, sys.alice)
    && SenderInv(c, startB, sys.bob)
    && ReceiverInv(c, startA, HeaderKey(sys.alice.session), sys.bob)
    && ReceiverInv(c, startB, HeaderKey(sys.bob.session), sys.alice)
  }

  lemma StoreOne(skipped: map<nat, bytes>, k: nat, key: bytes)
    ensures |skipped[k := key]| == |skipped| + (if k in skipped then 0 else 1)
  {
    assert skipped[k := key].Keys == skipped.Keys + {k};
  }

  /** Closed form of the skipping loop on an ideal chain. */
  lemma {:induction false} SkipKeysExact(
      c: Primitives, start: bytes, from: nat, until: nat, skipped: map<nat, bytes>)
    requires Lawful(c) && from <= until
    requires forall k :: k in skipped ==> k < from && skipped[k] == MessageKeyAt(c, start, k)
    ensures SkipKeys(c, ChainAt(c, start, from), until, skipped).Some?
      <==> from == until || |skipped| + (until - from) <= MAX_SKIP + 1
    ensures SkipKeys(c, ChainAt(c, start, from), until, skipped).Some? ==>
      var (chain, filled) := SkipKeys(c, ChainAt(c, start, from), until, skipped).value;
      && chain == ChainAt(c, start, until)
      && (forall k :: k in filled <==> k in skipped || from <= k < until)
      && (forall k :: k in filled ==> filled[k] == MessageKeyAt(c, start, k))
      && |filled| == |skipped| + (until - from)
    decreases until - from
  {
    hide NextChainKey; hide MessageKey; hide Lawful;
    if from != until && |skipped| <= MAX_SKIP {
      var stored := skipped[from := MessageKeyAt(c, start, from)];
      StoreOne(skipped, from, MessageKeyAt(c, start, from));
      assert Advance(c, ChainAt(c, start, from)) == ChainAt(c, start, from + 1);
      SkipKeysExact(c, start, from + 1, until, stored);
    }
  }

  lemma {:induction false} SendKeepsSender(c: Primitives, start: bytes, p: Party, iv: bytes, plaintext: bytes)
    requires Lawful(c) && SenderInv(c, start, p) && |iv| == IV_LEN
    ensures SenderInv(c, start, Send(c, p, iv, plaintext))
  {
  }

  /** Sending touches neither what was received nor the header key. */
  lemma SendKeepsReceiver(
      c: Primitives, start: bytes, peerHeader: bytes, p: Party, iv: bytes, plaintext: bytes)
    requires Lawful(c)
    ensures HeaderKey(Send(c, p, iv, plaintext).session) == HeaderKey(p.session)
    ensures ReceiverInv(c, start, peerHeader, p)
      ==> ReceiverInv(c, start, peerHeader, Send(c, p, iv, plaintext))
  {
  }

  /** Receiving touches neither what was sent nor the header key. */
  lemma ReceiveKeepsSender(c: Primitives, start: bytes, p: Party, m: Message)
    requires Lawful(c)
    ensures HeaderKey(Receive(c, p, m).session) == HeaderKey(p.session)
    ensures SenderInv(c, start, p) ==> SenderInv(c, start, Receive(c, p, m))
  {
  }

  /** Recording one more acceptance under the right key, with a counter not accepted before. */
  lemma AcceptOne(c: Primitives, start: bytes, p: Party, s: Session, m: Message, plaintext: bytes)
    requires Lawful(c) && AcceptedInv(c, start, p)
    requires p.session.receiving.counter <= s.receiving.counter && m.counter < s.receiving.counter
    requires forall k :: k in s.skipped ==> k in p.session.skipped || p.session.receiving.counter <= k
    requires m.counter !in s.skipped
    requires m.counter in p.session.skipped || p.session.receiving.counter <= m.counter
    requires OpenBody(c, MessageKeyAt(c, start, m.counter), m.ciphertext) == Some(plaintext)
    ensures AcceptedInv(c, start, p.(session := s, received := p.received + [Received(m, plaintext)]))
  {
  }

  /** What one successful decryption does to an ideal session. */
  ghost predicate IdealStep(c: Primitives, start: bytes, s: Session, m: Message, s': Session, plaintext: bytes)
    requires Lawful(c)
  {
    && s.receiving.counter <= s'.receiving.counter && m.counter < s'.receiving.counter
    && (forall k :: k in s'.skipped ==> k in s.skipped || s.receiving.counter <= k)
    && m.counter !in s'.skipped
    && (m.counter in s.skipped || s.receiving.counter <= m.counter)
    && OpenBody(c, MessageKeyAt(c, start, m.counter), m.ciphertext) == Some(plaintext)
  }

  lemma DecryptSkipped(c: Primitives, start: bytes, peerHeader: bytes, s: Session, m: Message)
    requires Lawful(c) && IdealSession(c, start, peerHeader, s) && m.counter in s.skipped
    ensures Decrypt(c, s, m).Ok? ==>
      var (s', plaintext) := Decrypt(c, s, m).value;
      IdealSession(c, start, peerHeader, s') && IdealStep(c, start, s, m, s', plaintext)
  {
    assert (s.skipped - {m.counter}).Keys == s.skipped.Keys - {m.counter};
    assert |(s.skipped - {m.counter}).Keys| < |s.skipped.Keys|;
  }

  lemma DecryptAhead(c: Primitives, start: bytes, peerHeader: bytes, s: Session, m: Message)
    requires Lawful(c) && IdealSession(c, start, peerHeader, s) && m.counter !in s.skipped
    requires NoForgedHeader(c, s, m)
    ensures Decrypt(c, s, m).Ok? ==>
      var (s', plaintext) := Decrypt(c, s, m).value;
      IdealSession(c, start, peerHeader, s') && IdealStep(c, start, s, m, s', plaintext)
  {
    hide OpenBody; hide KdfRoot; hide MessageKey; hide NextChainKey; hide Lawful;
    if Decrypt(c, s, m).Ok? {
      SkipKeysExact(c, start, s.receiving.counter, m.counter, s.skipped);
      assert ChainAt(c, start, m.counter + 1) == Advance(c, ChainAt(c, start, m.counter));
    }
  }

  /** Accepting keeps the receiver invariant, whatever bytes were delivered. */
  lemma {:induction false} ReceiveKeepsReceiver(
      c: Primitives, start: bytes, peerHeader: bytes, p: Party, m: Message)
    requires Lawful(c) && ReceiverInv(c, start, peerHeader, p)
    requires NoForgedHeader(c, p.session, m)
    ensures ReceiverInv(c, start, peerHeader, Receive(c, p, m))
  {
    if Decrypt(c, p.session, m).Ok? {
      if m.counter in p.session.skipped {
        DecryptSkipped(c, start, peerHeader, p.session, m);
      } else {
        DecryptAhead(c, start, peerHeader, p.session, m);
      }
      var (s', plaintext) := Decrypt(c, p.session, m).value;
      AcceptOne(c, start, p, s', m, plaintext);
    }
  }

  lemma StepKeepsInv(c: Primitives, startA: bytes, startB: bytes, sys: System, e: Event)
    requires Lawful(c) && Inv(c, startA, startB, sys) && Admissible(c, sys, e)
    ensures Inv(c, startA, startB, Step(c, sys, e))
  {
    match e
    case AliceSends(iv, pt) =>
      SendKeepsSender(c, startA, sys.alice, iv, pt);
      SendKeepsReceiver(c, startB, HeaderKey(sys.bob.session), sys.alice, iv, pt);
    case BobSends(iv, pt) =>
      SendKeepsSender(c, startB, sys.bob, iv, pt);
      SendKeepsReceiver(c, startA, HeaderKey(sys.alice.session), sys.bob, iv, pt);
    case AliceReceives(m) =>
      ReceiveKeepsReceiver(c, startB, HeaderKey(sys.bob.session), sys.alice, m);
      ReceiveKeepsSender(c, startA, sys.alice, m);
    case BobReceives(m) =>
      ReceiveKeepsReceiver(c, startA, HeaderKey(sys.alice.session), sys.bob, m);
      ReceiveKeepsSender(c, startB, sys.bob, m);
  }

  lemma {:induction false} RunKeepsInv(
      c: Primitives, startA: bytes, startB: bytes, sys: System, events: seq<Event>)
    requires Lawful(c) && Inv(c, startA, startB, sys) && AdmissibleRun(c, sys, events)
    ensures Inv(c, startA, startB, Run(c, sys, events))
    decreases |events|
  {
    if events != [] {
      StepKeepsInv(c, startA, startB, sys, events[0]);
      RunKeepsInv(c, startA, startB, Step(c, sys, events[0]), events[1..]);
    }
  }

  /** Header keys never change: neither side ever makes a new ratchet key. */
  lemma {:induction false} RunKeepsHeaders(c: Primitives, sys: System, events: seq<Event>)
    requires Lawful(c)
    ensures HeaderKey(Run(c, sys, events).alice.session) == HeaderKey(sys.alice.session)
    ensures HeaderKey(Run(c, sys, events).bob.session) == HeaderKey(sys.bob.session)
    decreases |events|
  {
    if events != [] {
      StepKeepsHeaders(c, sys, events[0]);
      RunKeepsHeaders(c, Step(c, sys, events[0]), events[1..]);
    }
  }

  lemma StepKeepsHeaders(c: Primitives, sys: System, e: Event)
    requires Lawful(c)
    ensures HeaderKey(Step(c, sys, e).alice.session) == HeaderKey(sys.alice.session)
    ensures HeaderKey(Step(c, sys, e).bob.session) == HeaderKey(sys.bob.session)
  {
    match e
    case AliceSends(iv, pt) => SendKeepsReceiver(c, [], [], sys.alice, iv, pt);
    case BobSends(iv, pt) => SendKeepsReceiver(c, [], [], sys.bob, iv, pt);
    case AliceReceives(m) => ReceiveKeepsSender(c, [], sys.alice, m);
    case BobReceives(m) => ReceiveKeepsSender(c, [], sys.bob, m);
  }

  // ----- main results -----

  /** The messages a receiver in session s will take, out of everything honestly sent. */
  predicate InWindow(s: Session, i: nat) {
    i in s.skipped
    || (s.receiving.counter <= i && |s.skipped| + (i - s.receiving.counter) <= MAX_SKIP + 1)
  }

  /** Exact acceptance: an honest message is taken if and only if it is in the window, with its plaintext. */
  lemma {:induction false} HonestAcceptance(
      c: Primitives, start: bytes, sender: Party, receiver: Party, i: nat)
    requires Lawful(c) && i < |sender.sent|
    requires SenderInv(c, start, sender) && ReceiverInv(c, start, HeaderKey(sender.session), receiver)
    ensures Decrypt(c, receiver.session, sender.sent[i].message).Ok? <==> InWindow(receiver.session, i)
    ensures InWindow(receiver.session, i) ==>
      Decrypt(c, receiver.session, sender.sent[i].message).value.1 == sender.sent[i].plaintext
    ensures !NewHeaderKey(receiver.session, sender.sent[i].message)
  {
    var s := receiver.session;
    var honest := sender.sent[i];
    assert IsHonest(c, start, HeaderKey(sender.session), i, honest);
    OpenSealedBody(c, MessageKeyAt(c, start, i), honest.iv, honest.plaintext);
    if i !in s.skipped && s.receiving.counter <= i {
      SkipKeysExact(c, start, s.receiving.counter, i, s.skipped);
    }
  }

  /** What one side has accepted: no counter twice, and honest messages give exactly what was sent. */
  ghost predicate SafeReception(sender: Party, receiver: Party) {
    && (forall j, k :: 0 <= j < k < |receiver.received| ==>
          receiver.received[j].message.counter != receiver.received[k].message.counter)
    && (forall i, j :: 0 <= i < |sender.sent| && 0 <= j < |receiver.received| ==>
          receiver.received[j].message == sender.sent[i].message ==>
          receiver.received[j].plaintext == sender.sent[i].plaintext)
    && |receiver.session.skipped| <= MAX_SKIP + 1
  }

  lemma {:induction false} InvGivesSafety(c: Primitives, start: bytes, sender: Party, receiver: Party)
    requires Lawful(c)
    requires SenderInv(c, start, sender) && ReceiverInv(c, start, HeaderKey(sender.session), receiver)
    ensures SafeReception(sender, receiver)
  {
    forall i, j | 0 <= i < |sender.sent| && 0 <= j < |receiver.received|
      && receiver.received[j].message == sender.sent[i].message
      ensures receiver.received[j].plaintext == sender.sent[i].plaintext
    {
      var honest := sender.sent[i];
      assert IsHonest(c, start, HeaderKey(sender.session), i, honest);
      OpenSealedBody(c, MessageKeyAt(c, start, i), honest.iv, honest.plaintext);
    }
  }

  /** A message that was accepted once is never accepted again. */
  lemma NoReplay(c: Primitives, start: bytes, peerHeader: bytes, p: Party, j: nat)
    requires Lawful(c) && ReceiverInv(c, start, peerHeader, p) && j < |p.received|
    ensures forall m: Message | m.counter == p.received[j].message.counter && NoForgedHeader(c, p.session, m) ::
              Receive(c, p, m) == p
  {
    forall m: Message | m.counter == p.received[j].message.counter && NoForgedHeader(c, p.session, m)
      ensures Receive(c, p, m) == p
    {
      assert p.received[j].message.counter < p.session.receiving.counter;
    }
  }

  /** The window's edge: to a fresh receiver message 101 is the last acceptable one, and it fills the store. */
  lemma StoreFillsExactly(c: Primitives, start: bytes, sender: Party, receiver: Party)
    requires Lawful(c) && |sender.sent| > 102
    requires SenderInv(c, start, sender) && ReceiverInv(c, start, HeaderKey(sender.session), receiver)
    requires receiver.session.receiving.counter == 0 && receiver.session.skipped == map[]
    ensures
      var last := Decrypt(c, receiver.session, sender.sent[101].message);
      last.Ok? && |last.value.0.skipped| == 101
    ensures Decrypt(c, receiver.session, sender.sent[102].message).Err?
  {
    HonestAcceptance(c, start, sender, receiver, 101);
    HonestAcceptance(c, start, sender, receiver, 102);
    SkipKeysExact(c, start, 0, 101, map[]);
    assert IsHonest(c, start, HeaderKey(sender.session), 101, sender.sent[101]);
  }

  /** A stored skipped key decides alone: the header key of the message plays no part. */
  lemma SkippedKeyIgnoresHeader(c: Primitives, s: Session, m: Message, header: bytes)
    requires Lawful(c) && m.counter in s.skipped
    ensures Decrypt(c, s, m) == Decrypt(c, s, m.(ratchetPub := header))
  {
  }

  /**
   Why the invariant stops at a new header key: the step restarts the counter but keeps every old
   skipped key, so any old key above the new message's counter breaks "skipped keys lie below the
   counter", and by SkippedKeyIgnoresHeader it then shadows the new chain.
   */
  lemma NewHeaderKeepsOldKeys(c: Primitives, s: Session, m: Message, k: nat)
    requires Lawful(c) && NewHeaderKey(s, m) && m.counter !in s.skipped && Decrypt(c, s, m).Ok?
    requires k in s.skipped && k > m.counter
    ensures
      var s' := Decrypt(c, s, m).value.0;
      k in s'.skipped && s'.skipped[k] == s.skipped[k] && s'.receiving.counter == m.counter + 1 <= k
  {
    var s1 := AfterRatchet(c, s, m);
    SkipKeysKeepsOthers(c, s1.receiving, m.counter, s.skipped, k);
  }

  lemma {:induction false} SkipKeysKeepsOthers(c: Primitives, chain: Chain, until: nat, skipped: map<nat, bytes>, k: nat)
    requires Lawful(c) && k in skipped && k >= until && chain.counter <= until
    ensures SkipKeys(c, chain, until, skipped).Some? ==>
      var (chain', filled) := SkipKeys(c, chain, until, skipped).value;
      k in filled && filled[k] == skipped[k] && chain'.counter == until
    decreases until - chain.counter
  {
    if chain.counter < until && |skipped| <= MAX_SKIP {
      SkipKeysKeepsOthers(
        c, Advance(c, chain), until, skipped[chain.counter := MessageKey(c, chain.key)], k);
    }
  }

  lemma {:induction false} SkipKeysReaches(c: Primitives, chain: Chain, until: nat, skipped: map<nat, bytes>)
    requires Lawful(c) && chain.counter <= until
    ensures SkipKeys(c, chain, until, skipped).Some? ==> SkipKeys(c, chain, until, skipped).value.0.counter == until
    decreases until - chain.counter
  {
    if chain.counter < until && |skipped| <= MAX_SKIP {
      SkipKeysReaches(c, Advance(c, chain), until, skipped[chain.counter := MessageKey(c, chain.key)]);
    }
  }

  /** A successful decryption always leaves another session than before. */
  lemma DecryptChangesSession(c: Primitives, s: Session, m: Message)
    requires Lawful(c)
    ensures Decrypt(c, s, m).Ok? ==> Decrypt(c, s, m).value.0 != s
  {
    hide OpenBody; hide KdfRoot; hide MessageKey; hide NextChainKey; hide Lawful;
    if Decrypt(c, s, m).Ok? {
      var next := Decrypt(c, s, m).value.0;
      if m.counter in s.skipped {
        assert m.counter !in next.skipped;
      } else {
        SkipKeysReaches(c, AfterRatchet(c, s, m).receiving, m.counter, s.skipped);
        assert next.receiving.counter == m.counter + 1;
        assert NewHeaderKey(s, m) ==> next.remoteRatchetPub == Some(m.ratchetPub);
      }
    }
  }

  /** Skipping over a store whose keys all lie below `until` overwrites every one that is not of this chain. */
  lemma {:induction false} SkipKeysReplacesAll(
      c: Primitives, start: bytes, from: nat, until: nat, skipped: map<nat, bytes>)
    requires Lawful(c) && from <= until && |skipped| <= MAX_SKIP + 1
    requires forall k :: k in skipped ==> k < until && (k < from ==> skipped[k] == MessageKeyAt(c, start, k))
    ensures SkipKeys(c, ChainAt(c, start, from), until, skipped).Some? ==>
      var (chain, filled) := SkipKeys(c, ChainAt(c, start, from), until, skipped).value;
      && chain == ChainAt(c, start, until) && |filled| <= MAX_SKIP + 1
      && (forall k :: k in filled ==> k < until && filled[k] == MessageKeyAt(c, start, k))
    decreases until - from
  {
    hide NextChainKey; hide MessageKey; hide Lawful;
    if from != until && |skipped| <= MAX_SKIP {
      var stored := skipped[from := MessageKeyAt(c, start, from)];
      StoreOne(skipped, from, MessageKeyAt(c, start, from));
      assert Advance(c, ChainAt(c, start, from)) == ChainAt(c, start, from + 1);
      SkipKeysReplacesAll(c, start, from + 1, until, stored);
    }
  }

  /**
   Exactly when the Diffie-Hellman step restores the session invariant, now for the new chain: when
   every key still stored lies below the new message's counter. Those keys are then overwritten.
   */
  lemma NewHeaderExactly(c: Primitives, s: Session, m: Message)
    requires Lawful(c) && NewHeaderKey(s, m) && m.counter !in s.skipped && Decrypt(c, s, m).Ok?
    requires |s.skipped| <= MAX_SKIP + 1
    ensures IdealSession(c, AfterRatchet(c, s, m).receiving.key, m.ratchetPub, Decrypt(c, s, m).value.0)
      <==> forall k :: k in s.skipped ==> k < m.counter
  {
    var start := AfterRatchet(c, s, m).receiving.key;
    if k :| k in s.skipped && k >= m.counter {
      NewHeaderKeepsOldKeys(c, s, m, k);
    } else {
      hide OpenBody; hide KdfRoot; hide MessageKey; hide NextChainKey; hide Lawful;
      assert AfterRatchet(c, s, m).receiving == ChainAt(c, start, 0);
      SkipKeysReplacesAll(c, start, 0, m.counter, s.skipped);
      assert ChainAt(c, start, m.counter + 1) == Advance(c, ChainAt(c, start, m.counter));
    }
  }

  // ----- from key agreement to safe runs -----

  datatype Agreement = Agreement(
    aliceIdentity: KeyPair, aliceEphemeral: KeyPair,
    bobIdentity: KeyPair, bobSignedPreKey: KeyPair, bobOneTime: Option<KeyPair>)

  ghost predicate GoodAgreement(c: Primitives, a: Agreement) {
    && GoodPair(c, a.aliceIdentity) && GoodPair(c, a.aliceEphemeral)
    && GoodPair(c, a.bobIdentity) && GoodPair(c, a.bobSignedPreKey)
    && (a.bobOneTime.Some? ==> GoodPair(c, a.bobOneTime.value))
  }

  /** Alice runs the initiator from Bob's public bundle, Bob the responder from Alice's public keys. */
  function Establish(c: Primitives, a: Agreement): System
    requires Lawful(c)
  {
    System(
      Party(InitAsInitiator(
        c, "bob", a.aliceIdentity, a.aliceEphemeral, a.bobIdentity.pub, a.bobSignedPreKey.pub,
        if a.bobOneTime.Some? then Some(a.bobOneTime.value.pub) else None), [], []),
      Party(InitAsResponder(
        c, "alice", a.bobIdentity, a.bobSignedPreKey, a.aliceIdentity.pub, a.aliceEphemeral.pub,
        a.bobOneTime), [], []))
  }

  /** X3DH: both sides derive the same root and chain keys and know each other's header key. */
  lemma SessionsAgree(c: Primitives, a: Agreement)
    requires Lawful(c) && GoodAgreement(c, a)
    ensures
      var sys := Establish(c, a);
      var (x, y) := (sys.alice.session, sys.bob.session);
      && x.rootKey == y.rootKey
      && x.sending == y.receiving && x.receiving == y.sending
      && x.remoteRatchetPub == Some(HeaderKey(y)) && y.remoteRatchetPub == Some(HeaderKey(x))
      && Inv(c, x.sending.key, x.sending.key, sys)
  {
    assert c.agree(a.aliceIdentity.priv, a.bobSignedPreKey.pub) == c.agree(a.bobSignedPreKey.priv, a.aliceIdentity.pub);
    assert c.agree(a.aliceEphemeral.priv, a.bobIdentity.pub) == c.agree(a.bobIdentity.priv, a.aliceEphemeral.pub);
    assert c.agree(a.aliceEphemeral.priv, a.bobSignedPreKey.pub) == c.agree(a.bobSignedPreKey.priv, a.aliceEphemeral.pub);
  }

  /**
   Ratchet safety. After any admissible run of freshly agreed sessions, in both directions:
   no counter was decrypted twice, every accepted honest message gave the sent plaintext, the
   skipped store is bounded, and the next honest message i is accepted exactly when in the window.
   */
  lemma RatchetSafety(c: Primitives, a: Agreement, events: seq<Event>)
    requires Lawful(c) && GoodAgreement(c, a)
    requires AdmissibleRun(c, Establish(c, a), events)
    ensures
      var sys := Run(c, Establish(c, a), events);
      && SafeReception(sys.alice, sys.bob)
      && SafeReception(sys.bob, sys.alice)
      && (forall i :: 0 <= i < |sys.alice.sent| ==>
            (Decrypt(c, sys.bob.session, sys.alice.sent[i].message).Ok? <==> InWindow(sys.bob.session, i)))
      && (forall i :: 0 <= i < |sys.bob.sent| ==>
            (Decrypt(c, sys.alice.session, sys.bob.sent[i].message).Ok? <==> InWindow(sys.alice.session, i)))
  {
    var start := Establish(c, a).alice.session.sending.key;
    SessionsAgree(c, a);
    RunKeepsInv(c, start, start, Establish(c, a), events);
    var sys := Run(c, Establish(c, a), events);
    InvGivesSafety(c, start, sys.alice, sys.bob);
    InvGivesSafety(c, start, sys.bob, sys.alice);
    forall i | 0 <= i < |sys.alice.sent|
      ensures Decrypt(c, sys.bob.session, sys.alice.sent[i].message).Ok? <==> InWindow(sys.bob.session, i)
    {
      HonestAcceptance(c, start, sys.alice, sys.bob, i);
    }
    forall i | 0 <= i < |sys.bob.sent|
      ensures Decrypt(c, sys.alice.session, sys.bob.sent[i].message).Ok? <==> InWindow(sys.alice.session, i)
    {
      HonestAcceptance(c, start, sys.bob, sys.alice, i);
    }
  }
}

/** Length-prefixed frames and the transport session that seals and opens them with implicit nonces. */
module NoiseTransport {
  import opened Prelude
  import opened Crypto
  import opened NoiseHandshake

  const MAX_FRAME := 0xff_ffff

  // ----- frames -----

  function Frame(payload: bytes): bytes {
    BE24(|payload|) + payload
  }

  method EncodeFrame(payload: bytes) returns (r: Result<bytes>)
    ensures r.Ok? <==> |payload| <= MAX_FRAME
    ensures r.Ok? ==> r.value == Frame(payload)
  {
    if |payload| > MAX_FRAME {
      return Err("payload too large");
    }
    var header := new byte[3](i => 0);
    header[0] := |payload| / 0x1_0000 % 0x100;
    header[1] := |payload| / 0x100 % 0x100;
    header[2] := |payload| % 0x100;
    return Ok(header[..] + payload);
  }

  /** The first whole frame of a buffer and what follows it. */
  function DecodeFrame(buf: bytes): (r: Option<(bytes, bytes)>)
    ensures r.Some? ==> |r.value.1| < |buf|
  {
    if |buf| < 3 then None else
    var len := Join24(buf[0], buf[1], buf[2]);
    if |buf| < 3 + len then None else Some((buf[3..3 + len], buf[3 + len..]))
  }

  /** A frame in front of anything is pulled off exactly. */
  lemma DecodeEncodedFrame(payload: bytes, rest: bytes)
    requires |payload| <= MAX_FRAME
    ensures DecodeFrame(Frame(payload) + rest) == Some((payload, rest))
  {
    JoinBE24(|payload|);
    var buf := Frame(payload) + rest;
    assert buf[0] == BE24(|payload|)[0] && buf[1] == BE24(|payload|)[1] && buf[2] == BE24(|payload|)[2];
    assert buf[3..3 + |payload|] == payload && buf[3 + |payload|..] == rest;
  }

  /** More bytes never change a frame that is already whole. */
  lemma DecodeFrameExtends(a: bytes, b: bytes)
    requires DecodeFrame(a).Some?
    ensures DecodeFrame(a + b) == Some((DecodeFrame(a).value.0, DecodeFrame(a).value.1 + b))
  {
    var len := Join24(a[0], a[1], a[2]);
    assert (a + b)[3..3 + len] == a[3..3 + len];
    assert (a + b)[3 + len..] == a[3 + len..] + b;
  }

  // ----- opening -----

  function NoiseDecrypt(c: Primitives, key: bytes, nonce: nat, ciphertext: bytes): Option<bytes> {
    if |ciphertext| < TAG_LEN then None else c.open(key, NonceBytes(nonce), [], ciphertext)
  }

  /** Plaintexts handed out, then the read nonce, the leftover bytes and whether all frames opened. */
  datatype Drained = Drained(out: seq<bytes>, nonce: nat, rest: bytes, ok: bool)

  /** Opens every whole frame of a buffer; stops behind the first frame that does not decrypt. */
  function Drain(c: Primitives, key: bytes, nonce: nat, buf: bytes): (d: Drained)
    ensures d.ok ==> DecodeFrame(d.rest).None?
    decreases |buf|
  {
    match DecodeFrame(buf)
    case None => Drained([], nonce, buf, true)
    case Some((payload, rest)) =>
      match NoiseDecrypt(c, key, nonce, payload)
      case None => Drained([], nonce, rest, false)
      case Some(pt) =>
        var d := Drain(c, key, nonce + 1, rest);
        d.(out := [pt] + d.out)
  }

  /** The transport session of the program. */
  class NoiseSession {
    const sendKey: bytes
    const recvKey: bytes
    var writeNonce: nat
    var readNonce: nat
    var rxBuffer: bytes

    constructor (keys: TransportKeys)
      ensures sendKey == keys.sendKey && recvKey == keys.recvKey
      ensures writeNonce == keys.writeNonce && readNonce == keys.readNonce && rxBuffer == []
    {
      sendKey, recvKey := keys.sendKey, keys.recvKey;
      writeNonce, readNonce, rxBuffer := keys.writeNonce, keys.readNonce, [];
    }

    /** The nonce is spent even when the frame turns out too large to send. */
    method Seal(c: Primitives, plaintext: bytes) returns (r: Result<bytes>)
      requires Lawful(c)
      modifies this
      ensures writeNonce == old(writeNonce) + 1 && readNonce == old(readNonce) && rxBuffer == old(rxBuffer)
      ensures r.Ok? <==> |plaintext| + TAG_LEN <= MAX_FRAME
      ensures r.Ok? ==> r.value == SealedFrame(c, sendKey, old(writeNonce), plaintext)
    {
      var nonce := Nonce(writeNonce);
      var ct := c.seal(sendKey, nonce, [], plaintext);
      writeNonce := writeNonce + 1;
      r := EncodeFrame(ct);
    }

    /** On a bad frame the call fails, with the plaintexts before it lost and the cursor behind it. */
    method Open(c: Primitives, chunk: bytes) returns (r: Result<seq<bytes>>)
      modifies this
      ensures var d := Drain(c, recvKey, old(readNonce), old(rxBuffer) + chunk);
        && readNonce == d.nonce && rxBuffer == d.rest && writeNonce == old(writeNonce)
        && r.Ok? == d.ok && (r.Ok? ==> r.value == d.out)
      ensures r.Ok? ==> DecodeFrame(rxBuffer).None?
    {
      hide DecodeFrame; hide NoiseDecrypt;
      rxBuffer := rxBuffer + chunk;
      var out: seq<bytes> := [];
      ghost var all := Drain(c, recvKey, readNonce, rxBuffer);
      while true
        invariant writeNonce == old(writeNonce)
        invariant var d := Drain(c, recvKey, readNonce, rxBuffer);
          all == Drained(out + d.out, d.nonce, d.rest, d.ok)
        decreases |rxBuffer|
      {
        var decoded := DecodeFrame(rxBuffer);
        if decoded.None? {
          break;
        }
        rxBuffer := decoded.value.1;
        var pt := NoiseDecrypt(c, recvKey, readNonce, decoded.value.0);
        if pt.None? {
          return Err("unable to authenticate data");
        }
        readNonce := readNonce + 1;
        out := out + [pt.value];
      }
      return Ok(out);
    }
  }

  /** A frame too short for a tag, or one that does not authenticate, fails the buffer, is used up and spends no nonce. */
  lemma BadFrameExactly(c: Primitives, key: bytes, nonce: nat, payload: bytes, rest: bytes)
    requires |payload| <= 0xff_ffff
    ensures
      var d := Drain(c, key, nonce, Frame(payload) + rest);
      if |payload| < 16 || c.open(key, NonceBytes(nonce), [], payload).None? then d == Drained([], nonce, rest, false)
      else d.out != [] && d.out[0] == c.open(key, NonceBytes(nonce), [], payload).value
  {
    DecodeEncodedFrame(payload, rest);
  }

  // ----- independence of how the stream is cut -----

  /** Draining a longer buffer continues where draining its front stopped. */
  lemma {:induction false} DrainContinues(c: Primitives, key: bytes, nonce: nat, a: bytes, b: bytes)
    ensures
      var d := Drain(c, key, nonce, a);
      var all := Drain(c, key, nonce, a + b);
      if !d.ok then all == d.(rest := d.rest + b)
      else
        var e := Drain(c, key, d.nonce, d.rest + b);
        all == e.(out := d.out + e.out)
    decreases |a|
  {
    hide DecodeFrame; hide NoiseDecrypt; hide NonceBytes;
    if DecodeFrame(a).None? {
      var e := Drain(c, key, nonce, a + b);
      assert [] + e.out == e.out;
    } else {
      var (payload, rest) := DecodeFrame(a).value;
      DecodeFrameExtends(a, b);
      var pt := NoiseDecrypt(c, key, nonce, payload);
      if pt.Some? {
        DrainContinues(c, key, nonce + 1, rest, b);
        var d := Drain(c, key, nonce + 1, rest);
        if d.ok {
          var e := Drain(c, key, d.nonce, d.rest + b);
          assert [pt.value] + (d.out + e.out) == [pt.value] + d.out + e.out;
        }
      }
    }
  }

  /** Feeding chunk after chunk; a failing call ends the feeding and its own plaintexts are lost. */
  function FeedAll(c: Primitives, key: bytes, nonce: nat, buf: bytes, chunks: seq<bytes>): Drained
    decreases |chunks|
  {
    if chunks == [] then Drained([], nonce, buf, true) else
    var d := Drain(c, key, nonce, buf + chunks[0]);
    if !d.ok then d.(out := []) else
    var e := FeedAll(c, key, d.nonce, d.rest, chunks[1..]);
    e.(out := d.out + e.out)
  }

  lemma {:induction false} FeedingIsDraining(c: Primitives, key: bytes, nonce: nat, buf: bytes, chunks: seq<bytes>)
    requires DecodeFrame(buf).None?
    ensures
      var f := FeedAll(c, key, nonce, buf, chunks);
      var d := Drain(c, key, nonce, buf + Concat(chunks));
      f.ok == d.ok && f.nonce == d.nonce && f.out <= d.out && (d.ok ==> f == d)
    decreases |chunks|
  {
    if chunks == [] {
      assert buf + [] == buf;
    } else {
      var front, rest := buf + chunks[0], Concat(chunks[1..]);
      assert buf + Concat(chunks) == front + rest;
      DrainContinues(c, key, nonce, front, rest);
      var d := Drain(c, key, nonce, front);
      if d.ok {
        FeedingIsDraining(c, key, d.nonce, d.rest, chunks[1..]);
      }
    }
  }

  /**
   Chunking independence: two ways to cut the same bytes either both fail, or hand out the same
   plaintexts and leave the same leftover, which holds no whole frame. The read nonce is the same
   even if they fail; what was handed out by then differs at most in how far it got.
   */
  lemma ChunkingIndependence(c: Primitives, key: bytes, nonce: nat, cut1: seq<bytes>, cut2: seq<bytes>)
    requires Concat(cut1) == Concat(cut2)
    ensures
      var f := FeedAll(c, key, nonce, [], cut1);
      var g := FeedAll(c, key, nonce, [], cut2);
      && f.ok == g.ok && f.nonce == g.nonce && (f.out <= g.out || g.out <= f.out)
      && (f.ok ==> f == g && DecodeFrame(f.rest).None?)
  {
    FeedingIsDraining(c, key, nonce, [], cut1);
    FeedingIsDraining(c, key, nonce, [], cut2);
  }

  // ----- honest streams -----

  function SealedFrame(c: Primitives, key: bytes, nonce: nat, plaintext: bytes): bytes {
    Frame(c.seal(key, NonceBytes(nonce), [], plaintext))
  }

  /** What a sender's calls of `seal` put on the wire. */
  function SealedStream(c: Primitives, key: bytes, nonce: nat, plaintexts: seq<bytes>): bytes
    decreases |plaintexts|
  {
    if plaintexts == [] then []
    else SealedFrame(c, key, nonce, plaintexts[0]) + SealedStream(c, key, nonce + 1, plaintexts[1..])
  }

  predicate Sendable(plaintexts: seq<bytes>) {
    forall p :: p in plaintexts ==> |p| + TAG_LEN <= MAX_FRAME
  }

  lemma OpenSealedFrame(c: Primitives, key: bytes, nonce: nat, plaintext: bytes, rest: bytes)
    requires Lawful(c) && |plaintext| + TAG_LEN <= MAX_FRAME
    ensures
      var d := DecodeFrame(SealedFrame(c, key, nonce, plaintext) + rest);
      d.Some? && d.value.1 == rest && NoiseDecrypt(c, key, nonce, d.value.0) == Some(plaintext)
  {
    DecodeEncodedFrame(c.seal(key, NonceBytes(nonce), [], plaintext), rest);
  }

  lemma {:induction false} DrainSealed(c: Primitives, key: bytes, nonce: nat, plaintexts: seq<bytes>, tail: bytes)
    requires Lawful(c) && Sendable(plaintexts) && DecodeFrame(tail).None?
    ensures Drain(c, key, nonce, SealedStream(c, key, nonce, plaintexts) + tail)
      == Drained(plaintexts, nonce + |plaintexts|, tail, true)
    decreases |plaintexts|
  {
    hide DecodeFrame; hide NoiseDecrypt; hide SealedFrame;
    if plaintexts == [] {
      assert SealedStream(c, key, nonce, plaintexts) + tail == tail;
    } else {
      var rest := SealedStream(c, key, nonce + 1, plaintexts[1..]) + tail;
      assert SealedStream(c, key, nonce, plaintexts) + tail == SealedFrame(c, key, nonce, plaintexts[0]) + rest;
      OpenSealedFrame(c, key, nonce, plaintexts[0], rest);
      DrainSealed(c, key, nonce + 1, plaintexts[1..], tail);
    }
  }

  /** Any cutting of a sealed stream, with any unfinished frame behind it, yields what was sent. */
  lemma SealedStreamArrives(
      c: Primitives, key: bytes, nonce: nat, plaintexts: seq<bytes>, tail: bytes, chunks: seq<bytes>)
    requires Lawful(c) && Sendable(plaintexts) && DecodeFrame(tail).None?
    requires Concat(chunks) == SealedStream(c, key, nonce, plaintexts) + tail
    ensures FeedAll(c, key, nonce, [], chunks) == Drained(plaintexts, nonce + |plaintexts|, tail, true)
  {
    FeedingIsDraining(c, key, nonce, [], chunks);
    assert [] + Concat(chunks) == Concat(chunks);
    DrainSealed(c, key, nonce, plaintexts, tail);
  }
}

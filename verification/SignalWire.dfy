/** The versioned envelope of a Signal message and the container around it. */
module SignalWire {
  import opened Prelude
  import opened SignalSession

  const MAGIC: bytes := [75, 88, 83, 49] // "KXS1"
  const VERSION: byte := 1
  const PUB_LEN := 32
  const HEADER_LEN := 41

  function WireOf(m: Message): bytes {
    MAGIC + [VERSION] + BE32(m.counter) + m.ratchetPub + m.ciphertext
  }

  /** The header is written in place: magic, version, counter cut to 32 bits, ratchet key. */
  method EncodeSignalWire(m: Message) returns (r: Result<bytes>)
    ensures r.Ok? <==> |m.ratchetPub| == PUB_LEN
    ensures r.Ok? ==> r.value == WireOf(m)
  {
    if |m.ratchetPub| != PUB_LEN {
      return Err("ratchetPub must be 32 bytes");
    }
    var header := new byte[HEADER_LEN](i => 0);
    forall i | 0 <= i < 4 {
      header[i] := MAGIC[i];
    }
    header[4] := VERSION;
    WriteUInt32BE(header, m.counter, 5);
    forall i | 0 <= i < PUB_LEN {
      header[9 + i] := m.ratchetPub[i];
    }
    assert header[..] == MAGIC + [VERSION] + BE32(m.counter) + m.ratchetPub;
    return Ok(header[..] + m.ciphertext);
  }

  function DecodeSignalWire(buf: bytes): Result<Message> {
    if |buf| < HEADER_LEN then Err("signal wire too short")
    else if buf[..4] != MAGIC then Err("invalid signal wire magic")
    else Ok(Message(Join32(buf[5], buf[6], buf[7], buf[8]), buf[9..HEADER_LEN], buf[HEADER_LEN..]))
  }

  function Wrap(wire: bytes): bytes {
    [0] + wire
  }

  function Unwrap(buf: bytes): Result<(byte, bytes)> {
    if |buf| < 2 then Err("encrypted body too short") else Ok((buf[0], buf[1..]))
  }

  /** The envelope gives back the message exactly when its counter fits 32 bits. */
  lemma WireRoundTripExactly(m: Message)
    requires |m.ratchetPub| == PUB_LEN
    ensures DecodeSignalWire(WireOf(m)) == Ok(m) <==> m.counter < 0x1_0000_0000
    ensures DecodeSignalWire(WireOf(m)).Ok?
  {
    hide BE32; hide Join32;
    var (buf, counter) := (WireOf(m), BE32(m.counter));
    JoinBE32(m.counter);
    assert buf[..4] == MAGIC && buf[5..9] == counter;
    assert buf[5] == counter[0] && buf[6] == counter[1] && buf[7] == counter[2] && buf[8] == counter[3];
    assert buf[9..HEADER_LEN] == m.ratchetPub && buf[HEADER_LEN..] == m.ciphertext;
  }
}

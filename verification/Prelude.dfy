/** Shared vocabulary: bytes, optional values, results and big-endian integers. */
module Prelude {
  type byte = x: int | 0 <= x < 256
  type bytes = seq<byte>

  datatype Option<+T> = None | Some(value: T)

  /** The source's exceptions: a call either yields a value or reports an error. */
  datatype Result<+T> = Ok(value: T) | Err(error: string) {
    predicate IsFailure() {
      Err?
    }

    function PropagateFailure<U>(): Result<U>
      requires Err?
    {
      Err(error)
    }

    function Extract(): T
      requires Ok?
    {
      value
    }
  }

  function Min(a: int, b: int): int {
    if a <= b then a else b
  }

  function Max(a: int, b: int): int {
    if a <= b then b else a
  }

  /** The bytes of a string of single-byte characters. */
  function Ascii(s: string): (r: bytes)
    ensures |r| == |s|
  {
    seq(|s|, i requires 0 <= i < |s| => s[i] as int % 256)
  }

  // Big-endian integers; like the source's shift-and-mask code, higher bits are dropped.

  function BE16(v: nat): (r: bytes) {
    [v / 0x100 % 0x100, v % 0x100]
  }

  function BE24(v: nat): (r: bytes) {
    [v / 0x1_0000 % 0x100, v / 0x100 % 0x100, v % 0x100]
  }

  function BE32(v: nat): (r: bytes)
    ensures |r| == 4
  {
    [v / 0x100_0000 % 0x100, v / 0x1_0000 % 0x100, v / 0x100 % 0x100, v % 0x100]
  }

  function Join16(b0: nat, b1: nat): nat {
    b0 * 0x100 + b1
  }

  function Join24(b0: nat, b1: nat, b2: nat): nat {
    b0 * 0x1_0000 + b1 * 0x100 + b2
  }

  function Join32(b0: nat, b1: nat, b2: nat, b3: nat): nat {
    b0 * 0x100_0000 + b1 * 0x1_0000 + b2 * 0x100 + b3
  }

  /** Joining the four bytes written for v gives v cut to 32 bits. */
  lemma JoinBE32(v: nat)
    ensures Join32(BE32(v)[0], BE32(v)[1], BE32(v)[2], BE32(v)[3]) == v % 0x1_0000_0000
  {
    var (v1, v2, v3) := (v / 0x100, v / 0x1_0000, v / 0x100_0000);
    assert v == v1 * 0x100 + v % 0x100;
    assert v1 == v2 * 0x100 + v1 % 0x100;
    assert v2 == v3 * 0x100 + v2 % 0x100;
    assert v3 == v3 / 0x100 * 0x100 + v3 % 0x100;
  }

  lemma JoinBE24(v: nat)
    requires v < 0x100_0000
    ensures Join24(BE24(v)[0], BE24(v)[1], BE24(v)[2]) == v
  {
  }

  /** Writes a 32-bit big-endian integer into a buffer. */
  method WriteUInt32BE(a: array<byte>, v: nat, at: nat)
    requires at + 4 <= a.Length
    modifies a
    ensures a[..] == old(a[..at]) + BE32(v) + old(a[at + 4..])
  {
    a[at] := v / 0x100_0000 % 0x100;
    a[at + 1] := v / 0x1_0000 % 0x100;
    a[at + 2] := v / 0x100 % 0x100;
    a[at + 3] := v % 0x100;
  }

  /** All bytes of a sequence of chunks, in order. */
  function Concat(parts: seq<bytes>): (r: bytes) {
    if parts == [] then [] else parts[0] + Concat(parts[1..])
  }

  lemma {:induction false} ConcatAppend(a: seq<bytes>, b: seq<bytes>)
    ensures Concat(a + b) == Concat(a) + Concat(b)
  {
    if a == [] {
      assert a + b == b;
    } else {
      ConcatAppend(a[1..], b);
      assert (a + b)[0] == a[0] && (a + b)[1..] == a[1..] + b;
      assert a[0] + (Concat(a[1..]) + Concat(b)) == a[0] + Concat(a[1..]) + Concat(b);
    }
  }
}

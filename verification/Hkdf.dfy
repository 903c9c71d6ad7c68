/** HKDF-SHA256 (RFC 5869) as the program's buffer-filling loop computes it. */
module Hkdf {
  import opened Prelude
  import opened Crypto

  /** T(i) of section 2.3 of RFC 5869; the block counter is one octet, so it wraps. */
  function Block(c: Primitives, prk: bytes, info: bytes, i: nat): (t: bytes) {
    if i == 0 then [] else c.hmac(prk, Block(c, prk, info, i - 1) + info + [i % 256])
  }

  /** T(1) | T(2) | ... | T(n) */
  function Blocks(c: Primitives, prk: bytes, info: bytes, n: nat): (t: bytes) {
    if n == 0 then [] else Blocks(c, prk, info, n - 1) + Block(c, prk, info, n)
  }

  lemma {:induction false} BlocksLength(c: Primitives, prk: bytes, info: bytes, n: nat)
    requires Lawful(c)
    ensures |Blocks(c, prk, info, n)| == n * HASH_LEN
  {
    if n > 0 {
      BlocksLength(c, prk, info, n - 1);
    }
  }

  function BlockCount(length: nat): nat {
    (length + HASH_LEN - 1) / HASH_LEN
  }

  /** The extract step of section 2.2; a missing or empty salt is 32 zero bytes. */
  function Extract(c: Primitives, ikm: bytes, salt: bytes): (prk: bytes) {
    c.hmac(if salt == [] then Zeros(HASH_LEN) else salt, ikm)
  }

  /** The first `length` bytes of the block stream. */
  function Derive(c: Primitives, ikm: bytes, length: nat, info: bytes, salt: bytes): (okm: bytes)
    requires Lawful(c)
    ensures |okm| == length
  {
    var prk := Extract(c, ikm, salt);
    BlocksLength(c, prk, info, BlockCount(length));
    Blocks(c, prk, info, BlockCount(length))[..length]
  }

  /** Copies a block into a buffer at an offset. */
  method CopyInto(t: bytes, buffer: array<byte>, at: nat)
    requires at + |t| <= buffer.Length
    modifies buffer
    ensures buffer[..at + |t|] == old(buffer[..at]) + t
  {
    forall j | 0 <= j < |t| {
      buffer[at + j] := t[j];
    }
  }

  lemma NextBlock(c: Primitives, prk: bytes, info: bytes, i: nat)
    requires Lawful(c)
    ensures Block(c, prk, info, i + 1) == c.hmac(prk, Block(c, prk, info, i) + info + [(i + 1) % 256])
    ensures |Block(c, prk, info, i + 1)| == HASH_LEN
    ensures Blocks(c, prk, info, i + 1) == Blocks(c, prk, info, i) + Block(c, prk, info, i + 1)
  {
  }

  /** The program's loop: `t` is the running block, copied into the buffer at i * 32. */
  method FillBlocks(c: Primitives, prk: bytes, info: bytes, blocks: nat, buffer: array<byte>)
    requires Lawful(c) && buffer.Length == blocks * 32
    modifies buffer
    ensures buffer[..] == Blocks(c, prk, info, blocks)
  {
    var t: bytes := [];
    for i := 0 to blocks
      invariant t == Block(c, prk, info, i)
      invariant buffer[..i * 32] == Blocks(c, prk, info, i)
    {
      NextBlock(c, prk, info, i);
      hide Lawful; hide Blocks; hide Block;
      t := c.hmac(prk, t + info + [(i + 1) % 256]);
      CopyInto(t, buffer, i * 32);
    }
    assert buffer[..] == buffer[..blocks * 32];
  }

  method Compute(c: Primitives, ikm: bytes, length: nat, info: bytes, salt: bytes) returns (okm: bytes)
    requires Lawful(c)
    ensures okm == Derive(c, ikm, length, info, salt)
  {
    var prk := c.hmac(if |salt| > 0 then salt else Zeros(HASH_LEN), ikm);
    var blocks := (length + 31) / 32;
    var buffer := new byte[blocks * 32];
    FillBlocks(c, prk, info, blocks, buffer);
    okm := buffer[..length];
    assert okm == buffer[..][..length];
  }

  /** Asking for fewer bytes yields a prefix of what asking for more yields. */
  lemma ShorterIsPrefix(c: Primitives, ikm: bytes, short: nat, long: nat, info: bytes, salt: bytes)
    requires Lawful(c) && short <= long
    ensures Derive(c, ikm, short, info, salt) == Derive(c, ikm, long, info, salt)[..short]
  {
    var prk := Extract(c, ikm, salt);
    BlocksLength(c, prk, info, BlockCount(short));
    MoreBlocksExtend(c, prk, info, BlockCount(short), BlockCount(long));
  }

  lemma {:induction false} MoreBlocksExtend(c: Primitives, prk: bytes, info: bytes, m: nat, n: nat)
    requires Lawful(c) && m <= n
    ensures Blocks(c, prk, info, m) <= Blocks(c, prk, info, n)
  {
    if m < n {
      MoreBlocksExtend(c, prk, info, m, n - 1);
    }
  }

  /** Primitives whose `hkdf` is the program's own derivation from their `hmac`. */
  function WithHkdf(c: Primitives): Primitives {
    c.(hkdf := (ikm: bytes, length: nat, info: bytes) =>
      var stream := Blocks(c, Extract(c, ikm, []), info, BlockCount(length));
      if length <= |stream| then stream[..length] else stream)
  }

  /** The derivation meets the law assumed of it elsewhere. */
  lemma WithHkdfIsLawful(c: Primitives)
    requires Lawful(c)
    ensures Lawful(WithHkdf(c))
    ensures forall m, n, i :: WithHkdf(c).hkdf(m, n, i) == Derive(c, m, n, i, [])
  {
    forall m, n, i ensures WithHkdf(c).hkdf(m, n, i) == Derive(c, m, n, i, []) {
      BlocksLength(c, Extract(c, m, []), i, BlockCount(n));
    }
  }

  // ----- the standard's own definition, with its bound on the output length -----

  /** T(i) with its counter octet, defined by the RFC for i up to 255 only. */
  ghost function RfcBlock(c: Primitives, prk: bytes, info: bytes, i: nat): bytes
    requires i <= 255
  {
    if i == 0 then [] else
    var octet: byte := i;
    c.hmac(prk, RfcBlock(c, prk, info, i - 1) + info + [octet])
  }

  /** OKM as any octet string of the asked length whose k-th octet comes from block k/32 + 1. */
  ghost predicate IsRfcOutput(c: Primitives, prk: bytes, info: bytes, okm: bytes)
    requires |okm| <= 255 * HASH_LEN
  {
    forall k :: 0 <= k < |okm| ==>
      k % HASH_LEN < |RfcBlock(c, prk, info, k / HASH_LEN + 1)|
      && okm[k] == RfcBlock(c, prk, info, k / HASH_LEN + 1)[k % HASH_LEN]
  }

  lemma {:induction false} BlockIsRfcBlock(c: Primitives, prk: bytes, info: bytes, i: nat)
    requires i <= 255
    ensures Block(c, prk, info, i) == RfcBlock(c, prk, info, i)
  {
    if i > 0 {
      BlockIsRfcBlock(c, prk, info, i - 1);
      assert i % 256 == i;
    }
  }

  lemma {:induction false} BlocksAt(c: Primitives, prk: bytes, info: bytes, n: nat, k: nat)
    requires Lawful(c) && k < n * HASH_LEN
    ensures |Blocks(c, prk, info, n)| == n * HASH_LEN
    ensures Blocks(c, prk, info, n)[k] == Block(c, prk, info, k / HASH_LEN + 1)[k % HASH_LEN]
  {
    BlocksLength(c, prk, info, n);
    BlocksLength(c, prk, info, n - 1);
    if k < (n - 1) * HASH_LEN {
      BlocksAt(c, prk, info, n - 1, k);
    } else {
      assert k / HASH_LEN == n - 1;
    }
  }

  /**
   For every length the RFC allows, the loop's output is the RFC's. Its key comes from the extract step
   of section 2.2: HMAC of the key material under the salt, or under 32 zero bytes if there is none.
   */
  lemma DeriveIsRfc(c: Primitives, ikm: bytes, length: nat, info: bytes, salt: bytes)
    requires Lawful(c) && length <= 255 * HASH_LEN
    ensures IsRfcOutput(
      c, c.hmac(if |salt| > 0 then salt else seq(32, i => 0), ikm), info, Derive(c, ikm, length, info, salt))
  {
    assert Zeros(32) == seq(32, i => 0);
    var prk := Extract(c, ikm, salt);
    forall k | 0 <= k < length
      ensures Derive(c, ikm, length, info, salt)[k] == RfcBlock(c, prk, info, k / HASH_LEN + 1)[k % HASH_LEN]
      ensures |RfcBlock(c, prk, info, k / HASH_LEN + 1)| == HASH_LEN
    {
      BlocksAt(c, prk, info, BlockCount(length), k);
      BlockIsRfcBlock(c, prk, info, k / HASH_LEN + 1);
    }
  }
}

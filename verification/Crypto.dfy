/**
 The cryptographic primitives that the program takes from its platform, as a record of
 arbitrary functions. Nothing is assumed about them beyond `Lawful`. The one primitive the
 program writes itself is `hkdf`: module Hkdf gives it and shows that it meets its law.
 */
module Crypto {
  import opened Prelude

  datatype Primitives = Primitives(
    sha256: bytes -> bytes,
    hmac: (bytes, bytes) -> bytes,                          // key, data
    hkdf: (bytes, nat, bytes) -> bytes,                     // key material, length, info; no salt
    publicKey: bytes -> bytes,                              // X25519 public half of a private key
    agree: (bytes, bytes) -> bytes,                         // private key, public key
    seal: (bytes, bytes, bytes, bytes) -> bytes,            // key, nonce, aad, plaintext
    open: (bytes, bytes, bytes, bytes) -> Option<bytes>)    // key, nonce, aad, ciphertext

  const TAG_LEN := 16
  const HASH_LEN := 32
  const DH_LEN := 32

  /** Output sizes, Diffie-Hellman agreement, and decryption undoing encryption. */
  ghost predicate Lawful(c: Primitives) {
    && (forall m :: |c.sha256(m)| == HASH_LEN)
    && (forall k, m :: |c.hmac(k, m)| == HASH_LEN)
    && (forall m, n, i :: |c.hkdf(m, n, i)| == n)
    && (forall k :: |c.publicKey(k)| == DH_LEN)
    && (forall a, b :: c.agree(a, c.publicKey(b)) == c.agree(b, c.publicKey(a)))
    && (forall k, n, a, p :: |c.seal(k, n, a, p)| == |p| + TAG_LEN)
    && (forall k, n, a, p :: c.open(k, n, a, c.seal(k, n, a, p)) == Some(p))
  }

  datatype KeyPair = KeyPair(pub: bytes, priv: bytes)

  predicate GoodPair(c: Primitives, kp: KeyPair) {
    kp.pub == c.publicKey(kp.priv)
  }

  // ----- the laws are consistent: some primitives satisfy them -----

  function Zeros(n: nat): (z: bytes)
    ensures |z| == n
  {
    seq(n, i => 0)
  }

  function ToyPrimitives(): Primitives {
    Primitives(
      m => Zeros(HASH_LEN),
      (k, m) => Zeros(HASH_LEN),
      (m, n, i) => Zeros(n),
      k => Zeros(DH_LEN),
      (a, p) => Zeros(DH_LEN),
      (k, n, a, p) => p + Zeros(TAG_LEN),
      (k, n, a, x) => if |x| < TAG_LEN then None else Some(x[..|x| - TAG_LEN]))
  }

  lemma LawsAreConsistent()
    ensures Lawful(ToyPrimitives())
  {
    var c := ToyPrimitives();
    forall k, n, a, p ensures c.open(k, n, a, c.seal(k, n, a, p)) == Some(p) {
      assert (p + Zeros(TAG_LEN))[..|p|] == p;
    }
  }
}

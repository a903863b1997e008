/** The cryptographic primitives the source takes from libraries, as functions with stated laws.

    Every result holds for all primitives that obey the laws; `ToyIsLawful` shows some do. */
module Primitives {
  import opened Options
  import opened Bytes

  datatype CipherId = XChaCha20Poly1305 | Aes256GcmSiv

  /** HKDF takes an optional salt, the key material, the info string and the output length. AEAD takes
      cipher, key and nonce; sealing can fail for oversized input, opening when the tag does not match. */
  datatype Primitives = Primitives(
    hkdf: (Option<bytes>, bytes, bytes, nat) -> bytes,
    hmac: (bytes, bytes) -> bytes,
    seal: (CipherId, bytes, bytes, bytes) -> Option<bytes>,
    open: (CipherId, bytes, bytes, bytes) -> Option<bytes>,
    utf8: bytes -> bool)
  {
    ghost predicate Lawful() {
      && (forall salt, ikm, info, n :: |hkdf(salt, ikm, info, n)| == n)
      && (forall key, data :: |hmac(key, data)| == 32)
      && (forall c, key, nonce, p :: seal(c, key, nonce, p).Some? ==> |seal(c, key, nonce, p).value| == |p| + 16)
      && (forall c, key, nonce, p :: seal(c, key, nonce, p).Some? ==>
            open(c, key, nonce, seal(c, key, nonce, p).value) == Some(p))
      && (forall c, key, nonce, t :: open(c, key, nonce, t).Some? ==> |open(c, key, nonce, t).value| + 16 == |t|)
    }
  }

  /** Primitives that append a constant tag. */
  function Toy(): Primitives {
    Primitives(
      (salt, ikm, info, n: nat) => Zeros(n),
      (key, data) => Zeros(32),
      (c, key, nonce, p) => Some(p + Zeros(16)),
      (c, key, nonce, t: bytes) =>
        if |t| >= 16 && t[|t| - 16..] == Zeros(16) then Some(t[..|t| - 16]) else None,
      b => true)
  }

  lemma ToyIsLawful()
    ensures Toy().Lawful()
  {
    forall c, key, nonce, p: bytes
      ensures Toy().open(c, key, nonce, Toy().seal(c, key, nonce, p).value) == Some(p)
    {
      var t := p + Zeros(16);
      assert t[..|t| - 16] == p && t[|t| - 16..] == Zeros(16);
    }
  }
}

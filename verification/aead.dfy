/** The payload cipher (`nacl.secretbox`, XSalsa20-Poly1305), as an ideal
    authenticated encryption: a ciphertext reveals its plaintext under its own
    key and nonce and nothing under any other. Authentication failure is the
    value `None` (the source's `null`), not an exception. */
module Aead {
  import opened Options
  import opened Group

  /** A nonce as drawn from the random source: one per encryption. */
  type Nonce = seq<bv8>

  /** An ideal ciphertext. */
  datatype Sealed = Sealed(key: Key, nonce: Nonce, plaintext: string)

  /** What encryption returns: the ciphertext and the nonce it was made with. */
  datatype Boxed = Boxed(ciphertext: Sealed, nonce: Nonce)

  /** Open a ciphertext with a key and nonce; `None` on authentication failure. */
  function Decrypt(key: Key, c: Sealed, nonce: Nonce): (r: Option<string>)
  {
    if key == c.key && nonce == c.nonce then Some(c.plaintext) else None
  }

  /** Encrypt a message under a key with a given (random) nonce. Opening the
      result under the same key returns the message; under any other key it
      fails softly. */
  function Encrypt(key: Key, nonce: Nonce, message: string): (b: Boxed)
    ensures b.nonce == nonce
    ensures Decrypt(key, b.ciphertext, b.nonce) == Some(message)
    ensures forall k :: k != key ==> Decrypt(k, b.ciphertext, b.nonce) == None
  {
    Boxed(Sealed(key, nonce, message), nonce)
  }
}

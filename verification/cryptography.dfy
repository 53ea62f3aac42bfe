/**
 The two foreign crypto libraries, seen only through their interfaces.

 Cryptr encrypts with a process-wide key and a fresh random IV on every call,
 so a `Cipher` takes the IV as an explicit argument: the same plaintext may
 encrypt to different ciphertexts, and nothing here assumes `encrypt` is
 injective or deterministic. The only property the model relies on is
 `RoundTrips`: decrypting an encryption gives the plaintext back.

 bcrypt hashes with a cost factor and a random salt; a `Hasher` takes both
 explicitly. Nothing is assumed about it.
 */
module Cryptography {

  /** The random initialisation vector Cryptr draws for one `encrypt` call. */
  type Nonce = nat

  /** The random salt bcrypt draws for one `hash` call. */
  type Salt = nat

  /** A symmetric cipher with its key already applied. */
  datatype Cipher = Cipher(encrypt: (string, Nonce) -> string, decrypt: string -> string)

  /** The single law of the cipher: every encryption decrypts to its plaintext. */
  ghost predicate RoundTrips(c: Cipher) {
    forall p, iv :: c.decrypt(c.encrypt(p, iv)) == p
  }

  /** A one-way password hash: `hash(password, rounds, salt)`. */
  datatype Hasher = Hasher(hash: (string, nat, Salt) -> string)

  /**
   A toy randomised cipher (prefix one IV-dependent character, strip it on
   decryption). It shows that `RoundTrips` can hold of a cipher whose
   encryption is not deterministic.
   */
  function Prefixing(): Cipher {
    Cipher(
      (p: string, iv: Nonce) => [(iv % 0x10) as char] + p,
      (s: string) => if |s| == 0 then s else s[1..])
  }

  lemma PrefixingRoundTrips()
    ensures RoundTrips(Prefixing())
    ensures Prefixing().encrypt("k", 0) != Prefixing().encrypt("k", 1)
  {
  }
}

/** The password hasher: a deterministic, fixed-length stand-in for Argon2 (no salt, no one-wayness). */
module Passwords {

  const HASH_PREFIX := "$argon2id$"
  const DIGEST_LENGTH: nat := 32
  const HEX := "0123456789abcdef"

  /** A 64-bit rolling fingerprint of the plaintext. */
  function Fingerprint(s: string): nat
  {
    if s == [] then 5381
    else (Fingerprint(s[..|s| - 1]) * 33 + s[|s| - 1] as int) % 0x1_0000_0000_0000_0000
  }

  /** The `count` low hexadecimal digits of `f`, least significant first. */
  function HexDigits(f: nat, count: nat): (s: string)
    ensures |s| == count
  {
    if count == 0 then [] else [HEX[f % 16]] + HexDigits(f / 16, count - 1)
  }

  /** `hash_password`: the digest that is stored instead of the plaintext. */
  function Hash(plain: string): (digest: string)
    ensures |digest| == |HASH_PREFIX| + DIGEST_LENGTH
  {
    HASH_PREFIX + HexDigits(Fingerprint(plain), DIGEST_LENGTH)
  }

  /** `verify_password`: the plaintext matches the stored digest. */
  predicate Verify(plain: string, digest: string)
  {
    digest == Hash(plain)
  }

  /** A stored digest accepts the password it was made from, and fits the 128-character column. */
  lemma HashVerifies(plain: string)
    ensures Verify(plain, Hash(plain)) && |Hash(plain)| <= 128
  {
  }
}

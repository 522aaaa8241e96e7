/** What a signed token is, for the purposes of this model: its claims and the key and algorithm that signed it. */
module Tokens {
  import opened Wrappers

  /** The payload of a token. Tokens from this code always carry all four claims;
      a token from elsewhere may lack any of them. */
  datatype Claims = Claims(sub: Option<string>, username: Option<string>, exp: Option<int>, iat: Option<int>)

  /** A token string as presented by a client: either an encoding of `claims` signed with `key` under
      `algorithm`, or a string that is not a well-formed signed token at all. The decoder accepts more
      than one spelling of the same signed content (its base64url decoding is lenient, e.g. about
      padding); `spelling` tells them apart, 0 being the encoder's own output. Signature checks ignore
      it, but the blacklist key is the exact string, so it keeps it. */
  datatype Token = Signed(claims: Claims, key: string, algorithm: string, spelling: nat) | Garbled(text: string)
}

/** Results, optional values, the error cases of the program and the byte type. */
module Wrappers {

  datatype Option<+T> = None | Some(value: T)

  datatype Result<+T> = Ok(value: T) | Err(error: Error)

  /** The error returns of the modelled functions. The source tells them apart by message or by sentinel. */
  datatype Error =
    | NotFound            // storage.ErrNotFound
    | StorageFailure      // any other error of the underlying store
    | NoEntropy           // rand.Read failed
    | TooShort            // fewer bytes than a nonce
    | OpenFailed          // AEAD authentication failed
    | MarshalFailed
    | UnmarshalFailed
    | SecretDeleted
    | VersionNotFound
    | AlreadyExists
    | KeyVersionNotFound
    | BadKeyLength
    | BadCiphertextFormat
    | BadEncoding
    | UnknownService
    | ChallengeUnknown
    | ChallengeExpired
    | ChallengeMismatch
    | BadPublicKey        // a public key that is not 32 bytes long; ed25519.Verify panics
    | BadSignature
    | BadTokenFormat
    | SessionNotFound
    | SessionInvalid
    | SessionExpired
    | BadCode

  type byte = bv8
  type bytes = seq<byte>

  /** The byte with this value. */
  function ByteOf(x: nat): (b: byte)
    requires x < 256
    ensures b as int == x
  {
    if x == 0 then 0 else ByteOf(x - 1) + 1
  }

  /** A reading of the clock. */
  type Time = int
}

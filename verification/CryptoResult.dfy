/** The outcomes of the fallible operations of usbvault-crypto (src/error.rs). */
module CryptoResult {
  datatype CryptoError =
    | InvalidNonce
    | DecryptionFailed
    | InvalidHeader
    | InvalidMagic
    | InvalidVersion
    | CorruptedChunk
    | KeyDerivationFailed
    | SharingError
    | SrpError
    | InvalidArgument
    | InvalidInput
    | KeyWrappingFailed
    | NonceReuse

  datatype Result<+T> = Ok(value: T) | Err(error: CryptoError)
}

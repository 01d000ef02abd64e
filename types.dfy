/** Values shared by every operation of the Athena UDF handler: bytes, the
    nullable values its public methods take and return, and the exceptions
    they throw. */
module UdfTypes {

  /** A Java byte, read as an unsigned octet. */
  type byte = x: int | 0 <= x < 256

  type Bytes = seq<byte>

  /** A nullable Java reference: None stands for null. */
  datatype Option<+T> = None | Some(value: T)

  /** Why an operation throws. The handler wraps most of these in a
      RuntimeException; the model keeps them apart so that each error rule
      can be stated on its own. */
  datatype Failure =
    | IllegalBase64         // IllegalArgumentException from the Base64 decoder
    | InputTruncated        // DataFormatException("Input is truncated") in decompress
    | MalformedDeflate      // DataFormatException thrown by Inflater.inflate
    | DictionaryRequired    // the corrected decompress: the stream needs a preset dictionary
    | MalformedGzip         // IOException while reading the GZIP stream
    | MalformedJson         // IOException from the JSON parser
    | SecretUnavailable     // the secrets manager cannot resolve the secret name
    | MalformedSecret       // the secret string is not Base64
    | ShortCiphertext       // fewer bytes than the IV: GCMParameterSpec rejects the slice
    | KeyRejected           // the key is not a 256-bit AES key
    | AuthenticationFailed  // AEADBadTagException: the GCM tag does not verify

  /** The value a Java method returns, or the exception it throws. */
  datatype Result<+T> = Ok(value: T) | Err(error: Failure) {

    predicate IsFailure() {
      Err?
    }

    function PropagateFailure<U>(): Result<U>
      requires Err?
    {
      Err(error)
    }

    function Extract(): T
      requires Ok?
    {
      value
    }
  }
}

/**
 The failure outcomes of the OAEP core, and a failure-compatible `Result`
 type so that the encoder and decoder can be written with `:-`.
 */
module Results {

  /** Why an operation failed.
      The length failures are the `IndexError`s raised in src/oaep.py; the three
      structural decoding checks (leading byte, label hash, separator byte)
      are collapsed into the single opaque `DecryptionError`. */
  datatype Error =
    | HashInputTooLong     // the hash input exceeds the digest's input bound
    | MaskTooLong          // MGF1 was asked for more than 2^32 blocks
    | MessageTooLong       // the message does not fit the modulus
    | CiphertextLength     // the ciphertext is not k bytes, or k is too small
    | DecryptionError      // the decrypted block is not a valid encoding

  datatype Result<+T> = Ok(value: T) | Err(error: Error) {

    predicate IsFailure() {
      Err?
    }

    function PropagateFailure<U>(): Result<U>
      requires Err?
    {
      Err(error)
    }

    function Extract(): T
      requires Ok?
    {
      value
    }
  }
}

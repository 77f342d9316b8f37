/** Success and failure values shared by every component. */
module Wrappers {

  datatype Option<+T> = None | Some(value: T)

  /** The records of the container whose signature can be wrong. */
  datatype Record = CentralHeader | LocalHeader | Zip64End

  /** Why an entry's stream was refused as malformed. */
  datatype Defect =
    | LengthCheck(at: nat)      // LEN and NLEN of a stored block disagree
    | Overrun(at: nat)          // a stored block runs past the compressed data
    | SizeMismatch(decoded: nat)
    | DecodeFailed(cause: Error)
    | DecodeCap
    | IndexCap

  /** Why an encrypted entry was refused. */
  datatype Refusal =
    | IvSize | RemainderSize | Format | Algorithm | BitLength | TripleDes | Certificate
    | NoPasswordFlag | Masked | KeySize | ErdOverflow | ErdSize | Reserved | ValidationSize | TooSmall

  /** The error returns of the reader; each carries the values the program reports. */
  datatype Error =
    | Io
    | Truncated
    | NoEocd
    | BadSignature(what: Record, offset: nat)
    | Zip64Unsupported
    | Zip64Inconsistent
    | CentralDirOutOfRange(cdOffset: nat, cdSize: nat)
    | TooManyEntries(count: nat)
    | Malformed(defect: Defect)
    | CrcMismatch(expected: nat, actual: nat)
    | WrongPassword
    | UnsupportedEncryption(reason: Refusal)
    | NotADirectory(node: nat)
    | NoSuchNode(node: nat)
    | IndexOutOfBounds(index: nat)
    | EntryNotFound
    | EncryptedNoPassword
    | SpannedArchive(disk: nat)

  datatype Result<+T> = Ok(value: T) | Err(error: Error) {
    predicate IsFailure() {
      Err?
    }

    function PropagateFailure<U>(): Result<U>
      requires Err?
    {
      Err(error)
    }

    function Extract(): T
      requires Ok?
    {
      value
    }
  }
}

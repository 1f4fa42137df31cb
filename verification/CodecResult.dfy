/** The outcomes of an encoding or decoding call. */
module CodecResult {

  /** The codec crate's error enumeration, without its unreachable members. */
  datatype Error =
    | VarIntOutOfRange
    | InvalidVarIntPrefix(prefix: nat)
    | VarIntMinimumLengthEncoding
    | UnexpectedEOF
    | OptionOutOfRange(marker: nat)
    | UnsupportedEnumDiscriminant
    | Custom(code: nat)

  /** `Diverges` stands for a decoding loop that consumes nothing and never ends. */
  datatype Result<+T> = Ok(value: T) | Err(error: Error) | Diverges {

    predicate IsFailure() { !Ok? }

    function PropagateFailure<U>(): Result<U>
      requires !Ok?
    {
      if Err? then Err(error) else Diverges
    }

    function Extract(): T
      requires Ok?
    {
      value
    }
  }
}

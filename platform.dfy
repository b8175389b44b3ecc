/** The pieces of the Java and Spring platforms that the application's code
    relies on: nullable references, exceptions, 32-bit integers, uploaded
    files and the text form of random UUIDs. */
module Platform {

  /** A Java reference that may be null: `None` is null. */
  datatype Option<+T> = None | Some(value: T)

  /** The exceptions the modelled code throws or lets escape. */
  datatype Exception =
    | IllegalArgument(message: string)
    | NullPointer
    | IncorrectResultSize(expected: nat, actual: nat)
    | Storage(message: string)
    | ResourceNotFound(message: string)
    | Validation(message: string)

  /** A call that returns a value or throws. */
  datatype Result<+T> = Ok(value: T) | Err(error: Exception)

  /** A call of a `void` method: it completes normally or throws. */
  datatype Completion = Normal | Abrupt(exception: Exception)

  /** Java's `int`. */
  type int32 = x: int | -0x8000_0000 <= x < 0x8000_0000

  type byte = bv8

  /** Spring's `MultipartFile`: the name the client sent (possibly null) and
      the bytes; `isEmpty()` and `getSize()` are derived from the bytes. */
  datatype MultipartFile = MultipartFile(originalFilename: Option<string>, content: seq<byte>)
  {
    predicate IsEmpty() { |content| == 0 }
    function Size(): nat { |content| }
  }

  predicate IsLowerHexDigit(c: char) { '0' <= c <= '9' || 'a' <= c <= 'f' }

  /** The shape of `UUID.randomUUID().toString()`: 36 characters, dashes at
      positions 8, 13, 18 and 23 and lower-case hexadecimal digits elsewhere. */
  predicate IsUuidString(s: string)
  {
    |s| == 36 &&
    forall k :: 0 <= k < 36 ==>
      if k == 8 || k == 13 || k == 18 || k == 23 then s[k] == '-' else IsLowerHexDigit(s[k])
  }
}

/** Shared vocabulary of the codec: bytes, the error taxonomy, and the
    Result and Option types every operation returns. */
module Common {

  /** One octet of the wire format. */
  type byte = b: int | 0 <= b < 256

  const TWO_7: nat := 0x80
  const TWO_31: nat := 0x8000_0000
  const TWO_32: nat := 0x1_0000_0000
  const TWO_63: nat := 0x8000_0000_0000_0000
  const TWO_64: nat := 0x1_0000_0000_0000_0000

  /** The failures the codec reports. TypeError and RangeError come from
      assignment; EncodingError from serialization; the rest from parsing. */
  datatype Error =
    | TypeError
    | RangeError
    | EncodingError
    | WireTypeMismatch
    | MalformedVarint
    | MalformedField
    | TruncatedMessage

  datatype Option<+T> = None | Some(value: T)

  datatype Result<+T> = Ok(value: T) | Err(error: Error)
}

/** The exceptions the decoding pipeline can raise. */
module Exceptions {

  datatype Error =
      /** dsmr_parser.exceptions.ParseError: incomplete telegram or malformed line. */
    | ParseError
      /** dsmr_parser.exceptions.InvalidChecksumError, with both values of the comparison. */
    | InvalidChecksumError(calculated: int, expected: int)
      /** ValueError from int(checksum, base=16) on a checksum that is not hexadecimal. */
    | ChecksumValueError(checksum: string)
      /** ValueError from unpacking value.split('*') into two names. */
    | UnpackError(token: string)
      /** Whatever the configured coercion raises on the raw value it was given. */
    | CoercionError(raw: string)
      /** NotImplementedError from ProfileGenericParser.parse. */
    | NotImplementedError
}

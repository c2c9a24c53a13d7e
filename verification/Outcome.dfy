/** The result of an operation that the program ends either with a value or by raising an exception. */
module Outcome {
  datatype Result<+T> = Ok(value: T) | Err(error: Error)

  datatype Error =
    | NumberOverN            // SignedNumberCodec::check, "over N"
    | NumberInGuardBand      // SignedNumberCodec::check, "overflow"
    | EmptyBigNumData        // BigNum::fromBytes
    | NotEnoughBuffer        // BigNum::toOutputBuffer
    | ValueOutOfRange        // NumberCodec.encode
    | NegativeComponent      // int.to_bytes on a negative integer
    | LengthOverflow         // struct.pack('>II', ...)
    | TruncatedHeader        // struct.unpack('>II', ...)
    | CipherLengthFail       // CipherLengthFailException
    | EmptyFile              // mmap of zero bytes
    | NoRoute                // ModelRouter.__get_dstnode__
    | TaskKilled             // ModelTransport.pop_by_topic
}

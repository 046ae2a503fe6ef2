/** The two pieces of outside code the codec calls and this model does not
    define: decimal text for floating-point numbers (Rust's `str::parse`
    for f32/f64, `{:.6}` and `{}` formatting of floats) and the LZF
    compressor (the `lzf` crate). Each is a record of functions that every
    operation needing it takes as a parameter; what a proof needs of them
    is stated as a predicate on the record and assumed by the lemma that
    needs it. */
module External {
  import opened Errors
  import opened Bytes

  datatype FloatText = FloatText(
    parseF32: string -> Option<F32Bits>,   // `str::parse::<f32>`
    parseF64: string -> Option<F64Bits>,   // `str::parse::<f64>`
    fixedF32: F32Bits -> string,           // `format!("{:.6}", x)` for f32
    fixedF64: F64Bits -> string,           // `format!("{:.6}", x)` for f64
    displayF64: F64Bits -> string)         // `format!("{}", x)` for f64

  /** Outcome of `lzf::compress`. */
  datatype CompressOutcome =
    | Compressed(bytes: seq<byte>)
    | NoCompressionPossible
    | CompressFailed(reason: string)

  /** Outcome of `lzf::decompress(data, out_len)`. */
  datatype DecompressOutcome =
    | Decompressed(bytes: seq<byte>)
    | DecompressFailed(reason: string)

  datatype Lzf = Lzf(
    compress: seq<byte> -> CompressOutcome,
    decompress: (seq<byte>, nat) -> DecompressOutcome)

  /** The LZF round trip: whatever compression produces decompresses, at
      the original length, to the original bytes. */
  ghost predicate LzfRoundTrip(lzf: Lzf)
  {
    forall x: seq<byte> :: lzf.compress(x).Compressed? ==>
      lzf.decompress(lzf.compress(x).bytes, |x|) == Decompressed(x)
  }
}

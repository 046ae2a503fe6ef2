/** The header record of a PCD file and its two tables: the body encodings
    (`DataFormat`) and the eight element types (`ValueType`)
    (src/header/mod.rs). */
module Header {
  import opened Errors
  import opened Bytes

  /** The body encoding named on the DATA line. */
  datatype DataFormat = Ascii | Binary | BinaryCompressed

  /** `#[default]` on the enum. */
  const DefaultFormat: DataFormat := Ascii

  /** The DATA token the writer emits for each format. */
  function FormatToken(f: DataFormat): (s: string)
    ensures FormatFromStr(s) == Ok(f)
  {
    match f
    case Ascii => "ascii"
    case Binary => "binary"
    case BinaryCompressed => "binary_compressed"
  }

  /** `DataFormat::from_str`: the three tokens, and UnsupportedDataFormat
      carrying the string for anything else. */
  function FormatFromStr(s: string): (r: Result<DataFormat>)
    ensures r.Err? ==> r.error == UnsupportedDataFormat(s)
  {
    if s == "ascii" then Ok(Ascii)
    else if s == "binary" then Ok(Binary)
    else if s == "binary_compressed" then Ok(BinaryCompressed)
    else Err(UnsupportedDataFormat(s))
  }

  /** The tokens and the formats correspond one to one. */
  lemma {:induction false} FormatTokenRoundTrip(f: DataFormat, s: string)
    ensures FormatFromStr(FormatToken(f)) == Ok(f)
    ensures FormatFromStr(s) == Ok(f) <==> s == FormatToken(f)
  {
  }

  datatype ValueType = U8 | U16 | U32 | I8 | I16 | I32 | F32 | F64

  /** `ValueType::size`: bytes per element. */
  function Size(vt: ValueType): (n: nat)
    ensures n == 1 <==> vt == U8 || vt == I8
    ensures n == 2 <==> vt == U16 || vt == I16
    ensures n == 4 <==> vt == U32 || vt == I32 || vt == F32
    ensures n == 8 <==> vt == F64
  {
    match vt
    case U8 | I8 => 1
    case U16 | I16 => 2
    case U32 | I32 | F32 => 4
    case F64 => 8
  }

  /** The seven viewpoint numbers (translation, then rotation quaternion). */
  type Viewpoint = s: seq<F64Bits> | |s| == 7 witness [0, 0, 0, 0, 0, 0, 0]

  /** Bit pattern of the f64 value 1.0. */
  const F64One: F64Bits := 0x3FF0_0000_0000_0000

  /** The identity viewpoint [0, 0, 0, 1, 0, 0, 0]. */
  const IdentityViewpoint: Viewpoint := [0, 0, 0, F64One, 0, 0, 0]

  datatype PcdHeader = PcdHeader(
    version: string,
    fields: seq<string>,
    sizes: seq<usize>,
    types: seq<char>,
    counts: seq<usize>,
    width: u32,
    height: u32,
    viewpoint: Viewpoint,
    points: usize,
    data: DataFormat)

  /** `PcdHeader::default()`: empty lists, zero numbers, an all-zero
      viewpoint and the default format. */
  const DefaultHeader: PcdHeader :=
    PcdHeader("", [], [], [], [], 0, 0, [0, 0, 0, 0, 0, 0, 0], 0, DefaultFormat)

  /** `is_organized`: more than one row. */
  predicate IsOrganized(h: PcdHeader)
  {
    h.height > 1
  }

  function Sum(xs: seq<nat>): nat
  {
    if |xs| == 0 then 0 else xs[0] + Sum(xs[1..])
  }

  /** `point_step`: the plain sum of SIZE entries, counts ignored. */
  function PointStep(h: PcdHeader): nat
  {
    Sum(h.sizes)
  }

  /** size * count over the zipped SIZE and COUNT lists, stopping at the shorter. */
  function SizeTimesCount(sizes: seq<nat>, counts: seq<nat>): (r: seq<nat>)
    ensures |r| == if |sizes| < |counts| then |sizes| else |counts|
    ensures forall i :: 0 <= i < |r| ==> r[i] == sizes[i] * counts[i]
  {
    if |sizes| == 0 || |counts| == 0 then []
    else [sizes[0] * counts[0]] + SizeTimesCount(sizes[1..], counts[1..])
  }

  /** `total_point_step`: the record stride. */
  function TotalPointStep(h: PcdHeader): nat
  {
    Sum(SizeTimesCount(h.sizes, h.counts))
  }

  lemma {:induction false} SumPointwise(xs: seq<nat>, ys: seq<nat>)
    requires |xs| == |ys|
    requires forall i :: 0 <= i < |xs| ==> xs[i] == ys[i]
    ensures Sum(xs) == Sum(ys)
  {
    if |xs| > 0 {
      SumPointwise(xs[1..], ys[1..]);
    }
  }

  /** With one count of 1 per size, both strides agree. */
  lemma {:induction false} PointStepsAgree(h: PcdHeader)
    requires |h.counts| == |h.sizes|
    requires forall i :: 0 <= i < |h.counts| ==> h.counts[i] == 1
    ensures TotalPointStep(h) == PointStep(h)
  {
    SumPointwise(SizeTimesCount(h.sizes, h.counts), h.sizes);
  }

  /** Each count at least 1 makes the stride at least the sum of sizes
      over the zipped prefix. */
  lemma {:induction false} TotalPointStepAtLeastPointStep(sizes: seq<nat>, counts: seq<nat>)
    requires |counts| == |sizes|
    requires forall i :: 0 <= i < |counts| ==> counts[i] >= 1
    ensures Sum(SizeTimesCount(sizes, counts)) >= Sum(sizes)
  {
    if |sizes| > 0 {
      assert SizeTimesCount(sizes, counts)[1..] == SizeTimesCount(sizes[1..], counts[1..]);
      TotalPointStepAtLeastPointStep(sizes[1..], counts[1..]);
    }
  }
}

/** The writer's bodies read back by the reader's decoders: a binary body
    decodes to the columns it was written from, point by point, and so
    does a whole binary file, header and body, opened and read. */
module RoundTrip {
  import opened Errors
  import opened Bytes
  import opened Header
  import opened Layout
  import opened Elements
  import opened Storage
  import opened Records
  import opened Writer
  import opened Reader
  import opened Parser
  import opened External
  import opened HeaderRoundTrip
  import BinaryDecoder
  import CompressedDecoder
  import AsciiDecoder

  /** Every field has one element per point, as the reader's columns of
      `points` elements require. */
  predicate SingleElements(h: PcdHeader)
    requires Indexable(h)
  {
    forall f :: 0 <= f < |h.fields| ==> h.counts[f] == 1
  }

  /** The layout of a header names its fields in the header's order. */
  lemma {:induction false} LayoutNames(h: PcdHeader, l: PcdLayout)
    requires LayoutOf(h, l)
    ensures FieldNames(l) == h.fields
  {
    assert forall f :: 0 <= f < |h.fields| ==> FieldMatches(h, f, l.fields[f]);
  }

  /** With one element per point, point j's row of field f is the
      little-endian encoding of element j of its column. */
  lemma {:induction false} RowIsElement(h: PcdHeader, fc: seq<Column>, j: nat, f: nat)
    requires Writes(h, fc) && j < h.points && f < |h.fields| && h.counts[f] == 1
    ensures j < Len(fc[f]) && InRange(TypeOf(fc[f]), Values(fc[f])[j])
    ensures RowBytes(h, fc, j, f) == EncodeElem(TypeOf(fc[f]), Values(fc[f])[j])
  {
    SkipIsProduct(1, j);
    SkipIsProduct(1, h.points);
    assert WellTyped(fc[f]);
    assert ElemsBytes(fc[f], j, 1) == ElemsBytes(fc[f], j, 0) + EncodeElem(TypeOf(fc[f]), Values(fc[f])[j]);
  }

  /** The layout facts the binary round trip needs: one element per field,
      each field of its column's type, and no name twice. */
  lemma {:induction false} SingleLayout(h: PcdHeader, fc: seq<Column>, l: PcdLayout)
    requires Writes(h, fc) && LayoutOf(h, l) && AllFieldsTyped(h, fc) && SingleElements(h) && Distinct(h.fields)
    ensures FieldNames(l) == h.fields && NamesTyped(l) && CountsFit(l, h.points) && FieldsFit(l)
    ensures forall f :: 0 <= f < |h.fields| ==> l.fields[f].count == 1 && l.fields[f].vt == TypeOf(fc[f])
  {
    LayoutNames(h, l);
    DistinctNamesTyped(l);
    LayoutOfWellFormed(h, l);
    WellFormedFieldsFit(l);
    forall f | 0 <= f < |h.fields|
      ensures l.fields[f].count == 1 && l.fields[f].vt == TypeOf(fc[f])
    {
      assert FieldMatches(h, f, l.fields[f]) && FieldTyped(h, fc, f);
    }
  }

  /** The binary body holds every record the decoder asks for. */
  lemma {:induction false} BinaryBodyWhole(h: PcdHeader, fc: seq<Column>, l: PcdLayout)
    requires Writes(h, fc) && LayoutOf(h, l) && AllFieldsTyped(h, fc)
    ensures var body := Fold(PointOuts(h, fc), h.points);
      body.result.Ok? && RowsRead(l.totalSize, h.points, |body.bytes|) == h.points
  {
    BinaryBodyLength(h, fc, l);
    SkipIsProduct(l.totalSize, h.points);
    var len := |Fold(PointOuts(h, fc), h.points).bytes|;
    HoldsRecordsIff(l.totalSize, len, h.points);
    RowsReadAll(l.totalSize, h.points, len);
  }

  /** Decoding the binary body with the header's layout succeeds, and
      stores every record. */
  lemma {:induction false} BinaryDecodes(h: PcdHeader, fc: seq<Column>, l: PcdLayout)
    requires Writes(h, fc) && LayoutOf(h, l) && AllFieldsTyped(h, fc) && SingleElements(h) && Distinct(h.fields)
    ensures NamesTyped(l) && CountsFit(l, h.points) && FieldsFit(l) && Distinct(FieldNames(l))
    ensures IndexInto(FreshIndex(l), FreshColumns(l, h.points)) && AllPresent(l, FreshIndex(l))
    ensures TypesAgree(l, FreshColumns(l, h.points), FreshIndex(l))
    ensures var body := Fold(PointOuts(h, fc), h.points).bytes;
      RowsRead(l.totalSize, h.points, |body|) == h.points
      && RecordsFit(l, FreshIndex(l), h.points, h.points) && BinaryDecodable(l, h.points, body)
      && BinaryOutcome(l, h.points, body)
         == Ok(BinaryDecoder.Decoded(FreshColumns(l, h.points), FreshIndex(l), l, h.points, body))
  {
    SingleLayout(h, fc, l);
    BinaryBodyWhole(h, fc, l);
    FreshStoreAgrees(l, h.points);
    CountsFitRecords(l, FreshIndex(l), h.points, h.points);
  }

  /** With no name twice, a fresh store indexes each field's name to the
      field's own position. */
  lemma {:induction false} FreshIndexAt(l: PcdLayout, f: nat)
    requires Distinct(FieldNames(l)) && f < |l.fields|
    ensures l.fields[f].name in FreshIndex(l) && FreshIndex(l)[l.fields[f].name] == f
  {
    var names := FieldNames(l);
    IndexMapLast(names, names[f]);
  }

  /** With one element per point and no name twice, element j of field f
      of a fresh store filled from the binary body is field f's bytes of
      record j, decoded. */
  lemma {:induction false} DecodedFieldAt(l: PcdLayout, n: nat, body: seq<byte>, f: nat, j: nat)
    requires FieldsFit(l) && Distinct(FieldNames(l)) && RowsRead(l.totalSize, n, |body|) == n
    requires RecordsFit(l, FreshIndex(l), n, n)
    requires f < |l.fields| && l.fields[f].count == 1 && j < n
    ensures IndexInto(FreshIndex(l), FreshColumns(l, n)) && AllPresent(l, FreshIndex(l))
    ensures Skip(l.totalSize, j) + l.fields[f].offset + l.fields[f].size <= |body|
    ensures f < |BinaryDecoder.Decoded(FreshColumns(l, n), FreshIndex(l), l, n, body)|
    ensures Values(BinaryDecoder.Decoded(FreshColumns(l, n), FreshIndex(l), l, n, body)[f])[j]
      == DecodeElem(l.fields[f].vt, body[Skip(l.totalSize, j) + l.fields[f].offset
                                         .. Skip(l.totalSize, j) + l.fields[f].offset + l.fields[f].size])
  {
    FreshStoreIndexed(l, n);
    FreshIndexAt(l, f);
    BinaryDecoder.DecodedValues(FreshColumns(l, n), FieldNames(l), l, n, body, f, j);
  }

  /** With one element per point, field f's bytes of record j in the
      binary body decode to element j of field f's column. */
  lemma {:induction false} BodyFieldDecodes(h: PcdHeader, fc: seq<Column>, l: PcdLayout, f: nat, j: nat)
    requires Writes(h, fc) && LayoutOf(h, l) && AllFieldsTyped(h, fc) && SingleElements(h)
    requires f < |h.fields| && j < h.points && l.fields[f].vt == TypeOf(fc[f])
    ensures j < Len(fc[f]) && l.fields[f].size == Size(l.fields[f].vt)
    ensures var body, a := Fold(PointOuts(h, fc), h.points).bytes, Skip(l.totalSize, j) + l.fields[f].offset;
      a + l.fields[f].size <= |body| && DecodeElem(l.fields[f].vt, body[a .. a + l.fields[f].size]) == Values(fc[f])[j]
  {
    BinaryBodyField(h, fc, l, j, f, PointOuts(h, fc));
    RowIsElement(h, fc, j, f);
    DecodeEncode(TypeOf(fc[f]), Values(fc[f])[j]);
  }

  /** Decoding the binary body with the header's layout gives back element
      j of every field's column. */
  lemma {:induction false} BinaryRoundTripAt(h: PcdHeader, fc: seq<Column>, l: PcdLayout, f: nat, j: nat)
    requires Writes(h, fc) && LayoutOf(h, l) && AllFieldsTyped(h, fc) && SingleElements(h) && Distinct(h.fields)
    requires f < |h.fields| && j < h.points
    ensures BinaryDecodable(l, h.points, Fold(PointOuts(h, fc), h.points).bytes)
    ensures j < Len(fc[f]) &&
      var out := BinaryOutcome(l, h.points, Fold(PointOuts(h, fc), h.points).bytes);
      out.Ok? && f < |out.value| && j < Len(out.value[f]) && Values(out.value[f])[j] == Values(fc[f])[j]
  {
    BinaryDecodes(h, fc, l);
    SingleLayout(h, fc, l);
    DecodedFieldAt(l, h.points, Fold(PointOuts(h, fc), h.points).bytes, f, j);
    BodyFieldDecodes(h, fc, l, f, j);
  }

  /** Every field of a header whose columns the writer accepts has a
      (TYPE, SIZE) pair the layout resolver knows. */
  lemma {:induction false} TypedResolvable(h: PcdHeader, fc: seq<Column>)
    requires Writes(h, fc) && AllFieldsTyped(h, fc)
    ensures ResolvableUpTo(h, |h.fields|)
  {
    forall f | 0 <= f < |h.fields|
      ensures FieldResolvable(h, f)
    {
      assert FieldTyped(h, fc, f);
    }
  }

  /** A binary PCD file as the writer produces it, its header lines and
      then its binary body, opened and read by `read_pcd_file`: the reader
      opens it, the binary decoder can run on it, and element j of every
      field comes back as written. */
  lemma {:induction false} BinaryFileRoundTrip(h: PcdHeader, fc: seq<Column>, ft: FloatText, lzf: Lzf, f: nat, j: nat)
    requires Printable(h, ft) && h.data == Binary
    requires Writes(h, fc) && AllFieldsTyped(h, fc) && SingleElements(h) && Distinct(h.fields)
    requires f < |h.fields| && j < h.points
    ensures var src := HeaderBytes(h, ft) + Fold(PointOuts(h, fc), h.points).bytes;
      Opened(src, Stream, ft).Ok? && Decodable(Opened(src, Stream, ft).value, false, lzf)
      && var out := FileOutcome(src, ft, lzf);
      out.Ok? && f < |out.value| && j < Len(out.value[f]) && j < Len(fc[f])
      && Values(out.value[f])[j] == Values(fc[f])[j]
  {
    var hb, body := HeaderBytes(h, ft), Fold(PointOuts(h, fc), h.points).bytes;
    var src := hb + body;
    HeaderParsesBack(h, ft, body);
    TypedResolvable(h, fc);
    ResolveLayoutCorrect(h);
    var l := ResolveLayout(h).value;
    assert src[|hb|..] == body;
    var rd := PcdReader(Stream, body, h, l);
    assert Opened(src, Stream, ft) == Ok(rd);
    BinaryRoundTripAt(h, fc, l, f, j);
    assert Decodable(rd, false, lzf);
    assert FileOutcome(src, ft, lzf) == BinaryOutcome(l, h.points, body);
  }

  /** `as u32` keeps a length below 2^32 as it is. */
  lemma {:induction false} U32LeExact(x: nat)
    requires x < 0x1_0000_0000
    ensures Pow256(4) == 0x1_0000_0000 && U32Le(x) == LeEncode(x, 4)
  {
    Pow256Values();
  }

  /** The frame `write_compressed_binary` emits for a buffer of
      total_size * n bytes, read by the compressed decoder: a buffer LZF
      compressed comes back whole through the length prefix, the
      decompression and the size checks; a buffer LZF could not compress
      is framed raw, with both lengths equal; a failed compression emits
      nothing. */
  lemma {:induction false} FramedBuffer(l: PcdLayout, n: nat, buf: seq<byte>, lzf: Lzf, rest: seq<byte>)
    requires LzfRoundTrip(lzf) && |buf| == l.totalSize * n && |buf| < 0x1_0000_0000
    requires lzf.compress(buf).Compressed? ==> |lzf.compress(buf).bytes| < 0x1_0000_0000
    ensures lzf.compress(buf).Compressed? ==>
      Framed(buf, lzf).result.Ok? && CompressedDecoder.Buffer(l, n, Framed(buf, lzf).bytes + rest, lzf) == Ok(buf)
    ensures lzf.compress(buf).NoCompressionPossible? ==>
      Framed(buf, lzf).result.Ok?
      && CompressedDecoder.ReadFrame(Framed(buf, lzf).bytes + rest) == Ok(CompressedDecoder.Frame(buf, |buf|))
    ensures lzf.compress(buf).CompressFailed? ==> Framed(buf, lzf).result.Err? && Framed(buf, lzf).bytes == []
  {
    U32LeExact(|buf|);
    match lzf.compress(buf)
    case Compressed(data) =>
      U32LeExact(|data|);
      var fr := CompressedDecoder.Frame(data, |buf|);
      assert Framed(buf, lzf).bytes == CompressedDecoder.FrameBytes(fr);
      CompressedDecoder.ReadFrameBytes(fr, rest);
      CompressedDecoder.InflateRoundTrip(lzf, buf);
    case NoCompressionPossible =>
      var fr := CompressedDecoder.Frame(buf, |buf|);
      assert Framed(buf, lzf).bytes == CompressedDecoder.FrameBytes(fr);
      CompressedDecoder.ReadFrameBytes(fr, rest);
    case CompressFailed(_) =>
  }

  /** An integer element as `write_ascii` formats it is a token the ASCII
      decoder parses back to the same element. */
  lemma {:induction false} TokenParsesBack(vt: ValueType, v: int, ft: FloatText)
    requires AsciiDecoder.IsInteger(vt) && InRange(vt, v)
    ensures AsciiDecoder.ParseToken(vt, Token(vt, v, ft), ft) == Ok(v)
  {
    AsciiDecoder.ParseTokenOfDecimal(vt, v, ft);
  }
}

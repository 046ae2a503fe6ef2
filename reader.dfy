/** The reader (src/io/reader.rs). `PcdReader::new` parses the header from
    a buffered stream and resolves its layout, reading nothing of the body;
    `from_path_mmap` does the same on the bytes of a memory-mapped file and
    keeps the offset where the body starts. `read_all` builds a store with
    one column per layout field, sized to the header's point count, and
    runs the decoder the DATA line names on the body; a mapped binary body
    goes to the parallel decoder when the `rayon` feature is on.
    `read_pcd_file` is `new` followed by `read_all`. The file, the buffered
    stream and the memory map are all the byte sequence `src`. */
module Reader {
  import opened Errors
  import opened Bytes
  import opened Header
  import opened Layout
  import opened Storage
  import opened Records
  import opened External
  import opened Parser
  import BinaryDecoder
  import ParallelDecoder
  import CompressedDecoder
  import AsciiDecoder

  /** `InputSource`: a buffered stream, or a memory map of the whole file. */
  datatype InputSource = Stream | Mapped

  /** An open reader: where its body comes from, the body (the bytes after
      the DATA line), the header and the header's layout. */
  datatype PcdReader = PcdReader(source: InputSource, body: seq<byte>, header: PcdHeader, layout: PcdLayout)

  /** What opening src gives: the header parsed, then its layout resolved,
      the first error of either returned; on success the reader over the
      bytes after the DATA line. */
  function Opened(src: seq<byte>, source: InputSource, ft: FloatText): (r: Result<PcdReader>)
    ensures ParseFrom(src, 0, InitialHeader, 0, ft).Err? ==> r == Err(ParseFrom(src, 0, InitialHeader, 0, ft).error)
    ensures ParseFrom(src, 0, InitialHeader, 0, ft).Ok? ==>
      var p := ParseFrom(src, 0, InitialHeader, 0, ft).value;
      (ResolveLayout(p.header).Err? ==> r == Err(ResolveLayout(p.header).error))
      && (ResolveLayout(p.header).Ok? ==> r == Ok(PcdReader(source, src[p.bodyStart..], p.header, ResolveLayout(p.header).value)))
  {
    match ParseFrom(src, 0, InitialHeader, 0, ft)
    case Err(e) => Err(e)
    case Ok(p) =>
      match ResolveLayout(p.header)
      case Err(e) => Err(e)
      case Ok(l) => Ok(PcdReader(source, src[p.bodyStart..], p.header, l))
  }

  /** Opening succeeds exactly when the header parses and every field of it
      resolves; the reader then holds a consistent header, its layout, and
      a proper suffix of src as the body. */
  lemma {:induction false} OpenedReader(src: seq<byte>, source: InputSource, ft: FloatText)
    ensures Opened(src, source, ft).Ok? <==>
      ParseFrom(src, 0, InitialHeader, 0, ft).Ok?
      && ResolvableUpTo(ParseFrom(src, 0, InitialHeader, 0, ft).value.header,
                        |ParseFrom(src, 0, InitialHeader, 0, ft).value.header.fields|)
    ensures Opened(src, source, ft).Ok? ==>
      var rd := Opened(src, source, ft).value;
      rd.source == source && Consistent(rd.header)
      && LayoutOf(rd.header, rd.layout) && WellFormed(rd.layout)
      && |rd.body| < |src| && rd.body == src[|src| - |rd.body|..]
  {
    var parsed := ParseFrom(src, 0, InitialHeader, 0, ft);
    if parsed.Ok? {
      ResolveLayoutCorrect(parsed.value.header);
      if ResolveLayout(parsed.value.header).Ok? {
        LayoutOfWellFormed(parsed.value.header, ResolveLayout(parsed.value.header).value);
      }
    }
  }

  /** `PcdReader::new`. */
  method New(src: seq<byte>, ft: FloatText) returns (r: Result<PcdReader>)
    ensures r == Opened(src, Stream, ft)
  {
    r := Open(src, Stream, ft);
  }

  /** `PcdReader::from_path_mmap`: the data start offset is the position
      just after the DATA line. */
  method FromPathMmap(src: seq<byte>, ft: FloatText) returns (r: Result<PcdReader>)
    ensures r == Opened(src, Mapped, ft)
  {
    r := Open(src, Mapped, ft);
  }

  /** The two steps `new` and `from_path_mmap` share. */
  method Open(src: seq<byte>, source: InputSource, ft: FloatText) returns (r: Result<PcdReader>)
    ensures r == Opened(src, source, ft)
  {
    var parsed := ParseHeader(src, ft);
    if parsed.Err? {
      return Err(parsed.error);
    }
    var layout := FromHeader(parsed.value.header);
    if layout.Err? {
      return Err(layout.error);
    }
    r := Ok(PcdReader(source, src[parsed.value.bodyStart..], parsed.value.header, layout.value));
  }

  // ----- the store `read_all` creates -----

  /** The (name, type) pairs of the layout, in order. */
  function Schema(l: PcdLayout): (s: seq<(string, ValueType)>)
    ensures |s| == |l.fields| && forall f :: 0 <= f < |l.fields| ==> s[f] == (l.fields[f].name, l.fields[f].vt)
  {
    seq(|l.fields|, f requires 0 <= f < |l.fields| => (l.fields[f].name, l.fields[f].vt))
  }

  /** The columns of a new store for the layout: n zeros of each field's
      type. */
  function FreshColumns(l: PcdLayout, n: nat): (cols: seq<Column>)
    ensures |cols| == |l.fields| && forall f :: 0 <= f < |l.fields| ==> cols[f] == NewColumn(l.fields[f].vt, n)
  {
    seq(|l.fields|, f requires 0 <= f < |l.fields| => NewColumn(l.fields[f].vt, n))
  }

  /** The name index of a new store for the layout. */
  function FreshIndex(l: PcdLayout): map<string, nat>
  {
    IndexMap(FieldNames(l))
  }

  /** Fields that share a name share a type. */
  predicate NamesTyped(l: PcdLayout)
  {
    forall f, g :: 0 <= f < |l.fields| && 0 <= g < |l.fields| && l.fields[f].name == l.fields[g].name ==>
      l.fields[f].vt == l.fields[g].vt
  }

  /** Distinct names trivially share types. */
  lemma {:induction false} DistinctNamesTyped(l: PcdLayout)
    requires Distinct(FieldNames(l))
    ensures NamesTyped(l)
  {
    forall f, g | 0 <= f < |l.fields| && 0 <= g < |l.fields| && l.fields[f].name == l.fields[g].name
      ensures f == g
    {
      assert FieldNames(l)[f] == FieldNames(l)[g];
    }
  }

  /** In the store `read_all` creates, every layout field finds a column,
      and that column has the field's type exactly when fields that share
      a name share a type (the column of a repeated name is that of its
      last field). */
  lemma {:induction false} FreshStoreAgrees(l: PcdLayout, n: nat)
    ensures IndexInto(FreshIndex(l), FreshColumns(l, n)) && AllPresent(l, FreshIndex(l))
    ensures TypesAgree(l, FreshColumns(l, n), FreshIndex(l)) <==> NamesTyped(l)
  {
    var names, cols, index := FieldNames(l), FreshColumns(l, n), FreshIndex(l);
    FreshStoreIndexed(l, n);
    forall f | 0 <= f < |l.fields|
      ensures l.fields[index[l.fields[f].name]].name == l.fields[f].name
    {
      assert names[f] == l.fields[f].name;
      IndexMapLast(names, l.fields[f].name);
    }
    if NamesTyped(l) {
      forall f | 0 <= f < |l.fields| && l.fields[f].name in index
        ensures TypeOf(cols[index[l.fields[f].name]]) == l.fields[f].vt
      {
        var k := index[l.fields[f].name];
        assert l.fields[k].name == l.fields[f].name;
      }
    }
    if TypesAgree(l, cols, index) {
      forall f, g | 0 <= f < |l.fields| && 0 <= g < |l.fields| && l.fields[f].name == l.fields[g].name
        ensures l.fields[f].vt == l.fields[g].vt
      {
        var k := index[l.fields[f].name];
        assert TypeOf(cols[k]) == l.fields[f].vt;
        assert TypeOf(cols[index[l.fields[g].name]]) == l.fields[g].vt;
      }
    }
  }

  /** Every layout field finds a column of the new store. */
  lemma {:induction false} FreshStoreIndexed(l: PcdLayout, n: nat)
    ensures IndexInto(FreshIndex(l), FreshColumns(l, n)) && AllPresent(l, FreshIndex(l))
  {
    var names, index := FieldNames(l), FreshIndex(l);
    forall f | 0 <= f < |l.fields|
      ensures l.fields[f].name in index
    {
      assert names[f] == l.fields[f].name;
    }
  }

  // ----- the decoder `read_all` runs -----

  /** The decoders `read_all` chooses between. */
  datatype Decoder = BinaryReader | ParallelReader | CompressedReader | AsciiReader

  /** The choice: by the DATA format, and for a binary body by the source
      and the `rayon` feature. */
  function Choose(source: InputSource, data: DataFormat, rayon: bool): (d: Decoder)
    ensures d == ParallelReader <==> data == Binary && source == Mapped && rayon
    ensures (d == CompressedReader <==> data == BinaryCompressed) && (d == AsciiReader <==> data == Ascii)
  {
    match data
    case Binary => if source == Mapped && rayon then ParallelReader else BinaryReader
    case BinaryCompressed => CompressedReader
    case Ascii => AsciiReader
  }

  /** What the sequential binary decoder needs not to panic on the new
      store: once the columns are borrowed (the names are distinct, so
      every column has its field's type), the records the stream delivers
      fit the columns of n elements. */
  predicate BinaryDecodable(l: PcdLayout, n: nat, data: seq<byte>)
  {
    Distinct(FieldNames(l)) ==> RecordsFit(l, FreshIndex(l), RowsRead(l.totalSize, n, |data|), n)
  }

  /** What the parallel decoder needs: a non-empty record (`par_chunks_exact`
      panics on a chunk size of 0) and, once the buffer is known to hold
      all n records, every record inside its columns and every raw-pointer
      write through a column of the field's own type. */
  predicate ParallelDecodable(l: PcdLayout, n: nat, data: seq<byte>)
  {
    l.totalSize > 0 && (l.totalSize * n <= |data| ==> CountsFit(l, n) && (n > 0 ==> NamesTyped(l)))
  }

  /** What the compressed decoder needs, once the frame has been read,
      inflated and checked against the layout (before that it only reports
      errors): fields that share a name share a type, and every block fits
      its column (the new store has a column for every field, so the field
      loop reaches them all). */
  predicate CompressedDecodable(l: PcdLayout, n: nat, data: seq<byte>, lzf: Lzf)
  {
    CompressedDecoder.Buffer(l, n, data, lzf).Ok? ==> NamesTyped(l) && CompressedDecoder.BlocksFit(l, n)
  }

  /** What the ASCII decoder is asked for: once the columns are borrowed,
      the points that find a line in the body fit n rows. */
  predicate AsciiDecodable(l: PcdLayout, n: nat, data: seq<byte>)
  {
    Distinct(FieldNames(l)) ==> RecordsFit(l, FreshIndex(l), AsciiDecoder.LinesRead(data, n), n)
  }

  /** What the decoder `read_all` chooses needs not to panic. */
  predicate Decodable(rd: PcdReader, rayon: bool, lzf: Lzf)
  {
    var l, n := rd.layout, rd.header.points;
    match Choose(rd.source, rd.header.data, rayon)
    case BinaryReader => BinaryDecodable(l, n, rd.body)
    case ParallelReader => ParallelDecodable(l, n, rd.body)
    case CompressedReader => CompressedDecodable(l, n, rd.body, lzf)
    case AsciiReader => AsciiDecodable(l, n, rd.body)
  }

  /** A decodable reader whose layout is well formed, as every opened
      reader's is. */
  predicate Readable(rd: PcdReader, rayon: bool, lzf: Lzf)
  {
    WellFormed(rd.layout) && Decodable(rd, rayon, lzf)
  }

  /** Columns of n elements of the layout's field types, one per field. */
  predicate Shaped(cols: seq<Column>, l: PcdLayout, n: nat)
  {
    |cols| == |l.fields| && forall s :: 0 <= s < |cols| ==> TypeOf(cols[s]) == l.fields[s].vt && Len(cols[s]) == n
  }

  /** `BinaryReader::decode` on the new store. */
  function BinaryOutcome(l: PcdLayout, n: nat, data: seq<byte>): (r: Result<seq<Column>>)
    requires BinaryDecodable(l, n, data)
    ensures r.Ok? ==> Shaped(r.value, l, n)
  {
    if !Distinct(FieldNames(l)) then Err(Other("Failed to acquire columns mutable borrow"))
    else if RowsRead(l.totalSize, n, |data|) < n then Err(Io(UnexpectedEof))
    else
      BinaryShaped(l, n, data);
      Ok(BinaryDecoder.Decoded(FreshColumns(l, n), FreshIndex(l), l, n, data))
  }

  /** The sequential decoder applies to the new store of a layout without
      repeated names, and gives columns of the layout's shape. */
  lemma {:induction false} BinaryShaped(l: PcdLayout, n: nat, data: seq<byte>)
    requires Distinct(FieldNames(l)) && BinaryDecodable(l, n, data)
    ensures IndexInto(FreshIndex(l), FreshColumns(l, n)) && AllPresent(l, FreshIndex(l))
    ensures RecordsFit(l, FreshIndex(l), RowsRead(l.totalSize, n, |data|), n)
    ensures Shaped(BinaryDecoder.Decoded(FreshColumns(l, n), FreshIndex(l), l, n, data), l, n)
  {
    FreshStoreIndexed(l, n);
    var cols := FreshColumns(l, n);
    var r := BinaryDecoder.Decoded(cols, FreshIndex(l), l, n, data);
    forall s | 0 <= s < |r|
      ensures TypeOf(r[s]) == l.fields[s].vt && Len(r[s]) == n
    {
      assert TypeOf(r[s]) == TypeOf(cols[s]);
      assert cols[s] == NewColumn(l.fields[s].vt, n);
    }
  }

  /** `BinaryParallelDecoder::decode_par` on the new store. */
  function ParallelOutcome(l: PcdLayout, n: nat, data: seq<byte>): (r: Result<seq<Column>>)
    requires ParallelDecodable(l, n, data)
    ensures r.Ok? ==> Shaped(r.value, l, n)
  {
    FreshStoreAgrees(l, n);
    if |data| < l.totalSize * n then Err(BufferTooSmall(l.totalSize * n, |data|))
    else
      HoldsRecordsIff(l.totalSize, |data|, n);
      RecordsFitAll(l, FreshIndex(l), n);
      Ok(ParallelDecoder.ParDecoded(FreshColumns(l, n), FreshIndex(l), l, n, data))
  }

  /** `CompressedReader::decode` on the new store: the frame's error, or
      the blocks stored into the resized columns (the new store has a
      column for every field, so the field loop runs to the end). */
  function CompressedOutcome(l: PcdLayout, n: nat, data: seq<byte>, lzf: Lzf): (r: Result<seq<Column>>)
    ensures r.Ok? ==> Shaped(r.value, l, n)
    ensures r.Err? <==> CompressedDecoder.Buffer(l, n, data, lzf).Err?
  {
    var buf := CompressedDecoder.Buffer(l, n, data, lzf);
    if buf.Err? then Err(buf.error)
    else
      var resized := ResizedAll(FreshColumns(l, n), n);
      Ok(CompressedDecoder.Stored(resized, FreshIndex(l), l, n, buf.value))
  }

  /** `AsciiReader::decode` on the new store. */
  function AsciiOutcome(l: PcdLayout, n: nat, data: seq<byte>, ft: FloatText): (r: Result<seq<Column>>)
    ensures r.Ok? ==> Shaped(r.value, l, n)
  {
    var o := AsciiDecoder.Decoded(FreshColumns(l, n), FreshIndex(l), l, n, data, ft);
    if o.result.Err? then Err(o.result.error) else Ok(o.cols)
  }

  /** The columns `read_all` returns, or its error: the chosen decoder's
      effect on the new store. */
  function ReadOutcome(rd: PcdReader, rayon: bool, ft: FloatText, lzf: Lzf): (r: Result<seq<Column>>)
    requires Readable(rd, rayon, lzf)
    ensures r.Ok? ==> Shaped(r.value, rd.layout, rd.header.points)
  {
    var l, n, data := rd.layout, rd.header.points, rd.body;
    match Choose(rd.source, rd.header.data, rayon)
    case BinaryReader => BinaryOutcome(l, n, data)
    case ParallelReader => ParallelOutcome(l, n, data)
    case CompressedReader => CompressedOutcome(l, n, data, lzf)
    case AsciiReader => AsciiOutcome(l, n, data, ft)
  }

  /** `read_all`. */
  method ReadAll(rd: PcdReader, rayon: bool, ft: FloatText, lzf: Lzf) returns (r: Result<PointBlock>)
    requires Readable(rd, rayon, lzf)
    ensures ReadOutcome(rd, rayon, ft, lzf).Err? ==> r == Err(ReadOutcome(rd, rayon, ft, lzf).error)
    ensures ReadOutcome(rd, rayon, ft, lzf).Ok? ==>
      r.Ok? && fresh(r.value) && r.value.Valid()
      && r.value.schema == FieldNames(rd.layout) && r.value.len == rd.header.points
      && r.value.columns == ReadOutcome(rd, rayon, ft, lzf).value
  {
    var l, n := rd.layout, rd.header.points;
    match Choose(rd.source, rd.header.data, rayon) {
      case BinaryReader =>
        r := ReadBinary(l, n, rd.body);
      case ParallelReader =>
        r := ReadParallel(l, n, rd.body);
      case CompressedReader =>
        r := ReadCompressed(l, n, rd.body, lzf);
      case AsciiReader =>
        r := ReadAscii(l, n, rd.body, ft);
    }
  }

  /** `PointBlock::new` with the layout's (name, type) pairs and capacity n. */
  method NewBlock(l: PcdLayout, n: nat) returns (block: PointBlock)
    ensures fresh(block) && block.Valid()
    ensures block.schema == FieldNames(l) && block.columns == FreshColumns(l, n)
    ensures block.nameToIndex == FreshIndex(l) && block.len == n
  {
    block := new PointBlock(Schema(l), n);
    assert block.columns == FreshColumns(l, n);
    assert block.schema == FieldNames(l);
  }

  /** The `DataFormat::Binary` arm on a stream. */
  method ReadBinary(l: PcdLayout, n: nat, data: seq<byte>) returns (r: Result<PointBlock>)
    requires WellFormed(l) && BinaryDecodable(l, n, data)
    ensures BinaryOutcome(l, n, data).Err? ==> r == Err(BinaryOutcome(l, n, data).error)
    ensures BinaryOutcome(l, n, data).Ok? ==>
      r.Ok? && fresh(r.value) && r.value.Valid() && r.value.schema == FieldNames(l)
      && r.value.len == n && r.value.columns == BinaryOutcome(l, n, data).value
  {
    var block := NewBlock(l, n);
    FreshStoreAgrees(l, n);
    WellFormedFieldsFit(l);
    if Distinct(FieldNames(l)) {
      DistinctNamesTyped(l);
    }
    var res := BinaryDecoder.Decode(l, n, data, block);
    ghost var o := BinaryOutcome(l, n, data);
    assert res.Err? <==> o.Err?;
    if res.Err? {
      assert res.error == o.error;
      return Err(res.error);
    }
    assert block.columns == o.value;
    r := Ok(block);
  }

  /** The `DataFormat::Binary` arm on a memory map with `rayon`. */
  method ReadParallel(l: PcdLayout, n: nat, data: seq<byte>) returns (r: Result<PointBlock>)
    requires WellFormed(l) && ParallelDecodable(l, n, data)
    ensures ParallelOutcome(l, n, data).Err? ==> r == Err(ParallelOutcome(l, n, data).error)
    ensures ParallelOutcome(l, n, data).Ok? ==>
      r.Ok? && fresh(r.value) && r.value.Valid() && r.value.schema == FieldNames(l)
      && r.value.len == n && r.value.columns == ParallelOutcome(l, n, data).value
  {
    var block := NewBlock(l, n);
    FreshStoreAgrees(l, n);
    WellFormedFieldsFit(l);
    RecordsFitAll(l, FreshIndex(l), n);
    var res := ParallelDecoder.DecodePar(l, n, data, block);
    ghost var o := ParallelOutcome(l, n, data);
    if res.Err? {
      assert |data| < l.totalSize * n && o.Err? && res.error == o.error;
      return Err(res.error);
    }
    assert l.totalSize * n <= |data| && block.columns == o.value;
    r := Ok(block);
  }

  /** The `DataFormat::BinaryCompressed` arm. */
  method ReadCompressed(l: PcdLayout, n: nat, data: seq<byte>, lzf: Lzf) returns (r: Result<PointBlock>)
    requires WellFormed(l) && CompressedDecodable(l, n, data, lzf)
    ensures CompressedOutcome(l, n, data, lzf).Err? ==> r == Err(CompressedOutcome(l, n, data, lzf).error)
    ensures CompressedOutcome(l, n, data, lzf).Ok? ==>
      r.Ok? && fresh(r.value) && r.value.Valid() && r.value.schema == FieldNames(l)
      && r.value.len == n && r.value.columns == CompressedOutcome(l, n, data, lzf).value
  {
    var block := NewBlock(l, n);
    FreshStoreAgrees(l, n);
    CompressedDecoder.StorableAllPresent(l, n, block.columns, block.nameToIndex);
    var res := CompressedDecoder.Decode(l, n, data, lzf, block);
    if res.Err? {
      return Err(res.error);
    }
    r := Ok(block);
  }

  /** The `DataFormat::Ascii` arm. */
  method ReadAscii(l: PcdLayout, n: nat, data: seq<byte>, ft: FloatText) returns (r: Result<PointBlock>)
    requires AsciiDecodable(l, n, data)
    ensures AsciiOutcome(l, n, data, ft).Err? ==> r == Err(AsciiOutcome(l, n, data, ft).error)
    ensures AsciiOutcome(l, n, data, ft).Ok? ==>
      r.Ok? && fresh(r.value) && r.value.Valid() && r.value.schema == FieldNames(l)
      && r.value.len == n && r.value.columns == AsciiOutcome(l, n, data, ft).value
  {
    var block := NewBlock(l, n);
    FreshStoreAgrees(l, n);
    if Distinct(FieldNames(l)) {
      DistinctNamesTyped(l);
    }
    var res := AsciiDecoder.Decode(l, n, data, ft, block);
    if res.Err? {
      return Err(res.error);
    }
    r := Ok(block);
  }

  /** What `read_pcd_file` gives for the file's bytes: opened as a stream,
      then read. */
  function FileOutcome(src: seq<byte>, ft: FloatText, lzf: Lzf): (r: Result<seq<Column>>)
    requires Opened(src, Stream, ft).Ok? ==> Decodable(Opened(src, Stream, ft).value, false, lzf)
    ensures r.Ok? ==> Opened(src, Stream, ft).Ok?
    ensures r.Ok? ==> Shaped(r.value, Opened(src, Stream, ft).value.layout, Opened(src, Stream, ft).value.header.points)
  {
    OpenedReader(src, Stream, ft);
    match Opened(src, Stream, ft)
    case Err(e) => Err(e)
    case Ok(rd) => ReadOutcome(rd, false, ft, lzf)
  }

  /** `read_pcd_file`. */
  method ReadPcdFile(src: seq<byte>, ft: FloatText, lzf: Lzf) returns (r: Result<PointBlock>)
    requires Opened(src, Stream, ft).Ok? ==> Decodable(Opened(src, Stream, ft).value, false, lzf)
    ensures FileOutcome(src, ft, lzf).Err? ==> r == Err(FileOutcome(src, ft, lzf).error)
    ensures FileOutcome(src, ft, lzf).Ok? ==>
      r.Ok? && fresh(r.value) && r.value.columns == FileOutcome(src, ft, lzf).value
  {
    var rd := New(src, ft);
    if rd.Err? {
      return Err(rd.error);
    }
    OpenedReader(src, Stream, ft);
    r := ReadAll(rd.value, false, ft, lzf);
  }

  // ----- properties -----

  /** A mapped binary body read by the parallel decoder gives the same
      columns as the sequential decoder whenever the body holds every
      record and no field name repeats; when the body is short both fail,
      with BufferTooSmall and UnexpectedEof respectively. */
  lemma {:induction false} ParallelMatchesStream(rd: PcdReader, ft: FloatText, lzf: Lzf)
    requires rd.source == Mapped && rd.header.data == Binary
    requires Readable(rd, true, lzf) && Readable(rd, false, lzf)
    ensures var par, str := ReadOutcome(rd, true, ft, lzf), ReadOutcome(rd, false, ft, lzf);
      var l, n := rd.layout, rd.header.points;
      (Distinct(FieldNames(l)) && l.totalSize * n <= |rd.body| ==> par.Ok? && par == str)
      && (|rd.body| < l.totalSize * n ==>
            par == Err(BufferTooSmall(l.totalSize * n, |rd.body|)) && str.Err?)
  {
    var l, n, data := rd.layout, rd.header.points, rd.body;
    assert ReadOutcome(rd, true, ft, lzf) == ParallelOutcome(l, n, data);
    assert ReadOutcome(rd, false, ft, lzf) == BinaryOutcome(l, n, data);
    if l.totalSize * n <= |data| {
      if Distinct(FieldNames(l)) {
        ParallelWhole(l, n, data);
      }
    } else {
      ParallelShort(l, n, data);
    }
  }

  /** A body holding every record: both decoders succeed alike. */
  lemma {:induction false} ParallelWhole(l: PcdLayout, n: nat, data: seq<byte>)
    requires BinaryDecodable(l, n, data) && ParallelDecodable(l, n, data)
    requires Distinct(FieldNames(l)) && l.totalSize * n <= |data|
    ensures ParallelOutcome(l, n, data).Ok? && ParallelOutcome(l, n, data) == BinaryOutcome(l, n, data)
  {
    FreshStoreAgrees(l, n);
    HoldsRecordsIff(l.totalSize, |data|, n);
    RowsReadAll(l.totalSize, n, |data|);
    RecordsFitAll(l, FreshIndex(l), n);
    ParallelDecoder.ParMatchesSequential(FreshColumns(l, n), FreshIndex(l), l, n, data);
  }

  /** A short body: the parallel decoder reports the sizes, the sequential
      one fails too. */
  lemma {:induction false} ParallelShort(l: PcdLayout, n: nat, data: seq<byte>)
    requires BinaryDecodable(l, n, data) && ParallelDecodable(l, n, data)
    requires |data| < l.totalSize * n
    ensures ParallelOutcome(l, n, data) == Err(BufferTooSmall(l.totalSize * n, |data|))
    ensures BinaryOutcome(l, n, data).Err?
  {
    if Distinct(FieldNames(l)) {
      RowsReadBytes(l.totalSize, n, |data|);
    }
  }
}

/** The writer (src/io/writer.rs): the ten header lines, then one body in
    the header's format. The sink is the sequence of bytes written so far;
    writing to it never fails. Every body looks its columns up by the
    header's field names and dispatches on each field's TYPE letter and
    SIZE with the layout resolver's table; what each step emits, and the
    result it ends with, is a function of the header and the store. */
module Writer {
  import opened Errors
  import opened Bytes
  import opened Header
  import opened Layout
  import opened Elements
  import opened Storage
  import opened Text
  import opened External
  import Records

  /** What a part of the writer emits, and its result. */
  datatype Emitted = Emitted(bytes: seq<byte>, result: Result<()>)

  // ----- steps run in order -----

  /** Appending a step to what came before, unless that already failed. */
  function Then(prev: Emitted, next: Emitted): (e: Emitted)
    ensures prev.result.Err? ==> e == prev
    ensures prev.result.Ok? ==> e.bytes == prev.bytes + next.bytes && e.result == next.result
  {
    if prev.result.Err? then prev else Emitted(prev.bytes + next.bytes, next.result)
  }

  /** A sequence of steps run in order, stopping at the first that fails
      (the `?` after each write). */
  function Fold(es: seq<Emitted>, k: nat): Emitted
    requires k <= |es|
  {
    if k == 0 then Emitted([], Ok(())) else Then(Fold(es, k - 1), es[k - 1])
  }

  /** The bytes of steps 0 .. k-1 laid end to end. */
  function Width(es: seq<Emitted>, k: nat): nat
    requires k <= |es|
  {
    if k == 0 then 0 else Width(es, k - 1) + |es[k - 1].bytes|
  }

  lemma {:induction false} FoldStep(es: seq<Emitted>, k: nat)
    requires k < |es|
    ensures Fold(es, k + 1) == Then(Fold(es, k), es[k])
  {
    assert k + 1 - 1 == k;
  }

  /** Once a step fails, nothing after it is run. */
  lemma {:induction false} FoldStops(es: seq<Emitted>, k: nat, m: nat)
    requires k <= m <= |es| && Fold(es, k).result.Err?
    ensures Fold(es, m) == Fold(es, k)
    decreases m
  {
    if k < m {
      FoldStops(es, k, m - 1);
      FoldStep(es, m - 1);
    }
  }

  /** Three writes in a row append their bytes in order. */
  lemma {:induction false} ThreeWrites(w: seq<byte>, a: seq<byte>, b: seq<byte>, c: seq<byte>)
    ensures w + a + b + c == w + (a + b + c)
  {
    assert w + a + b + c == w + (a + b) + c;
  }

  /** What was written after w0 is the first k steps, all of which
      succeeded. */
  predicate Emitting(w0: seq<byte>, w: seq<byte>, es: seq<Emitted>, k: nat)
  {
    k <= |es| && w == w0 + Fold(es, k).bytes && Fold(es, k).result == Ok(())
  }

  /** Emitting step i after the first i steps, all of which succeeded,
      gives the first i + 1 steps, and all of them when step i fails. */
  lemma {:induction false} FoldAdvance(w0: seq<byte>, w: seq<byte>, es: seq<Emitted>, i: nat)
    requires i < |es| && w == w0 + Fold(es, i).bytes && Fold(es, i).result == Ok(())
    ensures w + es[i].bytes == w0 + Fold(es, i + 1).bytes
    ensures es[i].result.Ok? ==> Fold(es, i + 1).result == Ok(())
    ensures es[i].result.Err? ==> Fold(es, |es|) == Fold(es, i + 1) && Fold(es, |es|).result == es[i].result
  {
    FoldStep(es, i);
    if es[i].result.Err? {
      FoldStops(es, i + 1, |es|);
    } else {
      assert es[i].result.value == ();
    }
  }

  /** The steps succeed exactly when each does; otherwise the result is
      that of the first that fails, and the bytes are those of the steps
      before it and its own. */
  lemma {:induction false} FoldOk(es: seq<Emitted>, k: nat)
    requires k <= |es|
    ensures Fold(es, k).result.Ok? <==> forall j :: 0 <= j < k ==> es[j].result.Ok?
    ensures Fold(es, k).result.Err? ==>
      exists j :: 0 <= j < k && es[j].result.Err? && Fold(es, k).result == es[j].result
        && (forall j' :: 0 <= j' < j ==> es[j'].result.Ok?)
        && Fold(es, k).bytes == Fold(es, j).bytes + es[j].bytes
    decreases k
  {
    if k > 0 {
      FoldOk(es, k - 1);
      FoldStep(es, k - 1);
      if Fold(es, k - 1).result.Ok? && es[k - 1].result.Err? {
        assert exists j :: (0 <= j < k && es[j].result.Err? && Fold(es, k).result == es[j].result
          && (forall j' :: 0 <= j' < j ==> es[j'].result.Ok?)
          && Fold(es, k).bytes == Fold(es, j).bytes + es[j].bytes) by {
          assert k - 1 < k && es[k - 1].result.Err?;
        }
      }
    }
  }

  /** When every step succeeds, the bytes are theirs end to end. */
  lemma {:induction false} FoldLength(es: seq<Emitted>, k: nat)
    requires k <= |es| && forall j :: 0 <= j < k ==> es[j].result.Ok?
    ensures Fold(es, k).result.Ok? && |Fold(es, k).bytes| == Width(es, k)
    decreases k
  {
    if k > 0 {
      FoldLength(es, k - 1);
      FoldStep(es, k - 1);
    }
  }

  /** ... and step j's bytes sit at Width(es, j). */
  lemma {:induction false} FoldAt(es: seq<Emitted>, k: nat, j: nat)
    requires j < k <= |es| && forall j' :: 0 <= j' < k ==> es[j'].result.Ok?
    ensures Width(es, j) + |es[j].bytes| <= |Fold(es, k).bytes|
    ensures Fold(es, k).bytes[Width(es, j) .. Width(es, j) + |es[j].bytes|] == es[j].bytes
    decreases k
  {
    FoldLength(es, k);
    FoldLength(es, k - 1);
    FoldStep(es, k - 1);
    var prev := Fold(es, k - 1).bytes;
    assert Fold(es, k).bytes == prev + es[k - 1].bytes;
    if j < k - 1 {
      FoldAt(es, k - 1, j);
      assert Fold(es, k).bytes[Width(es, j) .. Width(es, j) + |es[j].bytes|]
          == prev[Width(es, j) .. Width(es, j) + |es[j].bytes|];
    } else {
      assert Fold(es, k).bytes[|prev| ..] == es[k - 1].bytes;
    }
  }

  /** Steps of equal length w start at multiples of w. */
  lemma {:induction false} WidthUniform(es: seq<Emitted>, w: nat, k: nat)
    requires k <= |es| && forall j :: 0 <= j < |es| ==> |es[j].bytes| == w
    ensures Width(es, k) == Skip(w, k)
    decreases k
  {
    if k > 0 {
      WidthUniform(es, w, k - 1);
    }
  }

  /** Steps of one width w: step j sits at j times w. */
  lemma {:induction false} FoldUniformAt(es: seq<Emitted>, w: nat, k: nat, j: nat)
    requires j < k <= |es| && forall j' :: 0 <= j' < |es| ==> es[j'].result.Ok? && |es[j'].bytes| == w
    ensures Skip(w, j) + w <= |Fold(es, k).bytes|
    ensures Fold(es, k).bytes[Skip(w, j) .. Skip(w, j) + w] == es[j].bytes
  {
    FoldAt(es, k, j);
    WidthUniform(es, w, j);
  }

  /** Writing b after a part a of a body gives the part a + b. */
  lemma {:induction false} Appended(w0: seq<byte>, w: seq<byte>, a: seq<byte>, b: seq<byte>)
    requires w == w0 + a
    ensures w + b == w0 + (a + b)
  {
  }

  // ----- the header -----

  function Decimals(xs: seq<nat>): (ts: seq<string>)
    ensures |ts| == |xs|
  {
    seq(|xs|, i requires 0 <= i < |xs| => NatToDecimal(xs[i]))
  }

  /** `to_string` of each TYPE letter. */
  function Letters(cs: seq<char>): (ts: seq<string>)
    ensures |ts| == |cs|
  {
    seq(|cs|, i requires 0 <= i < |cs| => [cs[i]])
  }

  /** The viewpoint's seven numbers as `{}` formats them. */
  function ViewpointTokens(vp: Viewpoint, ft: FloatText): (ts: seq<string>)
    ensures |ts| == 7
  {
    seq(7, i requires 0 <= i < 7 => ft.displayF64(vp[i]))
  }

  /** The ten header lines, without their newlines, in the order
      `write_header` emits them. */
  function HeaderLines(h: PcdHeader, ft: FloatText): (lines: seq<string>)
    ensures |lines| == 10
  {
    [ "VERSION " + h.version,
      "FIELDS " + Join(h.fields, " "),
      "SIZE " + Join(Decimals(h.sizes), " "),
      "TYPE " + Join(Letters(h.types), " "),
      "COUNT " + Join(Decimals(h.counts), " "),
      "WIDTH " + NatToDecimal(h.width),
      "HEIGHT " + NatToDecimal(h.height),
      "VIEWPOINT " + Join(ViewpointTokens(h.viewpoint, ft), " "),
      "POINTS " + NatToDecimal(h.points),
      "DATA " + FormatToken(h.data) ]
  }

  /** The first k lines, each followed by a newline, as `writeln!` emits
      them in UTF-8. */
  function LinesBytes(lines: seq<string>, k: nat): seq<byte>
    requires k <= |lines|
  {
    if k == 0 then [] else LinesBytes(lines, k - 1) + Utf8(lines[k - 1] + "\n")
  }

  function HeaderBytes(h: PcdHeader, ft: FloatText): seq<byte>
  {
    LinesBytes(HeaderLines(h, ft), 10)
  }

  // ----- looking up the columns -----

  /** The column `get_column(name)` returns from a store with these
      columns and this index. */
  function ColumnNamed(cols: seq<Column>, index: map<string, nat>, name: string): Option<Column>
  {
    if name in index && index[name] < |cols| then Some(cols[index[name]]) else None
  }

  lemma {:induction false} GetColumnNamed(data: PointBlock, name: string)
    requires data.Valid()
    ensures data.GetColumn(name) == ColumnNamed(data.columns, data.nameToIndex, name)
  {
  }

  /** The first of names from position g on that has no column. */
  function FirstAbsent(names: seq<string>, cols: seq<Column>, index: map<string, nat>, g: nat): (r: Option<nat>)
    requires g <= |names|
    ensures r.None? <==> forall j :: g <= j < |names| ==> ColumnNamed(cols, index, names[j]).Some?
    ensures r.Some? ==>
      g <= r.value < |names| && ColumnNamed(cols, index, names[r.value]).None?
      && forall j :: g <= j < r.value ==> ColumnNamed(cols, index, names[j]).Some?
    decreases |names| - g
  {
    if g == |names| then None
    else if ColumnNamed(cols, index, names[g]).None? then Some(g)
    else FirstAbsent(names, cols, index, g + 1)
  }

  /** The loop that collects one column per header field before anything
      is written: the first missing one gives InvalidDataFormat. */
  function Collected(h: PcdHeader, cols: seq<Column>, index: map<string, nat>): (r: Result<seq<Column>>)
    ensures r.Err? <==> exists f :: 0 <= f < |h.fields| && ColumnNamed(cols, index, h.fields[f]).None?
    ensures r.Err? ==> exists f :: (0 <= f < |h.fields| && ColumnNamed(cols, index, h.fields[f]).None?
      && (forall g :: 0 <= g < f ==> ColumnNamed(cols, index, h.fields[g]).Some?)
      && r.error == InvalidDataFormat("Missing column " + h.fields[f]))
    ensures r.Ok? ==>
      |r.value| == |h.fields|
      && forall f :: 0 <= f < |h.fields| ==> ColumnNamed(cols, index, h.fields[f]) == Some(r.value[f])
  {
    match FirstAbsent(h.fields, cols, index, 0)
    case Some(g) => Err(InvalidDataFormat("Missing column " + h.fields[g]))
    case None =>
      Ok(seq(|h.fields|, f requires 0 <= f < |h.fields| => ColumnNamed(cols, index, h.fields[f]).value))
  }

  /** The SIZE, TYPE and COUNT lists have an entry for every field: the
      writers index them by field position. */
  predicate Indexable(h: PcdHeader)
  {
    |h.sizes| >= |h.fields| && |h.types| >= |h.fields| && |h.counts| >= |h.fields|
  }

  /** Every collected column holds the `points * count` elements the
      point loops index (`vec[i * count + k]`). */
  predicate LongEnough(h: PcdHeader, fc: seq<Column>)
    requires Indexable(h) && |fc| == |h.fields|
  {
    forall f :: 0 <= f < |h.fields| ==> Skip(h.counts[f], h.points) <= Len(fc[f])
  }

  /** The same for the store, field by field. */
  predicate ColumnsLongEnough(h: PcdHeader, cols: seq<Column>, index: map<string, nat>)
    requires Indexable(h)
  {
    forall f :: 0 <= f < |h.fields| && ColumnNamed(cols, index, h.fields[f]).Some? ==>
      Skip(h.counts[f], h.points) <= Len(ColumnNamed(cols, index, h.fields[f]).value)
  }

  lemma {:induction false} CollectedLongEnough(h: PcdHeader, cols: seq<Column>, index: map<string, nat>)
    requires Indexable(h) && ColumnsLongEnough(h, cols, index) && AllTyped(cols)
    requires Collected(h, cols, index).Ok?
    ensures LongEnough(h, Collected(h, cols, index).value) && AllTyped(Collected(h, cols, index).value)
  {
    var fc := Collected(h, cols, index).value;
    forall f | 0 <= f < |fc|
      ensures WellTyped(fc[f])
    {
      assert ColumnNamed(cols, index, h.fields[f]) == Some(fc[f]);
    }
  }

  /** Row i of a field with `count` elements per point lies inside the
      first `points * count` elements. */
  lemma {:induction false} RowInside(i: nat, points: nat, count: nat)
    requires i < points
    ensures Skip(count, i) + count <= Skip(count, points)
  {
    SkipMono(count, i + 1, points);
  }

  // ----- elements -----

  /** The little-endian bytes of elements start .. start + count - 1 of a
      column, in order. */
  function ElemsBytes(c: Column, start: nat, count: nat): (bs: seq<byte>)
    requires WellTyped(c) && start + count <= Len(c)
    ensures |bs| == Skip(Size(TypeOf(c)), count)
    decreases count
  {
    if count == 0 then []
    else ElemsBytes(c, start, count - 1) + EncodeElem(TypeOf(c), Values(c)[start + count - 1])
  }

  /** Appending element start + k after the bytes of elements start ..
      start + k - 1. */
  lemma {:induction false} ElemsBytesNext(buf: seq<byte>, acc: seq<byte>, c: Column, start: nat, k: nat)
    requires WellTyped(c) && start + k < Len(c) && acc == buf + ElemsBytes(c, start, k)
    ensures acc + EncodeElem(TypeOf(c), Values(c)[start + k]) == buf + ElemsBytes(c, start, k + 1)
  {
    var e := EncodeElem(TypeOf(c), Values(c)[start + k]);
    assert ElemsBytes(c, start, k + 1) == ElemsBytes(c, start, k) + e;
    assert buf + ElemsBytes(c, start, k) + e == buf + (ElemsBytes(c, start, k) + e);
  }

  /** One element as `format!` writes it: `{:.6}` for floats, decimal for
      integers. */
  function Token(vt: ValueType, v: int, ft: FloatText): string
    requires InRange(vt, v)
  {
    InRangeBounds(vt, v);
    match vt
    case F32 => ft.fixedF32(v)
    case F64 => ft.fixedF64(v)
    case _ => IntToDecimal(v)
  }

  /** The tokens of elements start .. start + count - 1 of a column. */
  function ElemTokens(c: Column, ft: FloatText, start: nat, count: nat): (ts: seq<string>)
    requires WellTyped(c) && start + count <= Len(c)
    ensures |ts| == count
    decreases count
  {
    if count == 0 then []
    else ElemTokens(c, ft, start, count - 1) + [Token(TypeOf(c), Values(c)[start + count - 1], ft)]
  }

  // ----- the binary body -----

  /** The little-endian bytes of field f's row at point i. */
  function RowBytes(h: PcdHeader, fc: seq<Column>, i: nat, f: nat): seq<byte>
    requires Writes(h, fc) && i < h.points && f < |h.fields|
  {
    RowInside(i, h.points, h.counts[f]);
    ElemsBytes(fc[f], Skip(h.counts[f], i), h.counts[f])
  }

  /** Field f's column holds the element type its TYPE and SIZE entries
      name: exactly then its arm writes without error. */
  predicate FieldTyped(h: PcdHeader, fc: seq<Column>, f: nat)
    requires Indexable(h) && |fc| == |h.fields| && f < |h.fields|
  {
    TypeFromHeader(h.types[f], h.sizes[f]).Ok? && TypeOf(fc[f]) == TypeFromHeader(h.types[f], h.sizes[f]).value
  }

  /** What the point loops need of the collected columns. */
  predicate Writes(h: PcdHeader, fc: seq<Column>)
  {
    Indexable(h) && |fc| == |h.fields| && LongEnough(h, fc) && AllTyped(fc)
  }

  /** Field f of point i: the (TYPE, SIZE) arm, the typed accessor
      (LayoutMismatch(0, 0) when the column holds another type) and the
      `count` elements of the point. */
  function FieldOut(h: PcdHeader, fc: seq<Column>, i: nat, f: nat): (e: Emitted)
    requires Writes(h, fc) && i < h.points && f < |h.fields|
    ensures e.result.Ok? <==> FieldTyped(h, fc, f)
    ensures e.result.Err? ==> e.bytes == []
    ensures e.result.Ok? ==> |e.bytes| == Skip(h.sizes[f], h.counts[f])
  {
    match TypeFromHeader(h.types[f], h.sizes[f])
    case Err(err) => Emitted([], Err(err))
    case Ok(vt) =>
      if TypeOf(fc[f]) != vt then Emitted([], Err(LayoutMismatch(0, 0)))
      else Emitted(RowBytes(h, fc, i, f), Ok(()))
  }

  /** The field steps of point i. */
  function FieldOuts(h: PcdHeader, fc: seq<Column>, i: nat): (es: seq<Emitted>)
    requires Writes(h, fc) && i < h.points
    ensures |es| == |h.fields|
  {
    seq(|h.fields|, f requires 0 <= f < |h.fields| => FieldOut(h, fc, i, f))
  }

  /** The record of point i. */
  function PointOut(h: PcdHeader, fc: seq<Column>, i: nat): Emitted
    requires Writes(h, fc) && i < h.points
  {
    Fold(FieldOuts(h, fc, i), |h.fields|)
  }

  function PointOuts(h: PcdHeader, fc: seq<Column>): (es: seq<Emitted>)
    requires Writes(h, fc)
    ensures |es| == h.points
  {
    seq(h.points, i requires 0 <= i < h.points => PointOut(h, fc, i))
  }

  /** What `write_binary` emits and returns. */
  function BinaryOut(h: PcdHeader, cols: seq<Column>, index: map<string, nat>): (e: Emitted)
    requires Indexable(h) && ColumnsLongEnough(h, cols, index) && AllTyped(cols)
  {
    match Collected(h, cols, index)
    case Err(err) => Emitted([], Err(err))
    case Ok(fc) =>
      CollectedLongEnough(h, cols, index);
      Fold(PointOuts(h, fc), h.points)
  }

  // ----- the ASCII body -----

  /** The tokens of field f of point i: none for a (TYPE, SIZE) pair the
      writer does not know, LayoutMismatch(0, 0) for a column of another
      type. */
  function FieldTokens(h: PcdHeader, fc: seq<Column>, ft: FloatText, i: nat, f: nat): (r: Result<seq<string>>)
    requires Writes(h, fc) && i < h.points && f < |h.fields|
    ensures r.Err? <==> TypeFromHeader(h.types[f], h.sizes[f]).Ok? && !FieldTyped(h, fc, f)
    ensures FieldTyped(h, fc, f) ==> |r.value| == h.counts[f]
  {
    match TypeFromHeader(h.types[f], h.sizes[f])
    case Err(_) => Ok([])
    case Ok(vt) =>
      if TypeOf(fc[f]) != vt then Err(LayoutMismatch(0, 0))
      else
        RowInside(i, h.points, h.counts[f]);
        Ok(ElemTokens(fc[f], ft, Skip(h.counts[f], i), h.counts[f]))
  }

  /** Token lists gathered in order, stopping at the first error. */
  function Gather(rs: seq<Result<seq<string>>>, k: nat): Result<seq<string>>
    requires k <= |rs|
  {
    if k == 0 then Ok([])
    else
      var prev :- Gather(rs, k - 1);
      var next :- rs[k - 1];
      Ok(prev + next)
  }

  lemma {:induction false} GatherStep(rs: seq<Result<seq<string>>>, k: nat)
    requires k < |rs|
    ensures Gather(rs, k + 1)
         == if Gather(rs, k).Err? then Gather(rs, k)
            else if rs[k].Err? then Err(rs[k].error)
            else Ok(Gather(rs, k).value + rs[k].value)
  {
    assert k + 1 - 1 == k;
  }

  lemma {:induction false} GatherStops(rs: seq<Result<seq<string>>>, k: nat, m: nat)
    requires k <= m <= |rs| && Gather(rs, k).Err?
    ensures Gather(rs, m) == Gather(rs, k)
    decreases m
  {
    if k < m {
      GatherStops(rs, k, m - 1);
      GatherStep(rs, m - 1);
    }
  }

  /** The `line_tokens` of point i. */
  function LineTokens(h: PcdHeader, fc: seq<Column>, ft: FloatText, i: nat): Result<seq<string>>
    requires Writes(h, fc) && i < h.points
  {
    Gather(seq(|h.fields|, f requires 0 <= f < |h.fields| => FieldTokens(h, fc, ft, i, f)), |h.fields|)
  }

  /** The line of point i: its tokens joined with single spaces; a point
      whose tokens fail writes nothing of its line. */
  function AsciiLine(h: PcdHeader, fc: seq<Column>, ft: FloatText, i: nat): (e: Emitted)
    requires Writes(h, fc) && i < h.points
    ensures e.result.Err? ==> e.bytes == []
  {
    match LineTokens(h, fc, ft, i)
    case Err(err) => Emitted([], Err(err))
    case Ok(ts) => Emitted(Utf8(Join(ts, " ") + "\n"), Ok(()))
  }

  function AsciiLines(h: PcdHeader, fc: seq<Column>, ft: FloatText): (es: seq<Emitted>)
    requires Writes(h, fc)
    ensures |es| == h.points
  {
    seq(h.points, i requires 0 <= i < h.points => AsciiLine(h, fc, ft, i))
  }

  /** What `write_ascii` emits and returns. */
  function AsciiOut(h: PcdHeader, cols: seq<Column>, index: map<string, nat>, ft: FloatText): (e: Emitted)
    requires Indexable(h) && ColumnsLongEnough(h, cols, index) && AllTyped(cols)
  {
    match Collected(h, cols, index)
    case Err(err) => Emitted([], Err(err))
    case Ok(fc) =>
      CollectedLongEnough(h, cols, index);
      Fold(AsciiLines(h, fc, ft), h.points)
  }

  // ----- the compressed body -----

  /** The element type whose vector `write_compressed_binary` unwraps for
      a field: a float field of any size other than 4 is written as f64;
      an integer field of a size the table lacks, or an unknown letter,
      is skipped. */
  function SoaType(c: char, size: nat): (r: Option<ValueType>)
    ensures TypeFromHeader(c, size).Ok? ==> r == Some(TypeFromHeader(c, size).value)
    ensures r.None? <==> c != 'F' && TypeFromHeader(c, size).Err?
  {
    if c == 'F' then Some(if size == 4 then F32 else F64)
    else if c == 'U' || c == 'I' then
      match TypeFromHeader(c, size)
      case Ok(vt) => Some(vt)
      case Err(_) => None
    else None
  }

  /** How far the field loop of `write_compressed_binary` gets: the
      position of the first field without a column, where it stops with
      InvalidDataFormat, or the number of fields. */
  function SoaReach(h: PcdHeader, cols: seq<Column>, index: map<string, nat>): (r: nat)
    ensures r <= |h.fields|
    ensures forall g :: 0 <= g < r ==> ColumnNamed(cols, index, h.fields[g]).Some?
    ensures r < |h.fields| ==> ColumnNamed(cols, index, h.fields[r]).None?
  {
    match FirstAbsent(h.fields, cols, index, 0)
    case Some(g) => g
    case None => |h.fields|
  }

  /** A field at or before the reach is the reach exactly when it has
      no column. */
  lemma {:induction false} SoaReachAt(h: PcdHeader, cols: seq<Column>, index: map<string, nat>, f: nat)
    requires f < |h.fields| && f <= SoaReach(h, cols, index)
    ensures f == SoaReach(h, cols, index) <==> ColumnNamed(cols, index, h.fields[f]).None?
  {
  }

  /** The SIZE, TYPE and COUNT lists have an entry for every field the
      compressed field loop reaches with a column in hand. */
  predicate SoaIndexable(h: PcdHeader, cols: seq<Column>, index: map<string, nat>)
  {
    var r := SoaReach(h, cols, index);
    |h.sizes| >= r && |h.types| >= r && |h.counts| >= r
  }

  /** Every field the loop reaches with a column in hand, and unwraps,
      holds the type unwrapped (`unwrap` panics otherwise). */
  predicate Unwrappable(h: PcdHeader, cols: seq<Column>, index: map<string, nat>)
    requires SoaIndexable(h, cols, index)
  {
    var r := SoaReach(h, cols, index);
    forall f :: 0 <= f < r && SoaType(h.types[f], h.sizes[f]).Some? ==>
      TypeOf(ColumnNamed(cols, index, h.fields[f]).value) == SoaType(h.types[f], h.sizes[f]).value
  }

  /** Field f's part of the structure-of-arrays buffer: its whole column,
      nothing for a skipped field, InvalidDataFormat for a missing one. */
  function SoaPart(h: PcdHeader, cols: seq<Column>, index: map<string, nat>, f: nat): (e: Emitted)
    requires SoaIndexable(h, cols, index) && AllTyped(cols)
    requires f < |h.fields| && f <= SoaReach(h, cols, index)
    ensures e.result.Ok? <==> ColumnNamed(cols, index, h.fields[f]).Some?
  {
    var name := h.fields[f];
    match ColumnNamed(cols, index, name)
    case None => Emitted([], Err(InvalidDataFormat("Missing column " + name)))
    case Some(c) =>
      assert WellTyped(c);
      if SoaType(h.types[f], h.sizes[f]).Some? then Emitted(ElemsBytes(c, 0, Len(c)), Ok(()))
      else Emitted([], Ok(()))
  }

  /** The parts of the fields the loop reaches: every field up to and
      including the first without a column. */
  function SoaParts(h: PcdHeader, cols: seq<Column>, index: map<string, nat>): (es: seq<Emitted>)
    requires SoaIndexable(h, cols, index) && AllTyped(cols)
    ensures var r := SoaReach(h, cols, index);
      |es| == (if r < |h.fields| then r + 1 else |h.fields|)
  {
    var r := SoaReach(h, cols, index);
    var k := if r < |h.fields| then r + 1 else |h.fields|;
    seq(k, f requires 0 <= f < k => SoaPart(h, cols, index, f))
  }

  /** The field loop of `write_compressed_binary`: the buffer of every
      part, or the error of the first missing column. */
  function SoaBuffer(h: PcdHeader, cols: seq<Column>, index: map<string, nat>): Emitted
    requires SoaIndexable(h, cols, index) && AllTyped(cols)
  {
    var ps := SoaParts(h, cols, index);
    Fold(ps, |ps|)
  }

  /** The loop has reached field f, every part before it succeeding with
      buf. */
  predicate Collecting(h: PcdHeader, cols: seq<Column>, index: map<string, nat>, f: nat, buf: seq<byte>)
  {
    SoaIndexable(h, cols, index) && AllTyped(cols) && f <= SoaReach(h, cols, index)
    && Fold(SoaParts(h, cols, index), f) == Emitted(buf, Ok(()))
  }

  /** A field the loop reaches without a column is the last part, and the
      loop ends with its error. */
  lemma {:induction false} SoaMissing(h: PcdHeader, cols: seq<Column>, index: map<string, nat>, f: nat, buf: seq<byte>)
    requires Collecting(h, cols, index, f, buf)
    requires f < |h.fields| && ColumnNamed(cols, index, h.fields[f]).None?
    ensures SoaBuffer(h, cols, index) == Emitted(buf, Err(InvalidDataFormat("Missing column " + h.fields[f])))
  {
    var ps := SoaParts(h, cols, index);
    SoaReachAt(h, cols, index, f);
    assert f == SoaReach(h, cols, index) < |h.fields|;
    assert |ps| == f + 1;
    var p := SoaPart(h, cols, index, f);
    assert p == Emitted([], Err(InvalidDataFormat("Missing column " + h.fields[f])));
    assert ps[f] == p;
    FoldStep(ps, f);
  }

  /** A field the loop reaches with a column has SIZE and TYPE entries and
      adds the whole column, or nothing when skipped; the loop goes on. */
  lemma {:induction false} SoaPresent(h: PcdHeader, cols: seq<Column>, index: map<string, nat>, f: nat, buf: seq<byte>, c: Column)
    requires Collecting(h, cols, index, f, buf)
    requires f < |h.fields| && ColumnNamed(cols, index, h.fields[f]) == Some(c)
    ensures f < |h.types| && f < |h.sizes| && WellTyped(c)
    ensures Collecting(h, cols, index, f + 1,
      buf + (if SoaType(h.types[f], h.sizes[f]).Some? then ElemsBytes(c, 0, Len(c)) else []))
  {
    var ps := SoaParts(h, cols, index);
    SoaReachAt(h, cols, index, f);
    assert f < SoaReach(h, cols, index) && f < |ps|;
    assert ps[f] == SoaPart(h, cols, index, f);
    FoldStep(ps, f);
    if SoaType(h.types[f], h.sizes[f]).None? {
      assert buf + [] == buf;
    }
  }

  /** Past the last field with every part succeeding, the loop's result is
      the buffer. */
  lemma {:induction false} SoaDone(h: PcdHeader, cols: seq<Column>, index: map<string, nat>, buf: seq<byte>)
    requires Collecting(h, cols, index, |h.fields|, buf)
    ensures SoaBuffer(h, cols, index) == Emitted(buf, Ok(()))
  {
    assert SoaReach(h, cols, index) == |h.fields|;
  }

  /** `as u32` of a length: its low 32 bits, little-endian. */
  function U32Le(x: nat): (bs: seq<byte>)
    ensures |bs| == 4
  {
    Pow256Values();
    LeEncode(x % 0x1_0000_0000, 4)
  }

  /** What `write_compressed_binary` emits and returns: the two lengths
      and the payload, which is the raw buffer when LZF finds nothing to
      compress. Nothing is emitted before the buffer is complete. */
  function CompressedOut(h: PcdHeader, cols: seq<Column>, index: map<string, nat>, lzf: Lzf): (e: Emitted)
    requires SoaIndexable(h, cols, index) && AllTyped(cols)
  {
    var soa := SoaBuffer(h, cols, index);
    if soa.result.Err? then Emitted([], soa.result) else Framed(soa.bytes, lzf)
  }

  /** Every part before the reach succeeds: the loop gets that far. */
  lemma {:induction false} SoaReached(h: PcdHeader, cols: seq<Column>, index: map<string, nat>)
    requires SoaIndexable(h, cols, index) && AllTyped(cols)
    ensures var r := SoaReach(h, cols, index);
      r <= |SoaParts(h, cols, index)| && Collecting(h, cols, index, r, Fold(SoaParts(h, cols, index), r).bytes)
  {
    var r := SoaReach(h, cols, index);
    var ps := SoaParts(h, cols, index);
    forall j | 0 <= j < r
      ensures ps[j].result.Ok?
    {
      assert ps[j] == SoaPart(h, cols, index, j);
    }
    FoldOk(ps, r);
  }

  /** The compressed body fails with "Missing column" for the first field
      without a column, having written nothing. */
  lemma {:induction false} CompressedMissing(h: PcdHeader, cols: seq<Column>, index: map<string, nat>, lzf: Lzf)
    requires SoaIndexable(h, cols, index) && AllTyped(cols)
    requires SoaReach(h, cols, index) < |h.fields|
    ensures CompressedOut(h, cols, index, lzf)
         == Emitted([], Err(InvalidDataFormat("Missing column " + h.fields[SoaReach(h, cols, index)])))
  {
    SoaReached(h, cols, index);
    var r := SoaReach(h, cols, index);
    SoaMissing(h, cols, index, r, Fold(SoaParts(h, cols, index), r).bytes);
  }

  /** With every column present the whole buffer is collected and
      framed. */
  lemma {:induction false} CompressedComplete(h: PcdHeader, cols: seq<Column>, index: map<string, nat>, lzf: Lzf)
    requires SoaIndexable(h, cols, index) && AllTyped(cols)
    requires forall f :: 0 <= f < |h.fields| ==> ColumnNamed(cols, index, h.fields[f]).Some?
    ensures SoaBuffer(h, cols, index).result.Ok?
    ensures CompressedOut(h, cols, index, lzf) == Framed(SoaBuffer(h, cols, index).bytes, lzf)
  {
    SoaReached(h, cols, index);
    var r := SoaReach(h, cols, index);
    assert r == |h.fields|;
    SoaDone(h, cols, index, Fold(SoaParts(h, cols, index), r).bytes);
  }

  /** The compressed frame of a complete buffer: the payload's length, the
      buffer's length, then the payload, which is the raw buffer when LZF
      finds nothing to compress. */
  function Framed(buf: seq<byte>, lzf: Lzf): (e: Emitted)
  {
    match lzf.compress(buf)
    case Compressed(data) => Emitted(U32Le(|data|) + U32Le(|buf|) + data, Ok(()))
    case NoCompressionPossible => Emitted(U32Le(|buf|) + U32Le(|buf|) + buf, Ok(()))
    case CompressFailed(reason) => Emitted([], Err(Other("Compression failed: " + reason)))
  }

  // ----- the whole file -----

  /** What the body writers need not to panic, for the header's format. */
  predicate Writable(h: PcdHeader, cols: seq<Column>, index: map<string, nat>)
  {
    (h.data == BinaryCompressed ==> SoaIndexable(h, cols, index) && Unwrappable(h, cols, index))
    && (h.data != BinaryCompressed ==> Indexable(h) && ColumnsLongEnough(h, cols, index))
  }

  function BodyOut(h: PcdHeader, cols: seq<Column>, index: map<string, nat>, ft: FloatText, lzf: Lzf): Emitted
    requires Writable(h, cols, index) && AllTyped(cols)
  {
    match h.data
    case Binary => BinaryOut(h, cols, index)
    case Ascii => AsciiOut(h, cols, index, ft)
    case BinaryCompressed => CompressedOut(h, cols, index, lzf)
  }

  // ----- the writer -----

  class PcdWriter {
    /** Everything written to the sink so far. */
    var written: seq<byte>

    /** `PcdWriter::new` around a sink; the model keeps what this writer
        writes to it. */
    constructor ()
      ensures written == []
    {
      written := [];
    }

    method Emit(bs: seq<byte>)
      modifies this
      ensures written == old(written) + bs
    {
      written := written + bs;
    }

    /** `writeln!`: the line, its newline, in UTF-8. */
    method WriteLine(line: string)
      modifies this
      ensures written == old(written) + Utf8(line + "\n")
    {
      Emit(Utf8(line + "\n"));
    }

    /** `write_pcd`: the header, then the body the DATA line names. */
    method WritePcd(h: PcdHeader, data: PointBlock, ft: FloatText, lzf: Lzf) returns (r: Result<()>)
      requires data.Valid() && Writable(h, data.columns, data.nameToIndex)
      modifies this
      ensures var body := BodyOut(h, data.columns, data.nameToIndex, ft, lzf);
        written == old(written) + HeaderBytes(h, ft) + body.bytes && r == body.result
    {
      WriteHeader(h, ft);
      match h.data
      case Binary =>
        r := WriteBinary(h, data);
      case Ascii =>
        r := WriteAscii(h, data, ft);
      case BinaryCompressed =>
        r := WriteCompressedBinary(h, data, lzf);
    }

    /** `write_header`: ten `writeln!` calls. */
    method WriteHeader(h: PcdHeader, ft: FloatText)
      modifies this
      ensures written == old(written) + HeaderBytes(h, ft)
    {
      var lines := HeaderLines(h, ft);
      ghost var w := written;
      WriteLine(lines[0]);
      LinesAdvance(old(written), w, lines, 0);
      w := written;
      WriteLine(lines[1]);
      LinesAdvance(old(written), w, lines, 1);
      w := written;
      WriteLine(lines[2]);
      LinesAdvance(old(written), w, lines, 2);
      w := written;
      WriteLine(lines[3]);
      LinesAdvance(old(written), w, lines, 3);
      w := written;
      WriteLine(lines[4]);
      LinesAdvance(old(written), w, lines, 4);
      w := written;
      WriteLine(lines[5]);
      LinesAdvance(old(written), w, lines, 5);
      w := written;
      WriteLine(lines[6]);
      LinesAdvance(old(written), w, lines, 6);
      w := written;
      WriteLine(lines[7]);
      LinesAdvance(old(written), w, lines, 7);
      w := written;
      WriteLine(lines[8]);
      LinesAdvance(old(written), w, lines, 8);
      w := written;
      WriteLine(lines[9]);
      LinesAdvance(old(written), w, lines, 9);
    }

    /** The column-collecting loop the binary and ASCII writers share. */
    method CollectColumns(h: PcdHeader, data: PointBlock) returns (r: Result<seq<Column>>)
      requires data.Valid()
      ensures r == Collected(h, data.columns, data.nameToIndex)
    {
      var columns: seq<Column> := [];
      for f := 0 to |h.fields|
        invariant |columns| == f
        invariant forall g :: 0 <= g < f ==> ColumnNamed(data.columns, data.nameToIndex, h.fields[g]) == Some(columns[g])
        invariant FirstAbsent(h.fields, data.columns, data.nameToIndex, 0)
               == FirstAbsent(h.fields, data.columns, data.nameToIndex, f)
      {
        var c := data.GetColumn(h.fields[f]);
        GetColumnNamed(data, h.fields[f]);
        if c.None? {
          return Err(InvalidDataFormat("Missing column " + h.fields[f]));
        }
        columns := columns + [c.value];
      }
      assert columns == Collected(h, data.columns, data.nameToIndex).value;
      return Ok(columns);
    }

    /** `write_binary`. */
    method WriteBinary(h: PcdHeader, data: PointBlock) returns (r: Result<()>)
      requires data.Valid() && Indexable(h) && ColumnsLongEnough(h, data.columns, data.nameToIndex)
      modifies this
      ensures var e := BinaryOut(h, data.columns, data.nameToIndex);
        written == old(written) + e.bytes && r == e.result
    {
      var got := CollectColumns(h, data);
      if got.Err? {
        return Err(got.error);
      }
      CollectedLongEnough(h, data.columns, data.nameToIndex);
      r := WritePoints(h, got.value);
    }

    /** The point loop of `write_binary`, up to the first failing point. */
    method WritePoints(h: PcdHeader, columns: seq<Column>) returns (r: Result<()>)
      requires Writes(h, columns)
      modifies this
      ensures var e := Fold(PointOuts(h, columns), h.points);
        written == old(written) + e.bytes && r == e.result
    {
      ghost var recs := PointOuts(h, columns);
      for i := 0 to h.points
        invariant Emitting(old(written), written, recs, i)
      {
        r := WritePointStep(h, columns, i, old(written), recs);
        if r.Err? {
          return;
        }
      }
      r := Ok(());
    }

    /** Point i after the points before it, all of which were written
        without error. */
    method WritePointStep(h: PcdHeader, columns: seq<Column>, i: nat, ghost w0: seq<byte>, ghost recs: seq<Emitted>)
      returns (r: Result<()>)
      requires Writes(h, columns) && i < h.points && recs == PointOuts(h, columns)
      requires Emitting(w0, written, recs, i)
      modifies this
      ensures r.Ok? ==> Emitting(w0, written, recs, i + 1)
      ensures r.Err? ==> written == w0 + Fold(recs, |recs|).bytes && r == Fold(recs, |recs|).result
    {
      ghost var w := written;
      assert recs[i] == PointOut(h, columns, i);
      r := WritePoint(h, columns, i, FieldOuts(h, columns, i));
      FoldAdvance(w0, w, recs, i);
    }

    /** The field loop of one point of `write_binary`. */
    method WritePoint(h: PcdHeader, columns: seq<Column>, i: nat, ghost es: seq<Emitted>) returns (r: Result<()>)
      requires Writes(h, columns) && i < h.points && es == FieldOuts(h, columns, i)
      modifies this
      ensures written == old(written) + Fold(es, |es|).bytes && r == Fold(es, |es|).result
    {
      for f := 0 to |h.fields|
        invariant Emitting(old(written), written, es, f)
      {
        r := WriteFieldStep(h, columns, i, f, old(written), es);
        if r.Err? {
          return;
        }
      }
      r := Ok(());
    }

    /** Field f of point i after the fields before it, all of which were
        written without error. */
    method WriteFieldStep(h: PcdHeader, columns: seq<Column>, i: nat, f: nat, ghost w0: seq<byte>, ghost es: seq<Emitted>)
      returns (r: Result<()>)
      requires Writes(h, columns) && i < h.points && f < |h.fields| && es == FieldOuts(h, columns, i)
      requires Emitting(w0, written, es, f)
      modifies this
      ensures r.Ok? ==> Emitting(w0, written, es, f + 1)
      ensures r.Err? ==> written == w0 + Fold(es, |es|).bytes && r == Fold(es, |es|).result
    {
      ghost var w := written;
      assert es[f] == FieldOut(h, columns, i, f);
      r := WriteField(h, columns, i, f);
      FoldAdvance(w0, w, es, f);
    }

    /** One field of one point: the type arm and its `for k in 0..count`
        loop of little-endian writes. */
    method WriteField(h: PcdHeader, columns: seq<Column>, i: nat, f: nat) returns (r: Result<()>)
      requires Writes(h, columns) && i < h.points && f < |h.fields|
      modifies this
      ensures written == old(written) + FieldOut(h, columns, i, f).bytes && r == FieldOut(h, columns, i, f).result
    {
      var col := columns[f];
      var count := h.counts[f];
      var start := i * count;
      SkipIsProduct(count, i);
      match TypeFromHeader(h.types[f], h.sizes[f])
      case Err(err) =>
        return Err(err);
      case Ok(vt) =>
        if TypeOf(col) != vt {
          return Err(LayoutMismatch(0, 0));
        }
        RowInside(i, h.points, count);
        assert WellTyped(col);
        for k := 0 to count
          invariant written == old(written) + ElemsBytes(col, start, k)
        {
          ElemsBytesNext(old(written), written, col, start, k);
          Emit(EncodeElem(vt, Values(col)[start + k]));
        }
        assert FieldOut(h, columns, i, f) == Emitted(RowBytes(h, columns, i, f), Ok(()));
        r := Ok(());
    }

    /** `write_ascii`. */
    method WriteAscii(h: PcdHeader, data: PointBlock, ft: FloatText) returns (r: Result<()>)
      requires data.Valid() && Indexable(h) && ColumnsLongEnough(h, data.columns, data.nameToIndex)
      modifies this
      ensures var e := AsciiOut(h, data.columns, data.nameToIndex, ft);
        written == old(written) + e.bytes && r == e.result
    {
      var got := CollectColumns(h, data);
      if got.Err? {
        return Err(got.error);
      }
      CollectedLongEnough(h, data.columns, data.nameToIndex);
      r := WriteAsciiLines(h, got.value, ft);
    }

    /** The point loop of `write_ascii`, up to the first failing point. */
    method WriteAsciiLines(h: PcdHeader, columns: seq<Column>, ft: FloatText) returns (r: Result<()>)
      requires Writes(h, columns)
      modifies this
      ensures var e := Fold(AsciiLines(h, columns, ft), h.points);
        written == old(written) + e.bytes && r == e.result
    {
      ghost var lines := AsciiLines(h, columns, ft);
      for i := 0 to h.points
        invariant Emitting(old(written), written, lines, i)
      {
        r := WriteAsciiStep(h, columns, ft, i, old(written), lines);
        if r.Err? {
          return;
        }
      }
      r := Ok(());
    }

    /** Line i after the lines before it, all of which were written
        without error. */
    method WriteAsciiStep(h: PcdHeader, columns: seq<Column>, ft: FloatText, i: nat, ghost w0: seq<byte>, ghost lines: seq<Emitted>)
      returns (r: Result<()>)
      requires Writes(h, columns) && i < h.points && lines == AsciiLines(h, columns, ft)
      requires Emitting(w0, written, lines, i)
      modifies this
      ensures r.Ok? ==> Emitting(w0, written, lines, i + 1)
      ensures r.Err? ==> written == w0 + Fold(lines, |lines|).bytes && r == Fold(lines, |lines|).result
    {
      ghost var w := written;
      assert lines[i] == AsciiLine(h, columns, ft, i);
      r := WriteAsciiPoint(h, columns, ft, i);
      FoldAdvance(w0, w, lines, i);
    }

    /** One point of `write_ascii`: its tokens, then its line. */
    method WriteAsciiPoint(h: PcdHeader, columns: seq<Column>, ft: FloatText, i: nat) returns (r: Result<()>)
      requires Writes(h, columns) && i < h.points
      modifies this
      ensures written == old(written) + AsciiLine(h, columns, ft, i).bytes && r == AsciiLine(h, columns, ft, i).result
    {
      var tokens := PointTokens(h, columns, ft, i);
      if tokens.Err? {
        return Err(tokens.error);
      }
      WriteLine(Join(tokens.value, " "));
      r := Ok(());
    }

    /** The `line_tokens` of one point. */
    method PointTokens(h: PcdHeader, columns: seq<Column>, ft: FloatText, i: nat) returns (r: Result<seq<string>>)
      requires Writes(h, columns) && i < h.points
      ensures r == LineTokens(h, columns, ft, i)
    {
      ghost var rs := seq(|h.fields|, f requires 0 <= f < |h.fields| => FieldTokens(h, columns, ft, i, f));
      var lineTokens: seq<string> := [];
      for f := 0 to |h.fields|
        invariant Gather(rs, f) == Ok(lineTokens)
      {
        var col := columns[f];
        var count := h.counts[f];
        var start := i * count;
        SkipIsProduct(count, i);
        GatherStep(rs, f);
        match TypeFromHeader(h.types[f], h.sizes[f])
        case Err(_) =>
          assert lineTokens + [] == lineTokens;
        case Ok(vt) =>
          if TypeOf(col) != vt {
            GatherStops(rs, f + 1, |h.fields|);
            return Err(LayoutMismatch(0, 0));
          }
          RowInside(i, h.points, count);
          lineTokens := AppendTokens(lineTokens, col, ft, start, count);
      }
      r := Ok(lineTokens);
    }

    /** The `for k in 0..count` loop of `write_ascii`: one token per
        element. */
    static method AppendTokens(ts: seq<string>, col: Column, ft: FloatText, start: nat, count: nat)
      returns (ts': seq<string>)
      requires WellTyped(col) && start + count <= Len(col)
      ensures ts' == ts + ElemTokens(col, ft, start, count)
    {
      ts' := ts;
      for k := 0 to count
        invariant ts' == ts + ElemTokens(col, ft, start, k)
      {
        ts' := ts' + [Token(TypeOf(col), Values(col)[start + k], ft)];
      }
    }

    /** The field loop of `write_compressed_binary`: each field's column
        appended to the structure-of-arrays buffer, up to the first
        missing column. */
    method CollectSoa(h: PcdHeader, data: PointBlock) returns (soa: Emitted)
      requires data.Valid() && SoaIndexable(h, data.columns, data.nameToIndex)
      ensures soa == SoaBuffer(h, data.columns, data.nameToIndex)
    {
      var uncompressed: seq<byte> := [];
      for f := 0 to |h.fields|
        invariant Collecting(h, data.columns, data.nameToIndex, f, uncompressed)
      {
        var next := CollectField(h, data, f, uncompressed);
        if next.result.Err? {
          return next;
        }
        uncompressed := next.bytes;
      }
      SoaDone(h, data.columns, data.nameToIndex, uncompressed);
      soa := Emitted(uncompressed, Ok(()));
    }

    /** One turn of the field loop of `write_compressed_binary`: the
        field's column appended to the buffer, nothing for a skipped
        field, InvalidDataFormat for a missing column. */
    method CollectField(h: PcdHeader, data: PointBlock, f: nat, buf: seq<byte>) returns (next: Emitted)
      requires data.Valid() && f < |h.fields| && Collecting(h, data.columns, data.nameToIndex, f, buf)
      ensures next.result.Err? ==> next == SoaBuffer(h, data.columns, data.nameToIndex)
      ensures next.result.Ok? ==> next.result == Ok(()) && Collecting(h, data.columns, data.nameToIndex, f + 1, next.bytes)
    {
      var name := h.fields[f];
      var c := data.GetColumn(name);
      GetColumnNamed(data, name);
      if c.None? {
        SoaMissing(h, data.columns, data.nameToIndex, f, buf);
        return Emitted(buf, Err(InvalidDataFormat("Missing column " + name)));
      }
      SoaPresent(h, data.columns, data.nameToIndex, f, buf, c.value);
      if SoaType(h.types[f], h.sizes[f]).Some? {
        var buf' := AppendColumn(buf, c.value);
        next := Emitted(buf', Ok(()));
      } else {
        next := Emitted(buf, Ok(()));
      }
    }

    /** `uncompressed_data.extend(v.to_le_bytes())` for every element of
        the column. */
    static method AppendColumn(buf: seq<byte>, col: Column) returns (buf': seq<byte>)
      requires WellTyped(col)
      ensures buf' == buf + ElemsBytes(col, 0, Len(col))
    {
      buf' := buf;
      for k := 0 to Len(col)
        invariant buf' == buf + ElemsBytes(col, 0, k)
      {
        ElemsBytesNext(buf, buf', col, 0, k);
        buf' := buf' + EncodeElem(TypeOf(col), Values(col)[k]);
      }
    }

    /** `write_compressed_binary`. */
    method WriteCompressedBinary(h: PcdHeader, data: PointBlock, lzf: Lzf) returns (r: Result<()>)
      requires data.Valid() && SoaIndexable(h, data.columns, data.nameToIndex)
      requires Unwrappable(h, data.columns, data.nameToIndex)
      modifies this
      ensures var e := CompressedOut(h, data.columns, data.nameToIndex, lzf);
        written == old(written) + e.bytes && r == e.result
    {
      var soa := CollectSoa(h, data);
      if soa.result.Err? {
        return soa.result;
      }
      r := WriteFrame(soa.bytes, lzf);
    }

    /** The compression and the three writes of `write_compressed_binary`. */
    method WriteFrame(uncompressed: seq<byte>, lzf: Lzf) returns (r: Result<()>)
      modifies this
      ensures written == old(written) + Framed(uncompressed, lzf).bytes && r == Framed(uncompressed, lzf).result
    {
      var size := |uncompressed|;
      var finalSize, finalData;
      match lzf.compress(uncompressed) {
        case Compressed(bs) =>
          finalSize, finalData := |bs|, bs;
        case NoCompressionPossible =>
          finalSize, finalData := size, uncompressed;
        case CompressFailed(reason) =>
          return Err(Other("Compression failed: " + reason));
      }
      assert Framed(uncompressed, lzf) == Emitted(U32Le(finalSize) + U32Le(size) + finalData, Ok(()));
      ghost var w0 := written;
      Emit(U32Le(finalSize));
      Emit(U32Le(size));
      Emit(finalData);
      ThreeWrites(w0, U32Le(finalSize), U32Le(size), finalData);
      r := Ok(());
    }
  }

  // ----- writing the header -----

  /** Writing line k after the first k lines gives the first k + 1. */
  lemma {:induction false} LinesAdvance(w0: seq<byte>, w: seq<byte>, lines: seq<string>, k: nat)
    requires k < |lines| && w == w0 + LinesBytes(lines, k)
    ensures w + Utf8(lines[k] + "\n") == w0 + LinesBytes(lines, k + 1)
  {
    assert k + 1 - 1 == k;
  }

  // ----- properties of the binary body -----

  predicate AllFieldsTyped(h: PcdHeader, fc: seq<Column>)
    requires Indexable(h) && |fc| == |h.fields|
  {
    forall f :: 0 <= f < |h.fields| ==> FieldTyped(h, fc, f)
  }

  /** `write_binary` succeeds exactly when every header field has a column
      and, unless there are no points, every column holds the type its
      field names; otherwise it fails with the first missing column or
      the first field of point 0 whose arm fails. */
  lemma {:induction false} BinaryOutOk(h: PcdHeader, cols: seq<Column>, index: map<string, nat>)
    requires Indexable(h) && ColumnsLongEnough(h, cols, index) && AllTyped(cols)
    ensures var fc := Collected(h, cols, index);
      BinaryOut(h, cols, index).result.Ok? <==>
        fc.Ok? && (h.points == 0 || AllFieldsTyped(h, fc.value))
    ensures var fc := Collected(h, cols, index);
      fc.Ok? && h.points > 0 && Writes(h, fc.value) && BinaryOut(h, cols, index).result.Err? ==>
        exists f :: 0 <= f < |h.fields| && !FieldTyped(h, fc.value, f)
          && (forall g :: 0 <= g < f ==> FieldTyped(h, fc.value, g))
          && BinaryOut(h, cols, index).result == FieldOut(h, fc.value, 0, f).result
  {
    if Collected(h, cols, index).Ok? {
      var fc := Collected(h, cols, index).value;
      CollectedLongEnough(h, cols, index);
      var recs := PointOuts(h, fc);
      FoldOk(recs, h.points);
      forall i | 0 <= i < h.points
        ensures recs[i].result.Ok? <==> AllFieldsTyped(h, fc)
      {
        FieldOutsOk(h, fc, i);
      }
      if h.points > 0 && BinaryOut(h, cols, index).result.Err? {
        assert recs[0].result.Err?;
        var i :| 0 <= i < h.points && recs[i].result.Err? && Fold(recs, h.points).result == recs[i].result
          && (forall i' :: 0 <= i' < i ==> recs[i'].result.Ok?);
        assert i == 0;
        var es := FieldOuts(h, fc, 0);
        FoldOk(es, |h.fields|);
          var f :| 0 <= f < |h.fields| && es[f].result.Err? && Fold(es, |h.fields|).result == es[f].result
          && (forall f' :: 0 <= f' < f ==> es[f'].result.Ok?);
        assert forall g :: 0 <= g < f ==> FieldTyped(h, fc, g) by {
          forall g | 0 <= g < f
            ensures FieldTyped(h, fc, g)
          {
            assert es[g].result.Ok?;
          }
        }
      }
    }
  }

  /** The errors of a field's arm, in the binary and the ASCII writer: a
      (TYPE, SIZE) pair outside the resolver's table is UnsupportedType in
      the binary body and no tokens in the ASCII one; a column of another
      type is LayoutMismatch(0, 0) in both. */
  lemma {:induction false} FieldErrors(h: PcdHeader, fc: seq<Column>, ft: FloatText, i: nat, f: nat)
    requires Writes(h, fc) && i < h.points && f < |h.fields|
    ensures var t := TypeFromHeader(h.types[f], h.sizes[f]);
      (t.Err? ==> FieldOut(h, fc, i, f).result == Err(t.error) && t.error.UnsupportedType?
                  && FieldTokens(h, fc, ft, i, f) == Ok([]))
      && (t.Ok? && !FieldTyped(h, fc, f) ==>
            FieldOut(h, fc, i, f).result == Err(LayoutMismatch(0, 0))
            && FieldTokens(h, fc, ft, i, f) == Err(LayoutMismatch(0, 0)))
  {
  }

  /** One point's record is written without error exactly when every
      field is typed. */
  lemma {:induction false} FieldOutsOk(h: PcdHeader, fc: seq<Column>, i: nat)
    requires Writes(h, fc) && i < h.points
    ensures PointOut(h, fc, i).result.Ok? <==> AllFieldsTyped(h, fc)
  {
    var es := FieldOuts(h, fc, i);
    FoldOk(es, |h.fields|);
    assert forall f :: 0 <= f < |h.fields| ==> (es[f].result.Ok? <==> FieldTyped(h, fc, f));
  }

  /** Under a layout of the header, field g's arm writes its row, which
      is the field's `size` bytes. */
  lemma {:induction false} FieldWidth(h: PcdHeader, fc: seq<Column>, l: PcdLayout, i: nat, g: nat)
    requires Writes(h, fc) && i < h.points && LayoutOf(h, l) && AllFieldsTyped(h, fc) && g < |h.fields|
    ensures FieldOuts(h, fc, i)[g] == Emitted(RowBytes(h, fc, i, g), Ok(()))
    ensures |RowBytes(h, fc, i, g)| == l.fields[g].size
  {
    assert FieldMatches(h, g, l.fields[g]);
    assert FieldTyped(h, fc, g);
    SkipIsProduct(h.sizes[g], h.counts[g]);
  }

  /** The fields of a typed record start at the layout's running
      offsets. */
  lemma {:induction false} WidthIsOffset(h: PcdHeader, fc: seq<Column>, l: PcdLayout, i: nat, f: nat)
    requires Writes(h, fc) && i < h.points && LayoutOf(h, l) && AllFieldsTyped(h, fc) && f <= |h.fields|
    ensures Width(FieldOuts(h, fc, i), f) == SumSizes(l.fields[..f])
  {
    var es := FieldOuts(h, fc, i);
    forall g | 0 <= g < f
      ensures |es[g].bytes| == l.fields[g].size
    {
      FieldWidth(h, fc, l, i, g);
    }
    WidthOfSizes(es, l.fields, f);
  }

  /** Outputs as wide as the fields they stand for end where the fields'
      sizes sum to. */
  lemma {:induction false} WidthOfSizes(es: seq<Emitted>, fs: seq<FieldLayout>, f: nat)
    requires f <= |es| && f <= |fs|
    requires forall g :: 0 <= g < f ==> |es[g].bytes| == fs[g].size
    ensures Width(es, f) == SumSizes(fs[..f])
    decreases f
  {
    if f > 0 {
      WidthOfSizes(es, fs, f - 1);
      SumSizesStep(fs, f - 1);
    }
  }

  /** A typed record is `total_size` bytes long. */
  lemma {:induction false} PointOutRecord(h: PcdHeader, fc: seq<Column>, l: PcdLayout, i: nat)
    requires Writes(h, fc) && i < h.points && LayoutOf(h, l) && AllFieldsTyped(h, fc)
    ensures PointOut(h, fc, i).result.Ok? && |PointOut(h, fc, i).bytes| == l.totalSize
  {
    var es := FieldOuts(h, fc, i);
    var n := |h.fields|;
    forall g | 0 <= g < n
      ensures es[g].result.Ok?
    {
      FieldWidth(h, fc, l, i, g);
    }
    FoldLength(es, n);
    WidthIsOffset(h, fc, l, i, n);
    assert l.fields[..n] == l.fields;
  }

  /** Field f of a typed record sits at its offset in the layout. */
  lemma {:induction false} PointOutField(h: PcdHeader, fc: seq<Column>, l: PcdLayout, i: nat, f: nat)
    requires Writes(h, fc) && i < h.points && LayoutOf(h, l) && AllFieldsTyped(h, fc) && f < |h.fields|
    ensures l.fields[f].offset + l.fields[f].size <= |PointOut(h, fc, i).bytes|
    ensures PointOut(h, fc, i).bytes[l.fields[f].offset .. l.fields[f].offset + l.fields[f].size]
         == RowBytes(h, fc, i, f)
  {
    var es := FieldOuts(h, fc, i);
    var n := |h.fields|;
    forall g | 0 <= g < n
      ensures es[g].result.Ok?
    {
      FieldWidth(h, fc, l, i, g);
    }
    FoldAt(es, n, f);
    WidthIsOffset(h, fc, l, i, f);
    FieldWidth(h, fc, l, i, f);
  }

  /** Every point of a typed binary body is a whole record. */
  lemma {:induction false} RecordsWhole(h: PcdHeader, fc: seq<Column>, l: PcdLayout)
    requires Writes(h, fc) && LayoutOf(h, l) && AllFieldsTyped(h, fc)
    ensures forall j :: 0 <= j < h.points ==>
      PointOuts(h, fc)[j].result.Ok? && |PointOuts(h, fc)[j].bytes| == l.totalSize
  {
    forall j | 0 <= j < h.points
      ensures PointOuts(h, fc)[j].result.Ok? && |PointOuts(h, fc)[j].bytes| == l.totalSize
    {
      PointOutRecord(h, fc, l, j);
    }
  }

  /** The typed binary body is `points` records of `total_size` bytes. */
  lemma {:induction false} BinaryBodyLength(h: PcdHeader, fc: seq<Column>, l: PcdLayout)
    requires Writes(h, fc) && LayoutOf(h, l) && AllFieldsTyped(h, fc)
    ensures Fold(PointOuts(h, fc), h.points).result.Ok?
    ensures |Fold(PointOuts(h, fc), h.points).bytes| == Skip(l.totalSize, h.points)
  {
    RecordsWhole(h, fc, l);
    FoldLength(PointOuts(h, fc), h.points);
    WidthUniform(PointOuts(h, fc), l.totalSize, h.points);
  }

  /** In the typed binary body `recs` laid end to end, field f of point j
      sits at j record sizes plus the field's offset. */
  lemma {:induction false} BinaryBodyField(h: PcdHeader, fc: seq<Column>, l: PcdLayout, j: nat, f: nat, recs: seq<Emitted>)
    requires Writes(h, fc) && LayoutOf(h, l) && AllFieldsTyped(h, fc) && recs == PointOuts(h, fc)
    requires j < h.points && f < |h.fields|
    ensures BytesAt(Fold(recs, h.points).bytes, Skip(l.totalSize, j) + l.fields[f].offset, l.fields[f].size, RowBytes(h, fc, j, f))
  {
    RecordLaidOut(h, fc, l, j, f, recs);
    FoldSliceAt(recs, l.totalSize, h.points, j, l.fields[f].offset, l.fields[f].size, RowBytes(h, fc, j, f));
  }

  /** Every record of a typed binary body is whole, and field f of record j
      sits at its offset. */
  lemma {:induction false} RecordLaidOut(h: PcdHeader, fc: seq<Column>, l: PcdLayout, j: nat, f: nat, recs: seq<Emitted>)
    requires Writes(h, fc) && LayoutOf(h, l) && AllFieldsTyped(h, fc) && recs == PointOuts(h, fc)
    requires j < h.points && f < |h.fields|
    ensures |recs| == h.points
    ensures forall j' :: 0 <= j' < |recs| ==> recs[j'].result.Ok? && |recs[j'].bytes| == l.totalSize
    ensures SliceOfStep(recs, l.totalSize, h.points, j, l.fields[f].offset, l.fields[f].size, RowBytes(h, fc, j, f))
  {
    RecordsWhole(h, fc, l);
    PointOutField(h, fc, l, j, f);
    assert recs[j] == PointOut(h, fc, j);
  }

  /** The n bytes of s from a are z. */
  predicate BytesAt(s: seq<byte>, a: nat, n: nat, z: seq<byte>)
  {
    a + n <= |s| && s[a .. a + n] == z
  }

  /** Among the first k steps, all succeeding with w bytes, step j holds
      the bytes z at offset o. */
  predicate SliceOfStep(es: seq<Emitted>, w: nat, k: nat, j: nat, o: nat, sz: nat, z: seq<byte>)
  {
    j < k <= |es| && (forall j' :: 0 <= j' < |es| ==> es[j'].result.Ok? && |es[j'].bytes| == w)
    && o + sz <= |es[j].bytes| && es[j].bytes[o .. o + sz] == z
  }

  /** Bytes z at offset o of step j, when every step succeeds with w bytes,
      sit at j * w + o in the first k steps laid end to end. */
  lemma {:induction false} FoldSliceAt(es: seq<Emitted>, w: nat, k: nat, j: nat, o: nat, sz: nat, z: seq<byte>)
    requires SliceOfStep(es, w, k, j, o, sz, z)
    ensures BytesAt(Fold(es, k).bytes, Skip(w, j) + o, sz, z)
  {
    FoldUniformAt(es, w, k, j);
    NestedSlice(Fold(es, k).bytes, es[j].bytes, z, Skip(w, j), o, sz);
  }

  /** Bytes z at offset o of a part that sits at a in the whole sit at
      a + o in the whole. */
  lemma {:induction false} NestedSlice(whole: seq<byte>, part: seq<byte>, z: seq<byte>, a: nat, o: nat, k: nat)
    requires a + |part| <= |whole| && whole[a .. a + |part|] == part
    requires o + k <= |part| && part[o .. o + k] == z
    ensures a + o + k <= |whole| && whole[a + o .. a + o + k] == z
  {
    Records.SliceOfSlice(whole, a, a + |part|, o, o + k, a + o, a + o + k);
  }
}

/** The record layout derived from a header (src/layout/mod.rs): each
    field's element type, byte offset inside a record, byte size, and the
    record stride. */
module Layout {
  import opened Errors
  import opened Text
  import opened Header

  datatype FieldLayout = FieldLayout(
    name: string,
    offset: nat,
    size: nat,          // elementSize * count
    elementSize: nat,
    count: nat,
    vt: ValueType)

  datatype PcdLayout = PcdLayout(fields: seq<FieldLayout>, totalSize: nat)

  /** The type table: (I,1) (I,2) (I,4) (U,1) (U,2) (U,4) (F,4) (F,8). */
  function TypeFromHeader(c: char, size: nat): (r: Result<ValueType>)
    ensures r.Ok? <==>
      (c == 'I' && (size == 1 || size == 2 || size == 4))
      || (c == 'U' && (size == 1 || size == 2 || size == 4))
      || (c == 'F' && (size == 4 || size == 8))
    ensures r.Ok? ==> Size(r.value) == size
    ensures r.Ok? ==> (c == 'I' <==> r.value in {I8, I16, I32})
    ensures r.Ok? ==> (c == 'U' <==> r.value in {U8, U16, U32})
    ensures r.Err? ==> r.error == UnsupportedType(
      if c == 'I' || c == 'U' || c == 'F' then [c] + NatToDecimal(size) else [c])
  {
    if c == 'I' then
      if size == 1 then Ok(I8)
      else if size == 2 then Ok(I16)
      else if size == 4 then Ok(I32)
      else Err(UnsupportedType("I" + NatToDecimal(size)))
    else if c == 'U' then
      if size == 1 then Ok(U8)
      else if size == 2 then Ok(U16)
      else if size == 4 then Ok(U32)
      else Err(UnsupportedType("U" + NatToDecimal(size)))
    else if c == 'F' then
      if size == 4 then Ok(F32)
      else if size == 8 then Ok(F64)
      else Err(UnsupportedType("F" + NatToDecimal(size)))
    else Err(UnsupportedType([c]))
  }

  /** COUNT entry i, or 1 when the COUNT list is shorter. */
  function CountOf(h: PcdHeader, i: nat): nat
  {
    if i < |h.counts| then h.counts[i] else 1
  }

  /** Sum of the field sizes, added front to back. */
  function SumSizes(fs: seq<FieldLayout>): nat
  {
    if |fs| == 0 then 0 else SumSizes(fs[..|fs| - 1]) + fs[|fs| - 1].size
  }

  /** `from_header`'s loop from field i on, with the fields resolved so far
      and the running offset. */
  function ResolveFrom(h: PcdHeader, i: nat, offset: nat, acc: seq<FieldLayout>): Result<PcdLayout>
    decreases |h.fields| - i
  {
    if i >= |h.fields| then Ok(PcdLayout(acc, offset))
    else if i >= |h.types| then Err(LayoutMismatch(|h.fields|, i))
    else if i >= |h.sizes| then Err(LayoutMismatch(|h.fields|, i))
    else
      var count := CountOf(h, i);
      match TypeFromHeader(h.types[i], h.sizes[i])
      case Err(e) => Err(e)
      case Ok(vt) =>
        if Size(vt) != h.sizes[i] then Err(LayoutMismatch(Size(vt), h.sizes[i]))
        else
          var fieldSize := Size(vt) * count;
          ResolveFrom(h, i + 1, offset + fieldSize,
            acc + [FieldLayout(h.fields[i], offset, fieldSize, Size(vt), count, vt)])
  }

  function ResolveLayout(h: PcdHeader): Result<PcdLayout>
  {
    ResolveFrom(h, 0, 0, [])
  }

  /** Field i has a TYPE and a SIZE entry, and the pair is in the table. */
  predicate FieldResolvable(h: PcdHeader, i: nat)
  {
    i < |h.types| && i < |h.sizes| && TypeFromHeader(h.types[i], h.sizes[i]).Ok?
  }

  predicate ResolvableUpTo(h: PcdHeader, n: nat)
  {
    forall j :: 0 <= j < n ==> FieldResolvable(h, j)
  }

  /** The error `from_header` reports for the first unresolvable field i. */
  function ErrorAt(h: PcdHeader, i: nat): PcdError
    requires !FieldResolvable(h, i)
  {
    if i >= |h.types| || i >= |h.sizes| then LayoutMismatch(|h.fields|, i)
    else TypeFromHeader(h.types[i], h.sizes[i]).error
  }

  /** Entry fl describes header field j. */
  predicate FieldMatches(h: PcdHeader, j: nat, fl: FieldLayout)
  {
    FieldResolvable(h, j) && j < |h.fields|
    && fl.name == h.fields[j]
    && fl.vt == TypeFromHeader(h.types[j], h.sizes[j]).value
    && fl.elementSize == h.sizes[j] && fl.count == CountOf(h, j)
    && fl.size == fl.elementSize * fl.count
  }

  /** Offsets are the running sum of the sizes before them. */
  predicate RunningOffsets(fs: seq<FieldLayout>)
  {
    forall j :: 0 <= j < |fs| ==> fs[j].offset == SumSizes(fs[..j])
  }

  /** The layout of exactly the first n header fields. */
  predicate PrefixOf(h: PcdHeader, fs: seq<FieldLayout>, n: nat)
  {
    |fs| == n && (forall j :: 0 <= j < n ==> FieldMatches(h, j, fs[j])) && RunningOffsets(fs)
  }

  /** A layout the header determines: one entry per header field, in
      order, and the stride is the sum of the field sizes. */
  predicate LayoutOf(h: PcdHeader, l: PcdLayout)
  {
    PrefixOf(h, l.fields, |h.fields|) && l.totalSize == SumSizes(l.fields)
  }

  /** What every layout the resolver produces satisfies. */
  predicate WellFormed(l: PcdLayout)
  {
    RunningOffsets(l.fields) && l.totalSize == SumSizes(l.fields)
    && forall j :: 0 <= j < |l.fields| ==>
         l.fields[j].elementSize == Size(l.fields[j].vt)
         && l.fields[j].size == l.fields[j].elementSize * l.fields[j].count
  }

  lemma {:induction false} PrefixExtend(h: PcdHeader, acc: seq<FieldLayout>, i: nat, fl: FieldLayout)
    requires PrefixOf(h, acc, i) && FieldMatches(h, i, fl) && fl.offset == SumSizes(acc)
    ensures PrefixOf(h, acc + [fl], i + 1)
    ensures SumSizes(acc + [fl]) == SumSizes(acc) + fl.size
  {
    var acc' := acc + [fl];
    assert acc'[..i] == acc;
    forall j | 0 <= j < i
      ensures acc'[j] == acc[j] && acc'[..j] == acc[..j]
    {
    }
  }

  /** The field resolved at step i of the loop. */
  function ResolvedField(h: PcdHeader, i: nat, offset: nat): (fl: FieldLayout)
    requires FieldResolvable(h, i) && i < |h.fields|
    ensures FieldMatches(h, i, fl) && fl.offset == offset
  {
    var vt := TypeFromHeader(h.types[i], h.sizes[i]).value;
    FieldLayout(h.fields[i], offset, Size(vt) * CountOf(h, i), Size(vt), CountOf(h, i), vt)
  }

  lemma {:induction false} ResolveFromStep(h: PcdHeader, i: nat, offset: nat, acc: seq<FieldLayout>)
    requires i < |h.fields| && FieldResolvable(h, i)
    ensures var fl := ResolvedField(h, i, offset);
      ResolveFrom(h, i, offset, acc) == ResolveFrom(h, i + 1, offset + fl.size, acc + [fl])
  {
  }

  lemma {:induction false} ResolveFromStops(h: PcdHeader, i: nat, offset: nat, acc: seq<FieldLayout>)
    requires i < |h.fields| && !FieldResolvable(h, i)
    ensures ResolveFrom(h, i, offset, acc) == Err(ErrorAt(h, i))
  {
  }

  lemma {:induction false} ResolveFromOkIff(h: PcdHeader, i: nat, offset: nat, acc: seq<FieldLayout>)
    requires i <= |h.fields|
    ensures ResolveFrom(h, i, offset, acc).Ok? <==> forall j :: i <= j < |h.fields| ==> FieldResolvable(h, j)
    decreases |h.fields| - i
  {
    if i < |h.fields| {
      if FieldResolvable(h, i) {
        var fl := ResolvedField(h, i, offset);
        ResolveFromStep(h, i, offset, acc);
        ResolveFromOkIff(h, i + 1, offset + fl.size, acc + [fl]);
      } else {
        ResolveFromStops(h, i, offset, acc);
      }
    }
  }

  lemma {:induction false} ResolveFromOk(h: PcdHeader, i: nat, offset: nat, acc: seq<FieldLayout>)
    requires i <= |h.fields| && PrefixOf(h, acc, i) && offset == SumSizes(acc)
    ensures ResolveFrom(h, i, offset, acc).Ok? ==> LayoutOf(h, ResolveFrom(h, i, offset, acc).value)
    decreases |h.fields| - i
  {
    if i == |h.fields| {
      assert ResolveFrom(h, i, offset, acc) == Ok(PcdLayout(acc, offset));
    } else if FieldResolvable(h, i) {
      var fl := ResolvedField(h, i, offset);
      ResolveFromStep(h, i, offset, acc);
      PrefixExtend(h, acc, i, fl);
      ResolveFromOk(h, i + 1, offset + fl.size, acc + [fl]);
    } else {
      ResolveFromStops(h, i, offset, acc);
    }
  }

  lemma {:induction false} ResolveFromErr(h: PcdHeader, i: nat, offset: nat, acc: seq<FieldLayout>)
    requires i <= |h.fields| && ResolvableUpTo(h, i)
    ensures var r := ResolveFrom(h, i, offset, acc);
      r.Err? ==> (exists j :: i <= j < |h.fields| && ResolvableUpTo(h, j)
                    && !FieldResolvable(h, j) && r.error == ErrorAt(h, j))
    decreases |h.fields| - i
  {
    if i < |h.fields| {
      if FieldResolvable(h, i) {
        var fl := ResolvedField(h, i, offset);
        ResolveFromStep(h, i, offset, acc);
        ResolveFromErr(h, i + 1, offset + fl.size, acc + [fl]);
      } else {
        ResolveFromStops(h, i, offset, acc);
      }
    }
  }

  /** `from_header` succeeds exactly when every field resolves; the result
      describes the header field by field; otherwise the error is that of
      the first field that does not resolve. */
  lemma {:induction false} ResolveLayoutCorrect(h: PcdHeader)
    ensures ResolveLayout(h).Ok? <==> ResolvableUpTo(h, |h.fields|)
    ensures ResolveLayout(h).Ok? ==> LayoutOf(h, ResolveLayout(h).value)
    ensures ResolveLayout(h).Err? ==>
      exists j :: 0 <= j < |h.fields| && ResolvableUpTo(h, j)
        && !FieldResolvable(h, j) && ResolveLayout(h).error == ErrorAt(h, j)
  {
    ResolveFromOkIff(h, 0, 0, []);
    ResolveFromOk(h, 0, 0, []);
    ResolveFromErr(h, 0, 0, []);
  }

  lemma {:induction false} LayoutOfWellFormed(h: PcdHeader, l: PcdLayout)
    requires LayoutOf(h, l)
    ensures WellFormed(l)
  {
    forall j | 0 <= j < |l.fields|
      ensures l.fields[j].elementSize == Size(l.fields[j].vt)
    {
      assert FieldMatches(h, j, l.fields[j]);
    }
  }

  /** `PcdLayout::from_header`: the loop over header fields that pushes one
      entry per field and advances the running offset. */
  method FromHeader(h: PcdHeader) returns (r: Result<PcdLayout>)
    ensures r == ResolveLayout(h)
    ensures r.Ok? <==> ResolvableUpTo(h, |h.fields|)
    ensures r.Ok? ==> LayoutOf(h, r.value) && WellFormed(r.value)
    ensures r.Err? ==>
      exists j :: 0 <= j < |h.fields| && ResolvableUpTo(h, j)
        && !FieldResolvable(h, j) && r.error == ErrorAt(h, j)
  {
    ResolveLayoutCorrect(h);
    var fields: seq<FieldLayout> := [];
    var offset: nat := 0;
    var i: nat := 0;
    while i < |h.fields|
      invariant i <= |h.fields|
      invariant ResolveFrom(h, i, offset, fields) == ResolveLayout(h)
      decreases |h.fields| - i
    {
      if i >= |h.types| {
        return Err(LayoutMismatch(|h.fields|, i));
      }
      if i >= |h.sizes| {
        return Err(LayoutMismatch(|h.fields|, i));
      }
      var count := CountOf(h, i);
      var t := TypeFromHeader(h.types[i], h.sizes[i]);
      if t.Err? {
        return Err(t.error);
      }
      var vt := t.value;
      var elementSize := Size(vt);
      var declared: nat := h.sizes[i];
      if elementSize != declared {
        return Err(LayoutMismatch(elementSize, declared));
      }
      var fieldSize := elementSize * count;
      fields := fields + [FieldLayout(h.fields[i], offset, fieldSize, elementSize, count, vt)];
      offset := offset + fieldSize;
      i := i + 1;
    }
    r := Ok(PcdLayout(fields, offset));
    if r.Ok? {
      LayoutOfWellFormed(h, r.value);
    }
  }

  lemma {:induction false} SumSizesMonotone(fs: seq<FieldLayout>, a: nat, b: nat)
    requires a <= b <= |fs|
    ensures SumSizes(fs[..a]) <= SumSizes(fs[..b])
    decreases b
  {
    if a < b {
      assert fs[..b][..b - 1] == fs[..b - 1];
      SumSizesMonotone(fs, a, b - 1);
    }
  }

  lemma {:induction false} SumSizesStep(fs: seq<FieldLayout>, j: nat)
    requires j < |fs|
    ensures SumSizes(fs[..j + 1]) == SumSizes(fs[..j]) + fs[j].size
  {
    assert fs[..j + 1][..j] == fs[..j];
  }

  /** Field byte ranges lie in declaration order without overlapping. */
  lemma {:induction false} FieldsDisjoint(l: PcdLayout, i: nat, j: nat)
    requires WellFormed(l)
    requires i < j < |l.fields|
    ensures l.fields[i].offset + l.fields[i].size <= l.fields[j].offset
  {
    SumSizesStep(l.fields, i);
    SumSizesMonotone(l.fields, i + 1, j);
  }

  /** Every field byte range lies within the record. */
  lemma {:induction false} FieldWithinRecord(l: PcdLayout, i: nat)
    requires WellFormed(l)
    requires i < |l.fields|
    ensures l.fields[i].offset + l.fields[i].size <= l.totalSize
  {
    SumSizesStep(l.fields, i);
    SumSizesMonotone(l.fields, i + 1, |l.fields|);
    assert l.fields[..|l.fields|] == l.fields;
  }

  /** What the decoders rely on: each field's elements have its type's
      size, make up the field's byte size, and lie inside the record. */
  predicate FieldsFit(l: PcdLayout)
  {
    forall j :: 0 <= j < |l.fields| ==>
      l.fields[j].elementSize == Size(l.fields[j].vt)
      && l.fields[j].size == Skip(l.fields[j].elementSize, l.fields[j].count)
      && l.fields[j].offset + l.fields[j].size <= l.totalSize
  }

  /** The bytes taken by i items of width bytes each, laid end to end:
      where record i starts in a body, and where element k starts in a
      field. A sum rather than a product, so that proofs about positions
      stay linear. */
  function Skip(width: nat, i: nat): (a: nat)
    decreases i
  {
    if i == 0 then 0 else Skip(width, i - 1) + width
  }

  lemma {:induction false} SkipIsProduct(width: nat, i: nat)
    ensures Skip(width, i) == i * width
    decreases i
  {
    if i > 0 {
      SkipIsProduct(width, i - 1);
      assert i * width == (i - 1) * width + width;
    }
  }

  /** Skip grows with the number of items. */
  lemma {:induction false} SkipMono(width: nat, i: nat, j: nat)
    requires i <= j
    ensures Skip(width, i) <= Skip(width, j)
    decreases j
  {
    if i < j {
      SkipMono(width, i, j - 1);
    }
  }

  lemma {:induction false} WellFormedFieldsFit(l: PcdLayout)
    requires WellFormed(l)
    ensures FieldsFit(l)
  {
    forall j | 0 <= j < |l.fields|
      ensures l.fields[j].offset + l.fields[j].size <= l.totalSize
      ensures l.fields[j].size == Skip(l.fields[j].elementSize, l.fields[j].count)
    {
      FieldWithinRecord(l, j);
      SkipIsProduct(l.fields[j].elementSize, l.fields[j].count);
    }
  }

  /** The first field starts the record. */
  lemma {:induction false} FirstOffsetZero(l: PcdLayout)
    requires WellFormed(l) && |l.fields| > 0
    ensures l.fields[0].offset == 0
  {
    assert l.fields[..0] == [];
  }

  lemma {:induction false} SumSnoc(xs: seq<nat>, x: nat)
    ensures Sum(xs + [x]) == Sum(xs) + x
    decreases |xs|
  {
    if |xs| > 0 {
      assert (xs + [x])[1..] == xs[1..] + [x];
      SumSnoc(xs[1..], x);
    } else {
      assert xs + [x] == [x];
    }
  }

  lemma {:induction false} SumSizesIsSum(fs: seq<FieldLayout>, xs: seq<nat>, n: nat)
    requires n <= |fs| && n <= |xs|
    requires forall j :: 0 <= j < n ==> fs[j].size == xs[j]
    ensures SumSizes(fs[..n]) == Sum(xs[..n])
    decreases n
  {
    if n > 0 {
      assert fs[..n][..n - 1] == fs[..n - 1];
      SumSizesIsSum(fs, xs, n - 1);
      assert xs[..n] == xs[..n - 1] + [xs[n - 1]];
      SumSnoc(xs[..n - 1], xs[n - 1]);
    }
  }

  /** For a header whose lists have equal lengths, the record stride is
      `total_point_step`. */
  lemma {:induction false} TotalSizeIsTotalPointStep(h: PcdHeader, l: PcdLayout)
    requires LayoutOf(h, l)
    requires |h.sizes| == |h.fields| && |h.counts| == |h.fields|
    ensures l.totalSize == TotalPointStep(h)
  {
    var n := |h.fields|;
    var xs := SizeTimesCount(h.sizes, h.counts);
    forall j | 0 <= j < n
      ensures l.fields[j].size == xs[j]
    {
      assert FieldMatches(h, j, l.fields[j]);
    }
    SumSizesIsSum(l.fields, xs, n);
    assert l.fields[..n] == l.fields;
    assert xs[..n] == xs;
  }

  /** Index of the first field with the given name. */
  function FindField(fs: seq<FieldLayout>, name: string): (r: Option<nat>)
    ensures r.Some? ==> (r.value < |fs| && fs[r.value].name == name
      && forall j :: 0 <= j < r.value ==> fs[j].name != name)
    ensures r.None? <==> forall j :: 0 <= j < |fs| ==> fs[j].name != name
  {
    if |fs| == 0 then None
    else if fs[0].name == name then Some(0)
    else match FindField(fs[1..], name)
      case None => None
      case Some(j) => Some(j + 1)
  }

  /** `get_field`: the first field with that name, or None. */
  function GetField(l: PcdLayout, name: string): (r: Option<FieldLayout>)
    ensures r.Some? <==> exists j :: 0 <= j < |l.fields| && l.fields[j].name == name
    ensures r.Some? ==>
      exists j :: 0 <= j < |l.fields| && l.fields[j] == r.value
        && r.value.name == name && forall k :: 0 <= k < j ==> l.fields[k].name != name
  {
    match FindField(l.fields, name)
    case None => None
    case Some(j) => Some(l.fields[j])
  }
}

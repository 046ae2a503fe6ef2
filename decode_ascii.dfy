/** The ASCII decoder (src/decoder/ascii.rs). After the store is resized to
    n points and every layout field is checked to have a column, each point
    is one line of the stream: its whitespace-separated tokens are handed
    out in layout order, `count` per field, each parsed as the field's type
    and stored at element `i * count + k` of the field's column. Tokens
    past the last field are ignored; the first failure stops the decoder
    with the elements stored so far left in place. Lines are read as
    bytes, each byte one character. */
module AsciiDecoder {
  import opened Errors
  import opened Bytes
  import opened Header
  import opened Layout
  import opened Elements
  import opened Storage
  import opened Records
  import opened Text
  import opened External
  import opened Parser

  /** The store's columns and how far the decoder got. */
  datatype Outcome = Outcome(cols: seq<Column>, result: Result<()>)

  // ----- one token -----

  /** The type's name in the parse error. */
  function TypeLabel(vt: ValueType): string
  {
    match vt
    case U8 => "u8"
    case I8 => "i8"
    case U16 => "u16"
    case I16 => "i16"
    case U32 => "u32"
    case I32 => "i32"
    case F32 => "f32"
    case F64 => "f64"
  }

  /** The least and greatest value of an integer type. */
  function Least(vt: ValueType): int
  {
    if IsSigned(vt) then -(Modulus(vt) / 2) else 0
  }

  function Greatest(vt: ValueType): int
  {
    if IsSigned(vt) then Modulus(vt) / 2 - 1 else Modulus(vt) - 1
  }

  predicate IsInteger(vt: ValueType)
  {
    vt != F32 && vt != F64
  }

  /** `token.parse::<T>()` for the field's type: the integer grammar with
      the type's bounds, or the float parser, and InvalidDataFormat naming
      the type and the token when it fails. */
  function ParseToken(vt: ValueType, token: string, ft: FloatText): (r: Result<int>)
    ensures r.Ok? ==> InRange(vt, r.value)
    ensures r.Err? ==> r == Err(InvalidDataFormat("Invalid " + TypeLabel(vt) + ": " + token))
  {
    var v: Option<int> :=
      if vt == F32 then (match ft.parseF32(token) case Some(x) => Some(x as int) case None => None)
      else if vt == F64 then (match ft.parseF64(token) case Some(x) => Some(x as int) case None => None)
      else ParseInteger(token, IsSigned(vt), Least(vt), Greatest(vt));
    if v.Some? then Ok(v.value) else Err(InvalidDataFormat("Invalid " + TypeLabel(vt) + ": " + token))
  }

  /** The decimal text of an integer element parses back to it. */
  lemma {:induction false} ParseTokenOfDecimal(vt: ValueType, v: int, ft: FloatText)
    requires IsInteger(vt) && InRange(vt, v)
    ensures ParseToken(vt, IntToDecimal(v), ft) == Ok(v)
  {
    InRangeBounds(vt, v);
    ParseIntegerOfDecimal(v, IsSigned(vt), Least(vt), Greatest(vt));
  }

  // ----- the tokens of one line -----

  /** `token_idx` when field f's first element is read: the counts of the
      fields before it. */
  function TokenBase(l: PcdLayout, f: nat): nat
    requires f <= |l.fields|
  {
    if f == 0 then 0 else TokenBase(l, f - 1) + l.fields[f - 1].count
  }

  /** The type of each token a line must supply for fields 0 .. f-1, in
      order: count copies of each field's type. */
  function CellTypes(l: PcdLayout, f: nat): (ts: seq<ValueType>)
    requires f <= |l.fields|
    ensures |ts| == TokenBase(l, f)
  {
    if f == 0 then [] else CellTypes(l, f - 1) + seq(l.fields[f - 1].count, _ => l.fields[f - 1].vt)
  }

  /** Element idx of slot s set to v (the indexing `col[idx] = val`). */
  function Put(cols: seq<Column>, s: nat, idx: nat, v: int): (r: seq<Column>)
    ensures SameShape(r, cols)
  {
    if s < |cols| && idx < Len(cols[s]) then cols[s := cols[s].(elems := cols[s].elems[idx := v])] else cols
  }

  /** Element k of field f for point i, from token `TokenBase + k`, into
      slot s: too few tokens, a token that does not parse, or the value
      stored. */
  function NextElem(cols: seq<Column>, s: nat, l: PcdLayout, ft: FloatText, tokens: seq<string>,
                    i: nat, f: nat, k: nat): (r: Outcome)
    requires f < |l.fields| && k < l.fields[f].count
    ensures r.result.Err? ==> r.result.error.InvalidDataFormat?
  {
    var t := TokenBase(l, f) + k;
    if |tokens| <= t then
      Outcome(cols, Err(TooFewTokens(i, l.fields[f].name)))
    else
      match ParseToken(l.fields[f].vt, tokens[t], ft)
      case Err(e) => Outcome(cols, Err(e))
      case Ok(v) => Outcome(Put(cols, s, RowIndex(i, l.fields[f].count, k), v), Ok(()))
  }

  /** The error for a line with too few tokens for point i's field name. */
  function TooFewTokens(i: nat, name: string): (e: PcdError)
    ensures e.InvalidDataFormat?
  {
    InvalidDataFormat("Not enough tokens for point " + NatToDecimal(i) + ", field " + name)
  }

  /** `i * count + k`, the element of point i's k-th value. */
  function RowIndex(i: nat, count: nat, k: nat): (idx: nat)
    ensures k < count ==> idx < i * count + count
  {
    i * count + k
  }

  /** The first k elements of field f for point i, into slot s; the first
      failure stops the loop. */
  function ElemsRead(cols: seq<Column>, s: nat, l: PcdLayout, ft: FloatText, tokens: seq<string>,
                     i: nat, f: nat, k: nat): (r: Outcome)
    requires f < |l.fields| && k <= l.fields[f].count
    ensures r.result.Err? ==> r.result.error.InvalidDataFormat?
    decreases k
  {
    if k == 0 then Outcome(cols, Ok(()))
    else
      var prev := ElemsRead(cols, s, l, ft, tokens, i, f, k - 1);
      if prev.result.Err? then prev else NextElem(prev.cols, s, l, ft, tokens, i, f, k - 1)
  }

  /** Fields 0 .. f-1 of point i, field g into slot slots[g]. */
  function FieldsRead(cols: seq<Column>, slots: seq<nat>, l: PcdLayout, ft: FloatText, tokens: seq<string>,
                      i: nat, f: nat): (r: Outcome)
    requires f <= |l.fields| == |slots|
    ensures r.result.Err? ==> r.result.error.InvalidDataFormat?
    decreases f
  {
    if f == 0 then Outcome(cols, Ok(()))
    else
      var prev := FieldsRead(cols, slots, l, ft, tokens, i, f - 1);
      if prev.result.Err? then prev
      else
        ElemsReadShape(prev.cols, slots[f - 1], l, ft, tokens, i, f - 1, l.fields[f - 1].count);
        ElemsRead(prev.cols, slots[f - 1], l, ft, tokens, i, f - 1, l.fields[f - 1].count)
  }

  /** The element loop stores into existing elements only: every column
      keeps its type and length. */
  lemma {:induction false} ElemsReadShape(cols: seq<Column>, s: nat, l: PcdLayout, ft: FloatText, tokens: seq<string>,
                                          i: nat, f: nat, k: nat)
    requires f < |l.fields| && k <= l.fields[f].count
    ensures SameShape(ElemsRead(cols, s, l, ft, tokens, i, f, k).cols, cols)
    decreases k
  {
    if k > 0 {
      ElemsReadShape(cols, s, l, ft, tokens, i, f, k - 1);
    }
  }

  /** The field loop, like the element loop, keeps every column's type
      and length. */
  lemma {:induction false} FieldsReadShape(cols: seq<Column>, slots: seq<nat>, l: PcdLayout, ft: FloatText,
                                           tokens: seq<string>, i: nat, f: nat)
    requires f <= |l.fields| == |slots|
    ensures SameShape(FieldsRead(cols, slots, l, ft, tokens, i, f).cols, cols)
    decreases f
  {
    if f > 0 {
      FieldsReadShape(cols, slots, l, ft, tokens, i, f - 1);
      var prev := FieldsRead(cols, slots, l, ft, tokens, i, f - 1);
      if prev.result.Ok? {
        ElemsReadShape(prev.cols, slots[f - 1], l, ft, tokens, i, f - 1, l.fields[f - 1].count);
      }
    }
  }

  /** The tokens of each line of the stream from pos on, as `read_line`
      returns them (up to and including the newline) and
      `split_whitespace` cuts them. */
  function Lines(data: seq<byte>, pos: nat): seq<seq<string>>
    requires pos <= |data|
    decreases |data| - pos
  {
    if pos == |data| then []
    else
      var e := LineEnd(data, pos);
      [SplitWhitespace(Latin1(data[pos .. e]))] + Lines(data, e)
  }

  /** Points 0 .. i-1, point j from line j; a stream with no line left
      gives UnexpectedEof. */
  function PointsRead(cols: seq<Column>, slots: seq<nat>, l: PcdLayout, ft: FloatText, lines: seq<seq<string>>, i: nat)
    : (r: Outcome)
    requires |l.fields| == |slots|
    ensures SameShape(r.cols, cols)
    decreases i
  {
    if i == 0 then Outcome(cols, Ok(()))
    else
      var prev := PointsRead(cols, slots, l, ft, lines, i - 1);
      if prev.result.Err? then prev
      else if |lines| < i then Outcome(prev.cols, Err(Io(UnexpectedEof)))
      else
        FieldsReadShape(prev.cols, slots, l, ft, lines[i - 1], i - 1, |l.fields|);
        FieldsRead(prev.cols, slots, l, ft, lines[i - 1], i - 1, |l.fields|)
  }

  /** The slot of each layout field's column. */
  function Slots(l: PcdLayout, index: map<string, nat>): (slots: seq<nat>)
    requires AllPresent(l, index)
    ensures |slots| == |l.fields| && forall f :: 0 <= f < |l.fields| ==> slots[f] == index[l.fields[f].name]
  {
    seq(|l.fields|, f requires 0 <= f < |l.fields| => index[l.fields[f].name])
  }

  /** The decoder's whole effect on the columns, and its result: resized
      first, then a missing column gives LayoutMismatch(0, 0), a name the
      layout repeats makes `get_columns_mut` fail, and otherwise the n
      points are read. */
  function Decoded(cols: seq<Column>, index: map<string, nat>, l: PcdLayout, n: nat, data: seq<byte>, ft: FloatText)
    : (r: Outcome)
    ensures SameShape(r.cols, ResizedAll(cols, n))
    ensures r.result == Err(LayoutMismatch(0, 0)) <==> !AllPresent(l, index)
    ensures r.result == Err(Other("Failed to mutate columns")) <==> AllPresent(l, index) && !Distinct(FieldNames(l))
    ensures !AllPresent(l, index) || !Distinct(FieldNames(l)) ==> r.cols == ResizedAll(cols, n)
  {
    var resized := ResizedAll(cols, n);
    if !AllPresent(l, index) then Outcome(resized, Err(LayoutMismatch(0, 0)))
    else if !Distinct(FieldNames(l)) then Outcome(resized, Err(Other("Failed to mutate columns")))
    else
      PointsReadErrors(resized, Slots(l, index), l, ft, Lines(data, 0), n);
      PointsRead(resized, Slots(l, index), l, ft, Lines(data, 0), n)
  }

  /** The points loop fails only with UnexpectedEof or a token error. */
  lemma {:induction false} PointsReadErrors(cols: seq<Column>, slots: seq<nat>, l: PcdLayout, ft: FloatText,
                                            lines: seq<seq<string>>, i: nat)
    requires |l.fields| == |slots|
    ensures var r := PointsRead(cols, slots, l, ft, lines, i).result;
      r.Err? ==> r.error.InvalidDataFormat? || r.error == Io(UnexpectedEof)
    decreases i
  {
    if i > 0 {
      PointsReadErrors(cols, slots, l, ft, lines, i - 1);
    }
  }

  /** One unfolding of ElemsRead, from k elements to u = k + 1. */
  lemma {:induction false} ElemsReadStep(cols: seq<Column>, s: nat, l: PcdLayout, ft: FloatText, tokens: seq<string>,
                      i: nat, f: nat, k: nat, u: nat)
    requires f < |l.fields| && u == k + 1 <= l.fields[f].count
    ensures var prev := ElemsRead(cols, s, l, ft, tokens, i, f, k);
      prev.result.Err? ==> ElemsRead(cols, s, l, ft, tokens, i, f, u) == prev
    ensures var prev := ElemsRead(cols, s, l, ft, tokens, i, f, k);
      prev.result.Ok? ==> ElemsRead(cols, s, l, ft, tokens, i, f, u) == NextElem(prev.cols, s, l, ft, tokens, i, f, k)
  {
    assert u - 1 == k;
  }

  /** One unfolding of FieldsRead, from f fields to u = f + 1. */
  lemma {:induction false} FieldsReadStep(cols: seq<Column>, slots: seq<nat>, l: PcdLayout, ft: FloatText, tokens: seq<string>,
                       i: nat, f: nat, u: nat)
    requires u == f + 1 <= |l.fields| == |slots|
    ensures var prev := FieldsRead(cols, slots, l, ft, tokens, i, f);
      prev.result.Err? ==> FieldsRead(cols, slots, l, ft, tokens, i, u) == prev
    ensures var prev := FieldsRead(cols, slots, l, ft, tokens, i, f);
      prev.result.Ok? ==> FieldsRead(cols, slots, l, ft, tokens, i, u)
                          == ElemsRead(prev.cols, slots[f], l, ft, tokens, i, f, l.fields[f].count)
  {
    assert u - 1 == f;
  }

  /** The success of the element loop, one element at a time. */
  lemma {:induction false} ElemsReadOkStep(cols: seq<Column>, s: nat, l: PcdLayout, ft: FloatText, tokens: seq<string>,
                        i: nat, f: nat, k: nat, u: nat)
    requires f < |l.fields| && u == k + 1 <= l.fields[f].count
    ensures var prev := ElemsRead(cols, s, l, ft, tokens, i, f, k);
      ElemsRead(cols, s, l, ft, tokens, i, f, u).result.Ok?
      <==> prev.result.Ok? && NextElem(prev.cols, s, l, ft, tokens, i, f, k).result.Ok?
  {
    assert u - 1 == k;
  }

  /** The success of the field loop, one field at a time. */
  lemma {:induction false} FieldsReadOkStep(cols: seq<Column>, slots: seq<nat>, l: PcdLayout, ft: FloatText, tokens: seq<string>,
                         i: nat, f: nat, u: nat)
    requires u == f + 1 <= |l.fields| == |slots|
    ensures var prev := FieldsRead(cols, slots, l, ft, tokens, i, f);
      FieldsRead(cols, slots, l, ft, tokens, i, u).result.Ok?
      <==> prev.result.Ok? && ElemsRead(prev.cols, slots[f], l, ft, tokens, i, f, l.fields[f].count).result.Ok?
  {
    assert u - 1 == f;
  }

  // ----- the decoder -----

  /** Every field's slot lies in the store and holds `rows` elements of
      the field's type. */
  predicate SlotsTyped(cols: seq<Column>, slots: seq<nat>, l: PcdLayout, rows: nat)
  {
    |slots| == |l.fields|
    && forall f :: 0 <= f < |l.fields| ==>
         slots[f] < |cols| && Len(cols[slots[f]]) == rows && TypeOf(cols[slots[f]]) == l.fields[f].vt
  }

  /** SlotsTyped, and `i * count + k` stays below `rows` for each of the
      first m points: their m * count elements fit. */
  predicate SlotsFit(cols: seq<Column>, slots: seq<nat>, l: PcdLayout, rows: nat, m: nat)
  {
    SlotsTyped(cols, slots, l, rows)
    && forall f :: 0 <= f < |l.fields| ==> Skip(l.fields[f].count, m) <= rows
  }

  /** The points that find a line to read: n, or fewer when the stream
      runs out of lines first. Only these reach the stores. */
  function LinesRead(data: seq<byte>, n: nat): (m: nat)
    ensures m <= n && m <= |Lines(data, 0)|
    ensures m == n || m == |Lines(data, 0)|
  {
    if |Lines(data, 0)| < n then |Lines(data, 0)| else n
  }

  /** The `for k in 0..count` loop of field f for point i. */
  method ReadElems(l: PcdLayout, ft: FloatText, tokens: seq<string>, i: nat, f: nat, s: nat,
                   ti: nat, cols: seq<Column>)
    returns (r: Result<()>, ti': nat, cols': seq<Column>)
    requires f < |l.fields| && ti == TokenBase(l, f)
    requires s < |cols| && i * l.fields[f].count + l.fields[f].count <= Len(cols[s])
    ensures Outcome(cols', r) == ElemsRead(cols, s, l, ft, tokens, i, f, l.fields[f].count)
    ensures r.Ok? ==> ti' == ti + l.fields[f].count
  {
    cols' := cols;
    ti' := ti;
    for k := 0 to l.fields[f].count
      invariant ti' == ti + k
      invariant ElemsRead(cols, s, l, ft, tokens, i, f, k) == Outcome(cols', Ok(()))
    {
      ElemsReadStep(cols, s, l, ft, tokens, i, f, k, k + 1);
      ElemsReadShape(cols, s, l, ft, tokens, i, f, k);
      r, cols' := ReadElem(l, ft, tokens, i, f, s, k, ti', cols');
      ti' := ti' + 1;
      if r.Err? {
        ElemsReadStops(cols, s, l, ft, tokens, i, f, k + 1, l.fields[f].count);
        return;
      }
    }
    r := Ok(());
  }

  /** One pass of the element loop: token ti as element k. */
  method ReadElem(l: PcdLayout, ft: FloatText, tokens: seq<string>, i: nat, f: nat, s: nat,
                  k: nat, ti: nat, cur: seq<Column>)
    returns (r: Result<()>, next: seq<Column>)
    requires f < |l.fields| && k < l.fields[f].count && ti == TokenBase(l, f) + k
    requires s < |cur| && i * l.fields[f].count + l.fields[f].count <= Len(cur[s])
    ensures NextElem(cur, s, l, ft, tokens, i, f, k) == Outcome(next, r)
  {
    var fl := l.fields[f];
    if ti >= |tokens| {
      return Err(TooFewTokens(i, fl.name)), cur;
    }
    var token := tokens[ti];
    var idx := RowIndex(i, fl.count, k);
    match ParseToken(fl.vt, token, ft)
    case Err(e) =>
      return Err(e), cur;
    case Ok(v) =>
      assert idx < Len(cur[s]);
      return Ok(()), Put(cur, s, idx, v);
  }

  /** Once the element loop has failed, the later elements change nothing. */
  lemma {:induction false} ElemsReadStops(cols: seq<Column>, s: nat, l: PcdLayout, ft: FloatText, tokens: seq<string>,
                                          i: nat, f: nat, k: nat, m: nat)
    requires f < |l.fields| && k <= m <= l.fields[f].count
    requires ElemsRead(cols, s, l, ft, tokens, i, f, k).result.Err?
    ensures ElemsRead(cols, s, l, ft, tokens, i, f, m) == ElemsRead(cols, s, l, ft, tokens, i, f, k)
    decreases m
  {
    var os := seq(m + 1, j requires 0 <= j <= m => ElemsRead(cols, s, l, ft, tokens, i, f, j));
    forall j | k <= j < m
      ensures os[j].result.Err? ==> os[j + 1] == os[j]
    {
      ElemsReadStep(cols, s, l, ft, tokens, i, f, j, j + 1);
    }
    StaysFailed(os, k, m);
  }

  /** In a run of outcomes where each failure is kept by the next step, a
      failure at k is still the outcome at m. */
  lemma {:induction false} StaysFailed(os: seq<Outcome>, k: nat, m: nat)
    requires k <= m < |os| && os[k].result.Err?
    requires forall j :: k <= j < m ==> (os[j].result.Err? ==> os[j + 1] == os[j])
    ensures os[m] == os[k]
    decreases m
  {
    if k < m {
      StaysFailed(os, k, m - 1);
    }
  }

  /** The field loop for point i, `token_idx` running across the fields. */
  method ReadFields(l: PcdLayout, ft: FloatText, tokens: seq<string>, i: nat, slots: seq<nat>, rows: nat,
                    ghost m: nat, cols: seq<Column>)
    returns (r: Result<()>, cols': seq<Column>)
    requires SlotsFit(cols, slots, l, rows, m) && i < m
    ensures Outcome(cols', r) == FieldsRead(cols, slots, l, ft, tokens, i, |l.fields|)
  {
    cols' := cols;
    var ti: nat := 0;
    for f := 0 to |l.fields|
      invariant Reading(cols, slots, l, ft, tokens, i, f, ti, cols')
    {
      r, ti, cols' := ReadFieldStep(l, ft, tokens, i, slots, rows, m, cols, f, ti, cols');
      if r.Err? {
        return;
      }
    }
    r := Ok(());
  }

  /** The field loop after f fields read without error, the next token
      at ti. */
  predicate Reading(cols: seq<Column>, slots: seq<nat>, l: PcdLayout, ft: FloatText, tokens: seq<string>,
                    i: nat, f: nat, ti: nat, cur: seq<Column>)
  {
    f <= |l.fields| == |slots| && ti == TokenBase(l, f)
    && FieldsRead(cols, slots, l, ft, tokens, i, f) == Outcome(cur, Ok(()))
  }

  /** Field f of point i after the fields before it, all of which were
      read without error. */
  method ReadFieldStep(l: PcdLayout, ft: FloatText, tokens: seq<string>, i: nat, slots: seq<nat>, rows: nat,
                       ghost m: nat, cols: seq<Column>, f: nat, ti: nat, mid: seq<Column>)
    returns (r: Result<()>, ti': nat, out: seq<Column>)
    requires SlotsFit(cols, slots, l, rows, m) && i < m && f < |l.fields|
    requires Reading(cols, slots, l, ft, tokens, i, f, ti, mid)
    ensures r.Ok? ==> Reading(cols, slots, l, ft, tokens, i, f + 1, ti', out)
    ensures r.Err? ==> FieldsRead(cols, slots, l, ft, tokens, i, |l.fields|) == Outcome(out, r)
  {
    FieldsReadShape(cols, slots, l, ft, tokens, i, f);
    RowFits(cols, mid, slots, l, rows, m, i, f);
    r, ti', out := ReadElems(l, ft, tokens, i, f, slots[f], ti, mid);
    FieldsReadNext(cols, slots, l, ft, tokens, i, f, mid, r, out);
  }

  /** Element `i * count + k` of every field fits its column. */
  lemma {:induction false} RowFits(cols: seq<Column>, cols': seq<Column>, slots: seq<nat>, l: PcdLayout, rows: nat,
                                   m: nat, i: nat, f: nat)
    requires SlotsFit(cols, slots, l, rows, m) && SameShape(cols', cols) && i < m && f < |l.fields|
    ensures slots[f] < |cols'| && i * l.fields[f].count + l.fields[f].count <= Len(cols'[slots[f]])
  {
    var c := l.fields[f].count;
    SkipMono(c, i + 1, m);
    SkipIsProduct(c, i + 1);
    assert (i + 1) * c == i * c + c;
  }

  /** One more field of the field loop: from the outcome of the first f
      fields and that of field f's element loop, the outcome of the first
      f + 1, which on an error is already that of the whole loop. */
  lemma {:induction false} FieldsReadNext(cols: seq<Column>, slots: seq<nat>, l: PcdLayout, ft: FloatText, tokens: seq<string>,
                       i: nat, f: nat, mid: seq<Column>, r: Result<()>, out: seq<Column>)
    requires f < |l.fields| == |slots|
    requires FieldsRead(cols, slots, l, ft, tokens, i, f) == Outcome(mid, Ok(()))
    requires Outcome(out, r) == ElemsRead(mid, slots[f], l, ft, tokens, i, f, l.fields[f].count)
    ensures FieldsRead(cols, slots, l, ft, tokens, i, f + 1) == Outcome(out, r)
    ensures SameShape(out, cols)
    ensures r.Err? ==> FieldsRead(cols, slots, l, ft, tokens, i, |l.fields|) == Outcome(out, r)
  {
    FieldsReadStep(cols, slots, l, ft, tokens, i, f, f + 1);
    FieldsReadShape(cols, slots, l, ft, tokens, i, f + 1);
    if r.Err? {
      FieldsReadStops(cols, slots, l, ft, tokens, i, f + 1, |l.fields|);
    }
  }

  /** Once the field loop has failed, the later fields change nothing. */
  lemma {:induction false} FieldsReadStops(cols: seq<Column>, slots: seq<nat>, l: PcdLayout, ft: FloatText,
                                           tokens: seq<string>, i: nat, f: nat, g: nat)
    requires f <= g <= |l.fields| == |slots|
    requires FieldsRead(cols, slots, l, ft, tokens, i, f).result.Err?
    ensures FieldsRead(cols, slots, l, ft, tokens, i, g) == FieldsRead(cols, slots, l, ft, tokens, i, f)
    decreases g
  {
    if f < g {
      FieldsReadStops(cols, slots, l, ft, tokens, i, f, g - 1);
      FieldsReadStep(cols, slots, l, ft, tokens, i, g - 1, g);
    }
  }

  /** Lines i onwards are those of the stream from pos. */
  predicate LinesFrom(data: seq<byte>, pos: nat, lines: seq<seq<string>>, i: nat)
  {
    pos <= |data| && i <= |lines| && lines[i..] == Lines(data, pos)
  }

  /** Points 0 .. i-1 were read into cur without a failure. */
  ghost predicate PointsOk(cols: seq<Column>, slots: seq<nat>, l: PcdLayout, ft: FloatText, lines: seq<seq<string>>,
                           i: nat, cur: seq<Column>)
    requires |l.fields| == |slots|
  {
    PointsRead(cols, slots, l, ft, lines, i) == Outcome(cur, Ok(()))
  }

  /** The point loop: one `read_line` per point. */
  method ReadPoints(l: PcdLayout, ft: FloatText, data: seq<byte>, n: nat, slots: seq<nat>, cols: seq<Column>)
    returns (r: Result<()>, cols': seq<Column>)
    requires SlotsFit(cols, slots, l, n, LinesRead(data, n))
    ensures Outcome(cols', r) == PointsRead(cols, slots, l, ft, Lines(data, 0), n)
  {
    ghost var lines := Lines(data, 0);
    ghost var m := LinesRead(data, n);
    cols' := cols;
    var pos: nat := 0;
    for i := 0 to n
      invariant LinesFrom(data, pos, lines, i)
      invariant PointsOk(cols, slots, l, ft, lines, i, cols')
    {
      r, pos, cols' := ReadPoint(l, ft, data, pos, n, m, slots, cols, lines, i, cols');
      if r.Err? {
        return;
      }
    }
    r := Ok(());
  }

  /** One pass of the point loop: `read_line` at end of input is
      UnexpectedEof; otherwise the line from pos, split into tokens, is
      point i. */
  method ReadPoint(l: PcdLayout, ft: FloatText, data: seq<byte>, pos: nat, n: nat, ghost m: nat, slots: seq<nat>,
                   cols: seq<Column>, ghost lines: seq<seq<string>>, i: nat, cur: seq<Column>)
    returns (r: Result<()>, e: nat, next: seq<Column>)
    requires SlotsFit(cols, slots, l, n, m) && i < n && (m == n || m == |lines|)
    requires LinesFrom(data, pos, lines, i)
    requires PointsOk(cols, slots, l, ft, lines, i, cur)
    ensures r.Ok? ==> LinesFrom(data, e, lines, i + 1)
    ensures e <= |data|
    ensures r.Ok? ==> PointsOk(cols, slots, l, ft, lines, i + 1, next)
    ensures r.Err? ==> PointsRead(cols, slots, l, ft, lines, n) == Outcome(next, r)
  {
    if pos == |data| {
      assert |lines| == i;
      PointEof(cols, slots, l, ft, lines, i, n, cur);
      return Err(Io(UnexpectedEof)), pos, cur;
    }
    e := LineEnd(data, pos);
    var tokens := SplitWhitespace(Latin1(data[pos .. e]));
    LinesNext(data, pos, lines, i);
    SlotsFitShape(cols, cur, slots, l, n);
    r, next := ReadFields(l, ft, tokens, i, slots, n, m, cur);
    PointDone(cols, slots, l, ft, lines, i, n, cur, r, next);
  }

  /** Point i with the stream out of lines: UnexpectedEof, the loop's
      outcome. */
  lemma {:induction false} PointEof(cols: seq<Column>, slots: seq<nat>, l: PcdLayout, ft: FloatText, lines: seq<seq<string>>,
                 i: nat, n: nat, cur: seq<Column>)
    requires |l.fields| == |slots| && |lines| <= i < n
    requires PointsOk(cols, slots, l, ft, lines, i, cur)
    ensures PointsRead(cols, slots, l, ft, lines, n) == Outcome(cur, Err(Io(UnexpectedEof)))
  {
    PointsReadEof(cols, slots, l, ft, lines, i, i + 1);
    PointsReadStops(cols, slots, l, ft, lines, i + 1, n);
  }

  /** Point i read from line i: on success the points up to i + 1 are
      read, on a failure that is the loop's outcome. */
  lemma {:induction false} PointDone(cols: seq<Column>, slots: seq<nat>, l: PcdLayout, ft: FloatText, lines: seq<seq<string>>,
                  i: nat, n: nat, cur: seq<Column>, r: Result<()>, next: seq<Column>)
    requires |l.fields| == |slots| && i < |lines| && i < n
    requires PointsOk(cols, slots, l, ft, lines, i, cur)
    requires Outcome(next, r) == FieldsRead(cur, slots, l, ft, lines[i], i, |l.fields|)
    ensures r.Ok? ==> PointsOk(cols, slots, l, ft, lines, i + 1, next)
    ensures r.Err? ==> PointsRead(cols, slots, l, ft, lines, n) == Outcome(next, r)
  {
    PointsReadNext(cols, slots, l, ft, lines, i, i + 1);
    if r.Err? {
      PointsReadStops(cols, slots, l, ft, lines, i + 1, n);
    }
  }

  /** The next line of the stream from pos is line i. */
  lemma {:induction false} LinesNext(data: seq<byte>, pos: nat, lines: seq<seq<string>>, i: nat)
    requires pos < |data| && LinesFrom(data, pos, lines, i)
    ensures i < |lines| && lines[i] == SplitWhitespace(Latin1(data[pos .. LineEnd(data, pos)]))
    ensures LinesFrom(data, LineEnd(data, pos), lines, i + 1)
  {
    assert lines[i + 1..] == lines[i..][1..];
  }

  /** Point u = i + 1 with line i present and the points before read. */
  lemma {:induction false} PointsReadNext(cols: seq<Column>, slots: seq<nat>, l: PcdLayout, ft: FloatText, lines: seq<seq<string>>,
                       i: nat, u: nat)
    requires |l.fields| == |slots| && u == i + 1 && i < |lines|
    requires PointsRead(cols, slots, l, ft, lines, i).result.Ok?
    ensures PointsRead(cols, slots, l, ft, lines, u)
         == FieldsRead(PointsRead(cols, slots, l, ft, lines, i).cols, slots, l, ft, lines[i], i, |l.fields|)
  {
    assert u - 1 == i;
  }

  /** Point u = i + 1 with the stream out of lines. */
  lemma {:induction false} PointsReadEof(cols: seq<Column>, slots: seq<nat>, l: PcdLayout, ft: FloatText, lines: seq<seq<string>>,
                      i: nat, u: nat)
    requires |l.fields| == |slots| && u == i + 1 && |lines| <= i
    requires PointsRead(cols, slots, l, ft, lines, i).result.Ok?
    ensures PointsRead(cols, slots, l, ft, lines, u)
         == Outcome(PointsRead(cols, slots, l, ft, lines, i).cols, Err(Io(UnexpectedEof)))
  {
    assert u - 1 == i;
  }

  lemma {:induction false} SlotsFitShape(cols: seq<Column>, cols': seq<Column>, slots: seq<nat>, l: PcdLayout, rows: nat)
    requires SlotsTyped(cols, slots, l, rows) && SameShape(cols', cols)
    ensures SlotsTyped(cols', slots, l, rows)
  {
  }

  /** Once the point loop has failed, the later points change nothing. */
  lemma {:induction false} PointsReadStops(cols: seq<Column>, slots: seq<nat>, l: PcdLayout, ft: FloatText,
                                           lines: seq<seq<string>>, i: nat, j: nat)
    requires i <= j && |l.fields| == |slots|
    requires PointsRead(cols, slots, l, ft, lines, i).result.Err?
    ensures PointsRead(cols, slots, l, ft, lines, j) == PointsRead(cols, slots, l, ft, lines, i)
    decreases j
  {
    if i < j {
      PointsReadStops(cols, slots, l, ft, lines, i, j - 1);
    }
  }

  /** `AsciiReader::decode` on a stream holding `data`. Once the columns
      are borrowed, a parsed token is stored through the field type's
      accessor, unwrapped, at i*count+k, which panics for a column of
      another type or past the column's n elements. Once the columns are
      borrowed the decoder is asked for the types to agree and for the
      points that find a line (LinesRead) to fit n rows; points after the
      stream's last line stop with UnexpectedEof before any index. */
  method Decode(l: PcdLayout, n: nat, data: seq<byte>, ft: FloatText, output: PointBlock) returns (r: Result<()>)
    requires output.Valid() && IndexInto(output.nameToIndex, output.columns)
    requires AllPresent(l, output.nameToIndex) && Distinct(FieldNames(l)) ==>
      TypesAgree(l, output.columns, output.nameToIndex) && RecordsFit(l, output.nameToIndex, LinesRead(data, n), n)
    modifies output
    ensures output.Valid() && output.schema == old(output.schema) && output.nameToIndex == old(output.nameToIndex)
    ensures output.len == n
    ensures Outcome(output.columns, r) == Decoded(old(output.columns), old(output.nameToIndex), l, n, data, ft)
  {
    ghost var cols0 := output.columns;
    output.Resize(n);
    assert output.columns == ResizedAll(cols0, n);
    var names := FieldNames(l);
    for f := 0 to |l.fields|
      invariant forall g :: 0 <= g < f ==> l.fields[g].name in output.nameToIndex
    {
      if output.GetColumn(names[f]).None? {
        return Err(LayoutMismatch(0, 0));
      }
    }
    var slots := output.GetColumnsMut(names);
    if slots.None? {
      return Err(Other("Failed to mutate columns"));
    }
    assert slots.value == Slots(l, output.nameToIndex);
    ResizedSlotsFit(cols0, output.nameToIndex, l, n, LinesRead(data, n));
    PointsReadTyped(output.columns, slots.value, l, ft, Lines(data, 0), n);
    DecodedReads(cols0, output.nameToIndex, l, n, data, ft);
    var cols;
    r, cols := ReadPoints(l, ft, data, n, slots.value, output.columns);
    output.columns := cols;
  }

  /** With every name present and none repeated, the decoder's effect is
      the point loop's over the resized columns. */
  lemma {:induction false} DecodedReads(cols: seq<Column>, index: map<string, nat>, l: PcdLayout, n: nat, data: seq<byte>, ft: FloatText)
    requires AllPresent(l, index) && Distinct(FieldNames(l))
    ensures Decoded(cols, index, l, n, data, ft)
         == PointsRead(ResizedAll(cols, n), Slots(l, index), l, ft, Lines(data, 0), n)
  {
  }

  /** After resizing, the slots of a layout whose names all have columns
      of the right types fit the first m points. */
  lemma {:induction false} ResizedSlotsFit(cols: seq<Column>, index: map<string, nat>, l: PcdLayout, n: nat, m: nat)
    requires IndexInto(index, cols) && TypesAgree(l, cols, index) && AllPresent(l, index) && RecordsFit(l, index, m, n)
    ensures SlotsFit(ResizedAll(cols, n), Slots(l, index), l, n, m)
  {
    var slots := Slots(l, index);
    forall f | 0 <= f < |l.fields|
      ensures slots[f] < |cols| && TypeOf(ResizedAll(cols, n)[slots[f]]) == l.fields[f].vt
    {
      assert l.fields[f].name in index;
    }
  }

  // ----- typing -----

  /** A stored token keeps the column well typed: the parser yields values
      of the field's type only. */
  lemma {:induction false} ElemsReadTyped(cols: seq<Column>, s: nat, l: PcdLayout, ft: FloatText, tokens: seq<string>,
                                          i: nat, f: nat, k: nat)
    requires f < |l.fields| && k <= l.fields[f].count && AllTyped(cols)
    requires s < |cols| ==> TypeOf(cols[s]) == l.fields[f].vt
    ensures AllTyped(ElemsRead(cols, s, l, ft, tokens, i, f, k).cols)
    decreases k
  {
    if k > 0 {
      var j := k - 1;
      ElemsReadTyped(cols, s, l, ft, tokens, i, f, j);
      ElemsTypedNext(cols, s, l, ft, tokens, i, f, j, k);
    }
  }

  /** One element more of the element loop keeps the columns well typed. */
  lemma {:induction false} ElemsTypedNext(cols: seq<Column>, s: nat, l: PcdLayout, ft: FloatText, tokens: seq<string>,
                       i: nat, f: nat, j: nat, k: nat)
    requires f < |l.fields| && k == j + 1 <= l.fields[f].count
    requires s < |cols| ==> TypeOf(cols[s]) == l.fields[f].vt
    requires AllTyped(ElemsRead(cols, s, l, ft, tokens, i, f, j).cols)
    ensures AllTyped(ElemsRead(cols, s, l, ft, tokens, i, f, k).cols)
  {
    var prev := ElemsRead(cols, s, l, ft, tokens, i, f, j);
    ElemsReadStep(cols, s, l, ft, tokens, i, f, j, k);
    if prev.result.Ok? {
      ElemsReadShape(cols, s, l, ft, tokens, i, f, j);
      assert s < |prev.cols| ==> TypeOf(prev.cols[s]) == TypeOf(cols[s]);
      NextElemTyped(prev.cols, s, l, ft, tokens, i, f, j);
    }
  }

  /** One stored token keeps the columns well typed. */
  lemma {:induction false} NextElemTyped(cols: seq<Column>, s: nat, l: PcdLayout, ft: FloatText, tokens: seq<string>,
                      i: nat, f: nat, k: nat)
    requires f < |l.fields| && k < l.fields[f].count && AllTyped(cols)
    requires s < |cols| ==> TypeOf(cols[s]) == l.fields[f].vt
    ensures AllTyped(NextElem(cols, s, l, ft, tokens, i, f, k).cols)
  {
    var t := TokenBase(l, f) + k;
    if t < |tokens| {
      var p := ParseToken(l.fields[f].vt, tokens[t], ft);
      if p.Ok? {
        PutTyped(cols, s, RowIndex(i, l.fields[f].count, k), p.value);
      }
    }
  }

  /** Storing a value of the slot's type keeps the columns well typed. */
  lemma {:induction false} PutTyped(cols: seq<Column>, s: nat, idx: nat, v: int)
    requires AllTyped(cols) && (s < |cols| ==> InRange(TypeOf(cols[s]), v))
    ensures AllTyped(Put(cols, s, idx, v))
  {
    if s < |cols| && idx < Len(cols[s]) {
      var r := Put(cols, s, idx, v);
      forall q | 0 <= q < |r|
        ensures WellTyped(r[q])
      {
        if q == s {
          assert WellTyped(cols[s]);
        } else {
          assert r[q] == cols[q];
        }
      }
    }
  }

  lemma {:induction false} FieldsReadTyped(cols: seq<Column>, slots: seq<nat>, l: PcdLayout, ft: FloatText,
                                           tokens: seq<string>, i: nat, f: nat, rows: nat)
    requires f <= |l.fields| && SlotsTyped(cols, slots, l, rows) && AllTyped(cols)
    ensures AllTyped(FieldsRead(cols, slots, l, ft, tokens, i, f).cols)
    decreases f
  {
    if f > 0 {
      FieldsReadTyped(cols, slots, l, ft, tokens, i, f - 1, rows);
      FieldsTypedNext(cols, slots, l, ft, tokens, i, f - 1, f, rows);
    }
  }

  /** One field more of the field loop keeps the columns well typed. */
  lemma {:induction false} FieldsTypedNext(cols: seq<Column>, slots: seq<nat>, l: PcdLayout, ft: FloatText,
                        tokens: seq<string>, i: nat, g: nat, f: nat, rows: nat)
    requires f == g + 1 <= |l.fields| && SlotsTyped(cols, slots, l, rows)
    requires AllTyped(FieldsRead(cols, slots, l, ft, tokens, i, g).cols)
    ensures AllTyped(FieldsRead(cols, slots, l, ft, tokens, i, f).cols)
  {
    var prev := FieldsRead(cols, slots, l, ft, tokens, i, g);
    FieldsReadStep(cols, slots, l, ft, tokens, i, g, f);
    if prev.result.Ok? {
      FieldsReadShape(cols, slots, l, ft, tokens, i, g);
      ElemsReadTyped(prev.cols, slots[g], l, ft, tokens, i, g, l.fields[g].count);
    }
  }

  lemma {:induction false} PointsReadTyped(cols: seq<Column>, slots: seq<nat>, l: PcdLayout, ft: FloatText,
                                           lines: seq<seq<string>>, i: nat)
    requires SlotsTyped(cols, slots, l, i) && AllTyped(cols)
    ensures AllTyped(PointsRead(cols, slots, l, ft, lines, i).cols)
  {
    PointsReadTypedFrom(cols, slots, l, ft, lines, i, i);
  }

  lemma {:induction false} PointsReadTypedFrom(cols: seq<Column>, slots: seq<nat>, l: PcdLayout, ft: FloatText,
                            lines: seq<seq<string>>, i: nat, rows: nat)
    requires SlotsTyped(cols, slots, l, rows) && AllTyped(cols)
    ensures AllTyped(PointsRead(cols, slots, l, ft, lines, i).cols)
  {
    var os := seq(i + 1, j requires 0 <= j <= i => PointsRead(cols, slots, l, ft, lines, j));
    forall j | 0 <= j < i
      ensures TypedOn(os, j)
    {
      PointReadTyped(cols, slots, l, ft, lines, j, rows);
    }
    StaysTyped(os, i);
  }

  /** Point j + 1 keeps the columns point j left well typed. */
  lemma {:induction false} PointReadTyped(cols: seq<Column>, slots: seq<nat>, l: PcdLayout, ft: FloatText,
                       lines: seq<seq<string>>, j: nat, rows: nat)
    requires SlotsTyped(cols, slots, l, rows)
    ensures AllTyped(PointsRead(cols, slots, l, ft, lines, j).cols) ==>
            AllTyped(PointsRead(cols, slots, l, ft, lines, j + 1).cols)
  {
    var prev := PointsRead(cols, slots, l, ft, lines, j);
    if prev.result.Ok? && AllTyped(prev.cols) {
      if j < |lines| {
        PointsReadNext(cols, slots, l, ft, lines, j, j + 1);
        SlotsFitShape(cols, prev.cols, slots, l, rows);
        FieldsReadTyped(prev.cols, slots, l, ft, lines[j], j, |l.fields|, rows);
      } else {
        PointsReadEof(cols, slots, l, ft, lines, j, j + 1);
      }
    } else if prev.result.Err? {
      assert PointsRead(cols, slots, l, ft, lines, j + 1) == prev;
    }
  }

  /** Step j of a run of outcomes keeps the columns well typed. */
  ghost predicate TypedOn(os: seq<Outcome>, j: nat)
    requires j + 1 < |os|
  {
    AllTyped(os[j].cols) ==> AllTyped(os[j + 1].cols)
  }

  /** Typed columns at the start of a run whose every step keeps them
      typed are typed at step i. */
  lemma {:induction false} StaysTyped(os: seq<Outcome>, i: nat)
    requires i < |os| && AllTyped(os[0].cols)
    requires forall j :: 0 <= j < i ==> TypedOn(os, j)
    ensures AllTyped(os[i].cols)
  {
    if i > 0 {
      StaysTyped(os, i - 1);
      assert TypedOn(os, i - 1);
    }
  }

  // ----- properties -----

  /** One element succeeds exactly when its token is there and parses. */
  lemma {:induction false} NextElemOk(cols: seq<Column>, s: nat, l: PcdLayout, ft: FloatText, tokens: seq<string>,
                   i: nat, f: nat, k: nat)
    requires f < |l.fields| && k < l.fields[f].count
    ensures var t := TokenBase(l, f) + k;
      NextElem(cols, s, l, ft, tokens, i, f, k).result.Ok?
      <==> t < |tokens| && ParseToken(l.fields[f].vt, tokens[t], ft).Ok?
  {
  }

  /** Tokens a .. b-1 of a line are there and each parses as vt. */
  predicate TokensParse(vt: ValueType, tokens: seq<string>, a: nat, b: nat, ft: FloatText)
    decreases b
  {
    b <= a || (TokensParse(vt, tokens, a, b - 1, ft) && b - 1 < |tokens| && ParseToken(vt, tokens[b - 1], ft).Ok?)
  }

  /** TokensParse as a statement about each token. */
  lemma {:induction false} TokensParseEach(vt: ValueType, tokens: seq<string>, a: nat, b: nat, ft: FloatText)
    ensures TokensParse(vt, tokens, a, b, ft)
        <==> (b <= a || b <= |tokens|) && forall t :: a <= t < b ==> ParseToken(vt, tokens[t], ft).Ok?
    decreases b
  {
    if a < b {
      var c := b - 1;
      TokensParseEach(vt, tokens, a, c, ft);
      assert TokensParse(vt, tokens, a, b, ft)
        == (TokensParse(vt, tokens, a, c, ft) && c < |tokens| && ParseToken(vt, tokens[c], ft).Ok?);
      if c < |tokens| && (forall t :: a <= t < c ==> ParseToken(vt, tokens[t], ft).Ok?)
                      && ParseToken(vt, tokens[c], ft).Ok? {
        assert forall t :: a <= t < b ==> ParseToken(vt, tokens[t], ft).Ok?;
      }
    }
  }

  /** Element loop: it succeeds exactly when the line has the k tokens the
      field needs from TokenBase on and each parses as the field's type. */
  lemma {:induction false} ElemsReadOk(cols: seq<Column>, s: nat, l: PcdLayout, ft: FloatText, tokens: seq<string>,
                                       i: nat, f: nat, k: nat)
    requires f < |l.fields| && k <= l.fields[f].count
    ensures ElemsRead(cols, s, l, ft, tokens, i, f, k).result.Ok?
        <==> TokensParse(l.fields[f].vt, tokens, TokenBase(l, f), TokenBase(l, f) + k, ft)
    decreases k
  {
    if k > 0 {
      ElemsReadOk(cols, s, l, ft, tokens, i, f, k - 1);
      ElemsReadOkStep(cols, s, l, ft, tokens, i, f, k - 1, k);
      var prev := ElemsRead(cols, s, l, ft, tokens, i, f, k - 1);
      NextElemOk(prev.cols, s, l, ft, tokens, i, f, k - 1);
    }
  }

  /** The first TokenBase(l, f) tokens of a line are there and each parses
      as the type of the field it falls to. */
  predicate CellsParse(l: PcdLayout, tokens: seq<string>, f: nat, ft: FloatText)
    requires f <= |l.fields|
    decreases f
  {
    f == 0
    || (CellsParse(l, tokens, f - 1, ft)
        && TokensParse(l.fields[f - 1].vt, tokens, TokenBase(l, f - 1), TokenBase(l, f - 1) + l.fields[f - 1].count, ft))
  }

  /** CellsParse as a statement about each token: there are at least
      TokenBase(l, f) of them and token t parses as CellTypes(l, f)[t]. */
  lemma {:induction false} CellsParseEach(l: PcdLayout, tokens: seq<string>, f: nat, ft: FloatText)
    requires f <= |l.fields|
    ensures CellsParse(l, tokens, f, ft)
        <==> TokenBase(l, f) <= |tokens|
             && forall t :: 0 <= t < TokenBase(l, f) ==> ParseToken(CellTypes(l, f)[t], tokens[t], ft).Ok?
    decreases f
  {
    if f > 0 {
      var g := f - 1;
      var vt, b, e := l.fields[g].vt, TokenBase(l, g), TokenBase(l, f);
      CellsParseEach(l, tokens, g, ft);
      CellTypesAt(l, f);
      TokensParseEach(vt, tokens, b, e, ft);
      TokenBaseMono(l, g, f);
      if e <= |tokens| && forall t :: 0 <= t < e ==> ParseToken(CellTypes(l, f)[t], tokens[t], ft).Ok? {
        forall t | 0 <= t < b
          ensures ParseToken(CellTypes(l, g)[t], tokens[t], ft).Ok?
        {
          assert CellTypes(l, f)[t] == CellTypes(l, g)[t];
        }
        forall t | b <= t < e
          ensures ParseToken(vt, tokens[t], ft).Ok?
        {
          assert CellTypes(l, f)[t] == vt;
        }
      }
      if CellsParse(l, tokens, f, ft) {
        forall t | 0 <= t < e
          ensures ParseToken(CellTypes(l, f)[t], tokens[t], ft).Ok?
        {
          if t < b {
            assert CellTypes(l, f)[t] == CellTypes(l, g)[t];
          } else {
            assert CellTypes(l, f)[t] == vt;
          }
        }
      }
    }
  }

  /** One field more: the field loop over f + 1 fields succeeds exactly
      when it does over f and field f's tokens parse. */
  lemma {:induction false} FieldsReadOkNext(cols: seq<Column>, slots: seq<nat>, l: PcdLayout, ft: FloatText,
                         tokens: seq<string>, i: nat, g: nat, f: nat)
    requires f == g + 1 <= |l.fields| == |slots|
    ensures FieldsRead(cols, slots, l, ft, tokens, i, f).result.Ok?
      <==> FieldsRead(cols, slots, l, ft, tokens, i, g).result.Ok?
           && TokensParse(l.fields[g].vt, tokens, TokenBase(l, g), TokenBase(l, g) + l.fields[g].count, ft)
  {
    var prev := FieldsRead(cols, slots, l, ft, tokens, i, g);
    var c := l.fields[g].count;
    FieldsReadOkStep(cols, slots, l, ft, tokens, i, g, f);
    ElemsReadOk(prev.cols, slots[g], l, ft, tokens, i, g, c);
    var elemsOk := ElemsRead(prev.cols, slots[g], l, ft, tokens, i, g, c).result.Ok?;
    assert elemsOk <==> TokensParse(l.fields[g].vt, tokens, TokenBase(l, g), TokenBase(l, g) + c, ft);
    assert FieldsRead(cols, slots, l, ft, tokens, i, f).result.Ok? <==> prev.result.Ok? && elemsOk;
  }

  /** The cells of f + 1 fields parse exactly when those of f do and field
      f's tokens parse. */
  lemma {:induction false} CellsParseNext(l: PcdLayout, tokens: seq<string>, ft: FloatText, g: nat, f: nat)
    requires f == g + 1 <= |l.fields|
    ensures CellsParse(l, tokens, f, ft)
      <==> CellsParse(l, tokens, g, ft)
           && TokensParse(l.fields[g].vt, tokens, TokenBase(l, g), TokenBase(l, g) + l.fields[g].count, ft)
  {
    assert f - 1 == g;
  }

  /** A line of point data is accepted exactly when it has at least as
      many tokens as the layout's counts add up to and each of those
      tokens parses as the type of the field it falls to; tokens beyond
      are not looked at. */
  lemma {:induction false} FieldsReadOk(cols: seq<Column>, slots: seq<nat>, l: PcdLayout, ft: FloatText,
                                        tokens: seq<string>, i: nat, f: nat)
    requires f <= |l.fields| == |slots|
    ensures FieldsRead(cols, slots, l, ft, tokens, i, f).result.Ok? <==> CellsParse(l, tokens, f, ft)
    decreases f
  {
    if f > 0 {
      var g := f - 1;
      FieldsReadOk(cols, slots, l, ft, tokens, i, g);
      FieldsReadOkNext(cols, slots, l, ft, tokens, i, g, f);
      CellsParseNext(l, tokens, ft, g, f);
    }
  }

  /** The last field's cells come after the earlier ones' in CellTypes. */
  lemma {:induction false} CellTypesAt(l: PcdLayout, f: nat)
    requires 0 < f <= |l.fields|
    ensures var g := f - 1;
      TokenBase(l, f) == TokenBase(l, g) + l.fields[g].count
      && (forall t :: 0 <= t < TokenBase(l, g) ==> CellTypes(l, f)[t] == CellTypes(l, g)[t])
      && (forall t :: TokenBase(l, g) <= t < TokenBase(l, f) ==> CellTypes(l, f)[t] == l.fields[g].vt)
  {
  }

  /** Only the first TokenBase tokens of a line matter: cutting the line
      after them changes neither the result nor the store. */
  lemma {:induction false} ElemsReadPrefix(cols: seq<Column>, s: nat, l: PcdLayout, ft: FloatText, tokens: seq<string>,
                                           i: nat, f: nat, k: nat, m: nat)
    requires f < |l.fields| && k <= l.fields[f].count && TokenBase(l, f) + k <= m <= |tokens|
    ensures ElemsRead(cols, s, l, ft, tokens[..m], i, f, k) == ElemsRead(cols, s, l, ft, tokens, i, f, k)
    decreases k
  {
    if k > 0 {
      ElemsReadPrefix(cols, s, l, ft, tokens, i, f, k - 1, m);
      ElemsReadStep(cols, s, l, ft, tokens, i, f, k - 1, k);
      ElemsReadStep(cols, s, l, ft, tokens[..m], i, f, k - 1, k);
      assert tokens[..m][TokenBase(l, f) + k - 1] == tokens[TokenBase(l, f) + k - 1];
    }
  }

  lemma {:induction false} TokenBaseMono(l: PcdLayout, f: nat, g: nat)
    requires f <= g <= |l.fields|
    ensures TokenBase(l, f) <= TokenBase(l, g)
    decreases g
  {
    if f < g {
      TokenBaseMono(l, f, g - 1);
    }
  }

  /** Extra tokens at the end of a line are ignored. */
  lemma {:induction false} FieldsReadPrefix(cols: seq<Column>, slots: seq<nat>, l: PcdLayout, ft: FloatText,
                                            tokens: seq<string>, i: nat, f: nat, m: nat)
    requires f <= |l.fields| == |slots| && TokenBase(l, f) <= m <= |tokens|
    ensures FieldsRead(cols, slots, l, ft, tokens[..m], i, f) == FieldsRead(cols, slots, l, ft, tokens, i, f)
    decreases f
  {
    if f > 0 {
      var g := f - 1;
      TokenBaseMono(l, g, f);
      FieldsReadPrefix(cols, slots, l, ft, tokens, i, g, m);
      FieldsReadStep(cols, slots, l, ft, tokens, i, g, f);
      FieldsReadStep(cols, slots, l, ft, tokens[..m], i, g, f);
      var prev := FieldsRead(cols, slots, l, ft, tokens, i, g);
      ElemsReadPrefix(prev.cols, slots[g], l, ft, tokens, i, g, l.fields[g].count, m);
    }
  }

  // ----- where the values go -----

  /** The value the decoder stores for token t of a line read as type vt
      (0, never stored, when the token is missing or does not parse). */
  function TokenValue(vt: ValueType, tokens: seq<string>, t: nat, ft: FloatText): (v: int)
    ensures t < |tokens| && ParseToken(vt, tokens[t], ft).Ok? ==> v == ParseToken(vt, tokens[t], ft).value
  {
    if t < |tokens| && ParseToken(vt, tokens[t], ft).Ok? then ParseToken(vt, tokens[t], ft).value else 0
  }

  /** No two fields share a slot. */
  predicate SlotsDistinct(slots: seq<nat>)
  {
    forall g, h :: 0 <= g < h < |slots| ==> slots[g] != slots[h]
  }

  /** A stored element changes element i*count+k of slot s and nothing else. */
  lemma {:induction false} NextElemAt(cols: seq<Column>, s: nat, l: PcdLayout, ft: FloatText, tokens: seq<string>,
                                      i: nat, f: nat, k: nat, q: nat, e: nat)
    requires f < |l.fields| && k < l.fields[f].count
    requires NextElem(cols, s, l, ft, tokens, i, f, k).result.Ok?
    requires q < |cols| && e < Len(cols[q])
    ensures Values(NextElem(cols, s, l, ft, tokens, i, f, k).cols[q])[e]
         == if q == s && e == RowIndex(i, l.fields[f].count, k)
            then TokenValue(l.fields[f].vt, tokens, TokenBase(l, f) + k, ft) else Values(cols[q])[e]
  {
  }

  /** The element loop changes no slot but s. */
  lemma {:induction false} ElemsReadOther(cols: seq<Column>, s: nat, l: PcdLayout, ft: FloatText, tokens: seq<string>,
                                          i: nat, f: nat, k: nat, q: nat)
    requires f < |l.fields| && k <= l.fields[f].count && q < |cols| && q != s
    ensures var r := ElemsRead(cols, s, l, ft, tokens, i, f, k).cols;
      q < |r| && r[q] == cols[q]
    decreases k
  {
    if k > 0 {
      ElemsReadOther(cols, s, l, ft, tokens, i, f, k - 1, q);
      ElemsOtherNext(cols, s, l, ft, tokens, i, f, k - 1, k, q);
    }
  }

  /** One element more of the element loop keeps every slot but s. */
  lemma {:induction false} ElemsOtherNext(cols: seq<Column>, s: nat, l: PcdLayout, ft: FloatText, tokens: seq<string>,
                                          i: nat, f: nat, j: nat, k: nat, q: nat)
    requires f < |l.fields| && k == j + 1 <= l.fields[f].count && q < |cols| && q != s
    requires var r := ElemsRead(cols, s, l, ft, tokens, i, f, j).cols;
      q < |r| && r[q] == cols[q]
    ensures var r := ElemsRead(cols, s, l, ft, tokens, i, f, k).cols;
      q < |r| && r[q] == cols[q]
  {
    ElemsReadStep(cols, s, l, ft, tokens, i, f, j, k);
    ElemsReadShape(cols, s, l, ft, tokens, i, f, j);
    var prev := ElemsRead(cols, s, l, ft, tokens, i, f, j);
    if prev.result.Ok? {
      var t := TokenBase(l, f) + j;
      if t < |tokens| && ParseToken(l.fields[f].vt, tokens[t], ft).Ok? {
        assert Put(prev.cols, s, RowIndex(i, l.fields[f].count, j), ParseToken(l.fields[f].vt, tokens[t], ft).value)[q]
            == prev.cols[q];
      }
    }
  }

  /** The first k elements of field f for point i, read without error:
      elements i*count .. i*count+k-1 of slot s hold tokens TokenBase ..
      TokenBase+k-1 in order, and every other element is as before. */
  lemma {:induction false} ElemsReadAt(cols: seq<Column>, s: nat, l: PcdLayout, ft: FloatText, tokens: seq<string>,
                                       i: nat, f: nat, k: nat, q: nat, e: nat)
    requires f < |l.fields| && k <= l.fields[f].count
    requires ElemsRead(cols, s, l, ft, tokens, i, f, k).result.Ok?
    requires q < |cols| && e < Len(cols[q])
    ensures var c, r := l.fields[f].count, ElemsRead(cols, s, l, ft, tokens, i, f, k).cols;
      q < |r| && e < Len(r[q])
      && Values(r[q])[e]
      == if q == s && RowIndex(i, c, 0) <= e < RowIndex(i, c, k)
         then TokenValue(l.fields[f].vt, tokens, TokenBase(l, f) + (e - RowIndex(i, c, 0)), ft) else Values(cols[q])[e]
    decreases k
  {
    if k > 0 {
      var j := k - 1;
      ElemsReadStep(cols, s, l, ft, tokens, i, f, j, k);
      ElemsReadAt(cols, s, l, ft, tokens, i, f, j, q, e);
      ElemsAtNext(cols, s, l, ft, tokens, i, f, j, k, q, e);
    }
  }

  /** One element more of the element loop, read without error, changes
      element i*count+j of slot s to token TokenBase+j and nothing else. */
  lemma {:induction false} ElemsAtNext(cols: seq<Column>, s: nat, l: PcdLayout, ft: FloatText, tokens: seq<string>,
                                       i: nat, f: nat, j: nat, k: nat, q: nat, e: nat)
    requires f < |l.fields| && k == j + 1 <= l.fields[f].count
    requires ElemsRead(cols, s, l, ft, tokens, i, f, k).result.Ok?
    requires q < |cols| && e < Len(cols[q])
    requires var c, r := l.fields[f].count, ElemsRead(cols, s, l, ft, tokens, i, f, j).cols;
      q < |r| && e < Len(r[q])
      && Values(r[q])[e]
      == if q == s && RowIndex(i, c, 0) <= e < RowIndex(i, c, j)
         then TokenValue(l.fields[f].vt, tokens, TokenBase(l, f) + (e - RowIndex(i, c, 0)), ft) else Values(cols[q])[e]
    ensures var c, r := l.fields[f].count, ElemsRead(cols, s, l, ft, tokens, i, f, k).cols;
      q < |r| && e < Len(r[q])
      && Values(r[q])[e]
      == if q == s && RowIndex(i, c, 0) <= e < RowIndex(i, c, k)
         then TokenValue(l.fields[f].vt, tokens, TokenBase(l, f) + (e - RowIndex(i, c, 0)), ft) else Values(cols[q])[e]
  {
    var c, base := l.fields[f].count, RowIndex(i, l.fields[f].count, 0);
    ElemsReadStep(cols, s, l, ft, tokens, i, f, j, k);
    var prev := ElemsRead(cols, s, l, ft, tokens, i, f, j);
    assert prev.result.Ok?;
    NextElemAt(prev.cols, s, l, ft, tokens, i, f, j, q, e);
    assert RowIndex(i, c, k) == base + k && RowIndex(i, c, j) == base + j;
  }

  /** The field loop changes no slot that none of its fields has. */
  lemma {:induction false} FieldsReadOther(cols: seq<Column>, slots: seq<nat>, l: PcdLayout, ft: FloatText,
                                           tokens: seq<string>, i: nat, f: nat, q: nat)
    requires f <= |l.fields| == |slots| && q < |cols|
    requires forall g :: 0 <= g < f ==> slots[g] != q
    ensures var r := FieldsRead(cols, slots, l, ft, tokens, i, f).cols;
      q < |r| && r[q] == cols[q]
    decreases f
  {
    if f > 0 {
      var g := f - 1;
      FieldsReadOther(cols, slots, l, ft, tokens, i, g, q);
      FieldsReadStep(cols, slots, l, ft, tokens, i, g, f);
      FieldsReadShape(cols, slots, l, ft, tokens, i, g);
      var prev := FieldsRead(cols, slots, l, ft, tokens, i, g);
      ElemsReadOther(prev.cols, slots[g], l, ft, tokens, i, g, l.fields[g].count, q);
    }
  }

  /** The first f fields of point i, read without error, into distinct
      slots: field g's slot holds its count tokens from i*count on when
      g < f, and is as before elsewhere. */
  lemma {:induction false} FieldsReadAt(cols: seq<Column>, slots: seq<nat>, l: PcdLayout, ft: FloatText,
                                        tokens: seq<string>, i: nat, f: nat, g: nat, e: nat)
    requires f <= |l.fields| == |slots| && SlotsDistinct(slots)
    requires FieldsRead(cols, slots, l, ft, tokens, i, f).result.Ok?
    requires g < |l.fields| && slots[g] < |cols| && e < Len(cols[slots[g]])
    ensures var c, r := l.fields[g].count, FieldsRead(cols, slots, l, ft, tokens, i, f).cols;
      slots[g] < |r| && e < Len(r[slots[g]])
      && Values(r[slots[g]])[e]
      == if g < f && RowIndex(i, c, 0) <= e < RowIndex(i, c, c)
         then TokenValue(l.fields[g].vt, tokens, TokenBase(l, g) + (e - RowIndex(i, c, 0)), ft)
         else Values(cols[slots[g]])[e]
    decreases f
  {
    if f > 0 {
      var h := f - 1;
      FieldsReadStep(cols, slots, l, ft, tokens, i, h, f);
      FieldsReadAt(cols, slots, l, ft, tokens, i, h, g, e);
      FieldsAtNext(cols, slots, l, ft, tokens, i, h, f, g, e);
    }
  }

  /** One field more of the field loop, read without error, fills field
      h's slot from i*count on and changes no other field's slot. */
  lemma {:induction false} FieldsAtNext(cols: seq<Column>, slots: seq<nat>, l: PcdLayout, ft: FloatText,
                                        tokens: seq<string>, i: nat, h: nat, f: nat, g: nat, e: nat)
    requires f == h + 1 <= |l.fields| == |slots| && SlotsDistinct(slots)
    requires FieldsRead(cols, slots, l, ft, tokens, i, f).result.Ok?
    requires g < |l.fields| && slots[g] < |cols| && e < Len(cols[slots[g]])
    requires var c, r := l.fields[g].count, FieldsRead(cols, slots, l, ft, tokens, i, h).cols;
      slots[g] < |r| && e < Len(r[slots[g]])
      && Values(r[slots[g]])[e]
      == if g < h && RowIndex(i, c, 0) <= e < RowIndex(i, c, c)
         then TokenValue(l.fields[g].vt, tokens, TokenBase(l, g) + (e - RowIndex(i, c, 0)), ft)
         else Values(cols[slots[g]])[e]
    ensures var c, r := l.fields[g].count, FieldsRead(cols, slots, l, ft, tokens, i, f).cols;
      slots[g] < |r| && e < Len(r[slots[g]])
      && Values(r[slots[g]])[e]
      == if g < f && RowIndex(i, c, 0) <= e < RowIndex(i, c, c)
         then TokenValue(l.fields[g].vt, tokens, TokenBase(l, g) + (e - RowIndex(i, c, 0)), ft)
         else Values(cols[slots[g]])[e]
  {
    FieldsReadStep(cols, slots, l, ft, tokens, i, h, f);
    FieldsReadShape(cols, slots, l, ft, tokens, i, h);
    var prev := FieldsRead(cols, slots, l, ft, tokens, i, h);
    assert prev.result.Ok?;
    var r := FieldsRead(cols, slots, l, ft, tokens, i, f).cols;
    if g == h {
      FieldFilled(prev.cols, cols, slots[h], l, ft, tokens, i, h, e);
    } else {
      assert slots[g] != slots[h];
      ElemsReadOther(prev.cols, slots[h], l, ft, tokens, i, h, l.fields[h].count, slots[g]);
      assert r[slots[g]] == prev.cols[slots[g]];
    }
  }

  /** Field h's element loop, read without error into slot s, fills
      elements i*count .. i*count+count-1 of the slot and keeps the rest
      of it, which held what cols holds there. */
  lemma {:induction false} FieldFilled(prev: seq<Column>, cols: seq<Column>, s: nat, l: PcdLayout, ft: FloatText,
                                       tokens: seq<string>, i: nat, h: nat, e: nat)
    requires h < |l.fields| && ElemsRead(prev, s, l, ft, tokens, i, h, l.fields[h].count).result.Ok?
    requires s < |prev| && e < Len(prev[s]) && s < |cols| && e < Len(cols[s])
    requires Values(prev[s])[e] == Values(cols[s])[e]
    ensures var c, r := l.fields[h].count, ElemsRead(prev, s, l, ft, tokens, i, h, l.fields[h].count).cols;
      s < |r| && e < Len(r[s])
      && Values(r[s])[e]
      == if RowIndex(i, c, 0) <= e < RowIndex(i, c, c)
         then TokenValue(l.fields[h].vt, tokens, TokenBase(l, h) + (e - RowIndex(i, c, 0)), ft)
         else Values(cols[s])[e]
  {
    ElemsReadAt(prev, s, l, ft, tokens, i, h, l.fields[h].count, s, e);
  }

  /** The point loop succeeded up to u = i + 1 only if it did up to i and
      line i was there. */
  lemma {:induction false} PointsReadOkPrev(cols: seq<Column>, slots: seq<nat>, l: PcdLayout, ft: FloatText,
                                            lines: seq<seq<string>>, i: nat, u: nat)
    requires |l.fields| == |slots| && u == i + 1
    requires PointsRead(cols, slots, l, ft, lines, u).result.Ok?
    ensures PointsRead(cols, slots, l, ft, lines, i).result.Ok? && i < |lines|
    ensures PointsRead(cols, slots, l, ft, lines, u)
         == FieldsRead(PointsRead(cols, slots, l, ft, lines, i).cols, slots, l, ft, lines[i], i, |l.fields|)
  {
    assert u - 1 == i;
  }

  /** The point loop changes no slot that no field has. */
  lemma {:induction false} PointsReadOther(cols: seq<Column>, slots: seq<nat>, l: PcdLayout, ft: FloatText,
                                           lines: seq<seq<string>>, i: nat, q: nat)
    requires |l.fields| == |slots| && q < |cols|
    requires forall g :: 0 <= g < |slots| ==> slots[g] != q
    ensures PointsRead(cols, slots, l, ft, lines, i).cols[q] == cols[q]
    decreases i
  {
    if i > 0 {
      var p := i - 1;
      PointsReadOther(cols, slots, l, ft, lines, p, q);
      var prev := PointsRead(cols, slots, l, ft, lines, p);
      if prev.result.Ok? {
        if p < |lines| {
          PointsReadNext(cols, slots, l, ft, lines, p, i);
          FieldsReadOther(prev.cols, slots, l, ft, lines[p], p, |l.fields|, q);
        } else {
          PointsReadEof(cols, slots, l, ft, lines, p, i);
        }
      } else {
        PointsReadStops(cols, slots, l, ft, lines, p, i);
      }
    }
  }

  /** After i points read without error: element j*count+k of field g's
      slot, for j < i and k < count, holds token TokenBase(g)+k of line j. */
  lemma {:induction false} PointsReadAt(cols: seq<Column>, slots: seq<nat>, l: PcdLayout, ft: FloatText,
                                        lines: seq<seq<string>>, i: nat, g: nat, j: nat, k: nat)
    requires |l.fields| == |slots| && SlotsDistinct(slots)
    requires PointsRead(cols, slots, l, ft, lines, i).result.Ok?
    requires g < |l.fields| && slots[g] < |cols| && j < i && k < l.fields[g].count
    requires RowIndex(j, l.fields[g].count, k) < Len(cols[slots[g]])
    ensures j < |lines|
    ensures Values(PointsRead(cols, slots, l, ft, lines, i).cols[slots[g]])[RowIndex(j, l.fields[g].count, k)]
         == TokenValue(l.fields[g].vt, lines[j], TokenBase(l, g) + k, ft)
    decreases i
  {
    var p := i - 1;
    PointsReadOkPrev(cols, slots, l, ft, lines, p, i);
    if j < p {
      PointsReadAt(cols, slots, l, ft, lines, p, g, j, k);
    }
    PointsAtNext(cols, slots, l, ft, lines, p, i, g, j, k);
  }

  /** Point p, read without error, fills its own elements of field g's
      slot and keeps those of the points before it. */
  lemma {:induction false} PointsAtNext(cols: seq<Column>, slots: seq<nat>, l: PcdLayout, ft: FloatText,
                                        lines: seq<seq<string>>, p: nat, i: nat, g: nat, j: nat, k: nat)
    requires |l.fields| == |slots| && SlotsDistinct(slots) && i == p + 1
    requires PointsRead(cols, slots, l, ft, lines, i).result.Ok?
    requires g < |l.fields| && slots[g] < |cols| && j < i && k < l.fields[g].count
    requires RowIndex(j, l.fields[g].count, k) < Len(cols[slots[g]])
    requires j < p ==>
      j < |lines|
      && Values(PointsRead(cols, slots, l, ft, lines, p).cols[slots[g]])[RowIndex(j, l.fields[g].count, k)]
         == TokenValue(l.fields[g].vt, lines[j], TokenBase(l, g) + k, ft)
    ensures j < |lines|
    ensures Values(PointsRead(cols, slots, l, ft, lines, i).cols[slots[g]])[RowIndex(j, l.fields[g].count, k)]
         == TokenValue(l.fields[g].vt, lines[j], TokenBase(l, g) + k, ft)
  {
    var c := l.fields[g].count;
    var e := RowIndex(j, c, k);
    PointsReadOkPrev(cols, slots, l, ft, lines, p, i);
    var prev := PointsRead(cols, slots, l, ft, lines, p);
    assert SameShape(prev.cols, cols);
    var r := FieldsRead(prev.cols, slots, l, ft, lines[p], p, |l.fields|).cols;
    assert PointsRead(cols, slots, l, ft, lines, i).cols == r;
    FieldsReadAt(prev.cols, slots, l, ft, lines[p], p, |l.fields|, g, e);
    if j < p {
      RowBefore(j, p, c, k);
      assert Values(r[slots[g]])[e] == Values(prev.cols[slots[g]])[e];
    } else {
      assert RowIndex(p, c, 0) <= e < RowIndex(p, c, c) && e - RowIndex(p, c, 0) == k;
      assert Values(r[slots[g]])[e] == TokenValue(l.fields[g].vt, lines[p], TokenBase(l, g) + k, ft);
    }
  }

  /** The elements of an earlier point come before those of a later one. */
  lemma {:induction false} RowBefore(j: nat, p: nat, c: nat, k: nat)
    requires j < p && k < c
    ensures RowIndex(j, c, k) < RowIndex(p, c, 0)
  {
    MulMono(j + 1, p, c);
    assert (j + 1) * c == j * c + c;
  }

  /** After i points read without error, the elements of field g's slot
      from i*count on are as before. */
  lemma {:induction false} PointsReadBeyond(cols: seq<Column>, slots: seq<nat>, l: PcdLayout, ft: FloatText,
                                            lines: seq<seq<string>>, i: nat, g: nat, e: nat)
    requires |l.fields| == |slots| && SlotsDistinct(slots)
    requires PointsRead(cols, slots, l, ft, lines, i).result.Ok?
    requires g < |l.fields| && slots[g] < |cols| && RowIndex(i, l.fields[g].count, 0) <= e < Len(cols[slots[g]])
    ensures Values(PointsRead(cols, slots, l, ft, lines, i).cols[slots[g]])[e] == Values(cols[slots[g]])[e]
    decreases i
  {
    if i > 0 {
      var p := i - 1;
      PointsReadOkPrev(cols, slots, l, ft, lines, p, i);
      RowAfter(p, i, l.fields[g].count, e);
      PointsReadBeyond(cols, slots, l, ft, lines, p, g, e);
      PointsBeyondNext(cols, slots, l, ft, lines, p, i, g, e);
    }
  }

  /** Point p, read without error, keeps the elements of field g's slot
      from (p+1)*count on. */
  lemma {:induction false} PointsBeyondNext(cols: seq<Column>, slots: seq<nat>, l: PcdLayout, ft: FloatText,
                                            lines: seq<seq<string>>, p: nat, i: nat, g: nat, e: nat)
    requires |l.fields| == |slots| && SlotsDistinct(slots) && i == p + 1
    requires PointsRead(cols, slots, l, ft, lines, i).result.Ok?
    requires g < |l.fields| && slots[g] < |cols| && RowIndex(i, l.fields[g].count, 0) <= e < Len(cols[slots[g]])
    requires Values(PointsRead(cols, slots, l, ft, lines, p).cols[slots[g]])[e] == Values(cols[slots[g]])[e]
    ensures Values(PointsRead(cols, slots, l, ft, lines, i).cols[slots[g]])[e] == Values(cols[slots[g]])[e]
  {
    var c := l.fields[g].count;
    PointsReadOkPrev(cols, slots, l, ft, lines, p, i);
    var prev := PointsRead(cols, slots, l, ft, lines, p);
    assert SameShape(prev.cols, cols);
    FieldsReadAt(prev.cols, slots, l, ft, lines[p], p, |l.fields|, g, e);
    RowNext(p, i, c);
  }

  /** Point p + 1's elements start where point p's end. */
  lemma {:induction false} RowNext(p: nat, i: nat, c: nat)
    requires i == p + 1
    ensures RowIndex(p, c, c) == RowIndex(i, c, 0)
  {
    assert (p + 1) * c == p * c + c;
  }

  /** The elements from point i on come after those of point p < i. */
  lemma {:induction false} RowAfter(p: nat, i: nat, c: nat, e: nat)
    requires p < i && RowIndex(i, c, 0) <= e
    ensures RowIndex(p, c, 0) <= e
  {
    MulMono(p, i, c);
  }

  /** The slots a schema's index gives layout fields with distinct names
      are distinct. */
  lemma {:induction false} SchemaSlotsDistinct(schema: seq<string>, l: PcdLayout)
    requires AllPresent(l, IndexMap(schema)) && Distinct(FieldNames(l))
    ensures SlotsDistinct(Slots(l, IndexMap(schema)))
  {
    var slots := Slots(l, IndexMap(schema));
    forall g, h | 0 <= g < h < |slots|
      ensures slots[g] != slots[h]
    {
      assert FieldNames(l)[g] != FieldNames(l)[h];
      IndexMapInjective(schema, l.fields[g].name, l.fields[h].name);
    }
  }

  /** After n points read without error, each line i < n was there and
      holds, for field f, the tokens TokenBase(f) .. TokenBase(f)+count-1,
      each parsing as the field's type. */
  lemma {:induction false} PointsReadParses(cols: seq<Column>, slots: seq<nat>, l: PcdLayout, ft: FloatText,
                                            lines: seq<seq<string>>, n: nat, f: nat, i: nat, k: nat)
    requires |l.fields| == |slots| && PointsRead(cols, slots, l, ft, lines, n).result.Ok?
    requires f < |l.fields| && i < n && k < l.fields[f].count
    ensures var t := TokenBase(l, f) + k;
      i < |lines| && t < |lines[i]| && ParseToken(l.fields[f].vt, lines[i][t], ft).Ok?
  {
    var u := i + 1;
    if PointsRead(cols, slots, l, ft, lines, u).result.Err? {
      PointsReadStops(cols, slots, l, ft, lines, u, n);
    }
    PointsReadOkPrev(cols, slots, l, ft, lines, i, u);
    var prev := PointsRead(cols, slots, l, ft, lines, i);
    FieldsReadParses(prev.cols, slots, l, ft, lines[i], i, f, k);
  }

  /** The fields of a line read without error: field f's tokens are there
      and each parses as its type. */
  lemma {:induction false} FieldsReadParses(cols: seq<Column>, slots: seq<nat>, l: PcdLayout, ft: FloatText,
                                            tokens: seq<string>, i: nat, f: nat, k: nat)
    requires |l.fields| == |slots| && FieldsRead(cols, slots, l, ft, tokens, i, |l.fields|).result.Ok?
    requires f < |l.fields| && k < l.fields[f].count
    ensures var t := TokenBase(l, f) + k;
      t < |tokens| && ParseToken(l.fields[f].vt, tokens[t], ft).Ok?
  {
    var vt, a, b := l.fields[f].vt, TokenBase(l, f), TokenBase(l, f) + l.fields[f].count;
    FieldsReadOkBefore(cols, slots, l, ft, tokens, i, f + 1, |l.fields|);
    FieldsReadOkNext(cols, slots, l, ft, tokens, i, f, f + 1);
    assert TokensParse(vt, tokens, a, b, ft);
    TokensParseEach(vt, tokens, a, b, ft);
    assert a + k < b <= |tokens|;
  }

  /** The field loop succeeded over g fields only if it did over f <= g. */
  lemma {:induction false} FieldsReadOkBefore(cols: seq<Column>, slots: seq<nat>, l: PcdLayout, ft: FloatText,
                                              tokens: seq<string>, i: nat, f: nat, g: nat)
    requires f <= g <= |l.fields| == |slots|
    requires FieldsRead(cols, slots, l, ft, tokens, i, g).result.Ok?
    ensures FieldsRead(cols, slots, l, ft, tokens, i, f).result.Ok?
  {
    if FieldsRead(cols, slots, l, ft, tokens, i, f).result.Err? {
      FieldsReadStops(cols, slots, l, ft, tokens, i, f, g);
    }
  }

  /** A decode that succeeds had every name present, none repeated, and
      read point i < n from line i: for each element k of field f, line i
      has token TokenBase(f) + k, it parses as the field's type, and its
      value is element i*count+k of the field's column. */
  lemma {:induction false} DecodedValues(cols: seq<Column>, schema: seq<string>, l: PcdLayout, n: nat,
                                         data: seq<byte>, ft: FloatText, f: nat, i: nat, k: nat)
    requires IndexInto(IndexMap(schema), cols)
    requires Decoded(cols, IndexMap(schema), l, n, data, ft).result.Ok?
    requires f < |l.fields| && i < n && k < l.fields[f].count
    ensures AllPresent(l, IndexMap(schema)) && Distinct(FieldNames(l))
    ensures var s, c, lines := IndexMap(schema)[l.fields[f].name], l.fields[f].count, Lines(data, 0);
      var t := TokenBase(l, f) + k;
      s < |cols| && i < |lines| && t < |lines[i]| && ParseToken(l.fields[f].vt, lines[i][t], ft).Ok?
      && (RowIndex(i, c, k) < n ==>
            Values(Decoded(cols, IndexMap(schema), l, n, data, ft).cols[s])[RowIndex(i, c, k)]
            == ParseToken(l.fields[f].vt, lines[i][t], ft).value)
  {
    var index := IndexMap(schema);
    var slots, lines, resized := Slots(l, index), Lines(data, 0), ResizedAll(cols, n);
    DecodedReads(cols, index, l, n, data, ft);
    SchemaSlotsDistinct(schema, l);
    PointsReadParses(resized, slots, l, ft, lines, n, f, i, k);
    if RowIndex(i, l.fields[f].count, k) < n {
      PointsReadAt(resized, slots, l, ft, lines, n, f, i, k);
    }
  }

  /** A decode that succeeds leaves the elements of a field's column from
      n*count on (all of them for COUNT 0) as the resize made them. */
  lemma {:induction false} DecodedRest(cols: seq<Column>, schema: seq<string>, l: PcdLayout, n: nat,
                                       data: seq<byte>, ft: FloatText, f: nat, e: nat)
    requires IndexInto(IndexMap(schema), cols)
    requires Decoded(cols, IndexMap(schema), l, n, data, ft).result.Ok?
    requires f < |l.fields| && RowIndex(n, l.fields[f].count, 0) <= e < n
    ensures AllPresent(l, IndexMap(schema))
    ensures var s := IndexMap(schema)[l.fields[f].name];
      s < |cols| && Values(Decoded(cols, IndexMap(schema), l, n, data, ft).cols[s])[e]
                    == Values(Resized(cols[s], n))[e]
  {
    var index := IndexMap(schema);
    var slots, resized := Slots(l, index), ResizedAll(cols, n);
    DecodedReads(cols, index, l, n, data, ft);
    SchemaSlotsDistinct(schema, l);
    PointsReadBeyond(resized, slots, l, ft, Lines(data, 0), n, f, e);
  }

  /** Whatever its result, the decoder changes a column that no layout
      field names only by the resize. */
  lemma {:induction false} DecodedUntouched(cols: seq<Column>, schema: seq<string>, l: PcdLayout, n: nat,
                                            data: seq<byte>, ft: FloatText, s: nat)
    requires IndexInto(IndexMap(schema), cols) && s < |cols|
    requires forall f :: 0 <= f < |l.fields| ==> l.fields[f].name !in IndexMap(schema) || IndexMap(schema)[l.fields[f].name] != s
    ensures Decoded(cols, IndexMap(schema), l, n, data, ft).cols[s] == Resized(cols[s], n)
  {
    var index := IndexMap(schema);
    if AllPresent(l, index) && Distinct(FieldNames(l)) {
      DecodedReads(cols, index, l, n, data, ft);
      PointsReadOther(ResizedAll(cols, n), Slots(l, index), l, ft, Lines(data, 0), n, s);
    }
  }
}

/** The meaning of an array-of-structures body (the `binary` encoding):
    record i occupies bytes [i*stride, (i+1)*stride) and element k of field f
    sits at the field's offset plus k element sizes. The decoders' effect on
    the store is described here step by step (one element, one record, a
    prefix of the records) and then pointwise. The body is consumed from
    the front, one record of total_size bytes at a time, so record
    positions are sums of record sizes; lemmas tie them to i*total_size. */
module Records {
  import opened Errors
  import opened Bytes
  import opened Header
  import opened Layout
  import opened Elements
  import opened Storage

  /** Every field's elements fit in n rows: the decoders write element k of
      row i at i*count+k of a column holding n elements, which stays in
      bounds for all i < n and k < count exactly when no points are read
      or the field has at most one element per point. */
  predicate CountsFit(l: PcdLayout, n: nat)
  {
    forall f :: 0 <= f < |l.fields| ==> n == 0 || l.fields[f].count <= 1
  }

  /** The first R records of every field that has a column in the index
      fit in columns of n elements: record i's elements go to
      i*count .. i*count+count-1, so the R records take R*count elements
      (written as the sum Skip(count, R)). */
  predicate RecordsFit(l: PcdLayout, index: map<string, nat>, R: nat, n: nat)
  {
    forall f :: 0 <= f < |l.fields| && l.fields[f].name in index ==> Skip(l.fields[f].count, R) <= n
  }

  lemma {:induction false} MulMono(a: nat, b: nat, c: nat)
    requires a <= b
    ensures a * c <= b * c
  {
  }

  /** All n records fit in n rows exactly when CountsFit holds. */
  lemma {:induction false} RecordsFitAll(l: PcdLayout, index: map<string, nat>, n: nat)
    requires AllPresent(l, index)
    ensures RecordsFit(l, index, n, n) <==> CountsFit(l, n)
  {
    forall f | 0 <= f < |l.fields|
      ensures Skip(l.fields[f].count, n) <= n <==> (n == 0 || l.fields[f].count <= 1)
    {
      var c := l.fields[f].count;
      SkipIsProduct(c, n);
      if c <= 1 {
        MulMono(c, 1, n);
      } else {
        MulMono(2, c, n);
      }
    }
  }

  /** When every field fits n rows, any R <= n records fit. */
  lemma {:induction false} CountsFitRecords(l: PcdLayout, index: map<string, nat>, R: nat, n: nat)
    requires CountsFit(l, n) && R <= n
    ensures RecordsFit(l, index, R, n)
  {
    forall f | 0 <= f < |l.fields| && l.fields[f].name in index
      ensures Skip(l.fields[f].count, R) <= n
    {
      SkipIsProduct(l.fields[f].count, R);
      if n > 0 {
        MulMono(l.fields[f].count, 1, R);
      }
    }
  }

  /** Room for R records is room for fewer. */
  lemma {:induction false} RecordsFitFewer(l: PcdLayout, index: map<string, nat>, R: nat, R': nat, n: nat)
    requires RecordsFit(l, index, R, n) && R' <= R
    ensures RecordsFit(l, index, R', n)
  {
    forall f | 0 <= f < |l.fields| && l.fields[f].name in index
      ensures Skip(l.fields[f].count, R') <= n
    {
      SkipMono(l.fields[f].count, R', R);
    }
  }

  /** The bound above is exact: for count >= 2 the last row's last element
      lands at or past n. */
  lemma {:induction false} CountsFitExact(count: nat, n: nat)
    requires n > 0 && count >= 2
    ensures (n - 1) * count + (count - 1) >= n
  {
    MulMono(1, count, n - 1);
  }

  /** The destination i*count+k of element k < count of row i names one
      (row, element) pair only: no two writes of a decode, sequential or
      chunk by chunk, land on the same column element. */
  lemma {:induction false} DestinationInjective(count: nat, i: nat, k: nat, i': nat, k': nat)
    requires k < count && k' < count && i * count + k == i' * count + k'
    ensures i == i' && k == k'
  {
    if i < i' {
      assert (i + 1) * count == i * count + count;
      MulMono(i + 1, i', count);
    } else if i' < i {
      assert (i' + 1) * count == i' * count + count;
      MulMono(i' + 1, i, count);
    }
  }

  /** And every element below R*count is the destination of element
      j % count of record j / count, which is one of the first R. */
  lemma {:induction false} DestinationCovers(count: nat, R: nat, j: nat)
    requires j < R * count
    ensures count > 0 && j / count < R && j % count < count
    ensures j == (j / count) * count + j % count
  {
    var i := j / count;
    if R <= i {
      MulMono(R, i, count);
    }
  }

  /** Element k of field f ends inside the record. */
  lemma {:induction false} ElemInRecord(l: PcdLayout, f: nat, k: nat)
    requires FieldsFit(l) && f < |l.fields| && k < l.fields[f].count
    ensures l.fields[f].offset + Skip(l.fields[f].elementSize, k) + l.fields[f].elementSize <= l.totalSize
  {
    SkipMono(l.fields[f].elementSize, k + 1, l.fields[f].count);
  }

  /** Element k of field f of one record's bytes. */
  function RecordElem(l: PcdLayout, rec: seq<byte>, f: nat, k: nat): (v: int)
    requires FieldsFit(l) && |rec| == l.totalSize && f < |l.fields| && k < l.fields[f].count
    ensures InRange(l.fields[f].vt, v)
  {
    ElemInRecord(l, f, k);
    var start := l.fields[f].offset + Skip(l.fields[f].elementSize, k);
    DecodeElem(l.fields[f].vt, rec[start .. start + l.fields[f].elementSize])
  }

  /** A stream of len bytes holds R whole records of ts bytes each, read
      one after the other. */
  predicate HoldsRecords(ts: nat, len: nat, R: nat)
    decreases R
  {
    R == 0 || (ts <= len && HoldsRecords(ts, len - ts, R - 1))
  }

  lemma {:induction false} HoldsRecordsIff(ts: nat, len: nat, R: nat)
    ensures HoldsRecords(ts, len, R) <==> R * ts <= len
    decreases R
  {
    if R > 0 {
      assert R * ts == (R - 1) * ts + ts;
      if ts <= len {
        HoldsRecordsIff(ts, len - ts, R - 1);
      }
    }
  }

  /** The first R records of a stream as `read_exact` delivers them: ts
      bytes at a time, from the front. */
  function Chunks(ts: nat, data: seq<byte>, R: nat): (recs: seq<seq<byte>>)
    requires HoldsRecords(ts, |data|, R)
    ensures |recs| == R && forall i :: 0 <= i < R ==> |recs[i]| == ts
    decreases R
  {
    if R == 0 then [] else [data[..ts]] + Chunks(ts, data[ts..], R - 1)
  }

  /** A slice of a suffix is a slice of the whole, shifted. */
  lemma {:induction false} DropSlice(xs: seq<byte>, d: nat, s: nat, e: nat, s': nat, e': nat)
    requires d <= |xs| && s <= e <= |xs| - d && s' == d + s && e' == d + e
    ensures xs[d..][s .. e] == xs[s' .. e']
  {
    assert forall j :: 0 <= j < e - s ==> xs[d..][s .. e][j] == xs[s' .. e'][j];
  }

  /** Taking one record off the front leaves the others. */
  lemma {:induction false} ChunksStep(ts: nat, data: seq<byte>, R: nat)
    requires HoldsRecords(ts, |data|, R) && R > 0
    ensures ts <= |data| && HoldsRecords(ts, |data| - ts, R - 1)
    ensures Chunks(ts, data, R)[0] == data[..ts]
    ensures Chunks(ts, data, R)[1..] == Chunks(ts, data[ts..], R - 1)
  {
  }

  /** Record i is the bytes at its start in the stream. */
  lemma {:induction false} ChunkAt(ts: nat, data: seq<byte>, R: nat, i: nat)
    requires HoldsRecords(ts, |data|, R) && i < R
    ensures Skip(ts, i) + ts <= |data|
    ensures Chunks(ts, data, R)[i] == data[Skip(ts, i) .. Skip(ts, i) + ts]
    decreases i
  {
    ChunksStep(ts, data, R);
    if i > 0 {
      var rest := data[ts..];
      ChunkAt(ts, rest, R - 1, i - 1);
      var a := Skip(ts, i - 1);
      var b := Skip(ts, i);
      assert Chunks(ts, data, R)[i] == Chunks(ts, rest, R - 1)[i - 1];
      DropSlice(data, ts, a, a + ts, b, b + ts);
    } else {
      assert data[0 .. ts] == data[..ts];
    }
  }

  /** How many records `read_exact` delivers before the stream runs dry
      when n are wanted: each takes ts bytes off the front. */
  function RowsRead(ts: nat, n: nat, len: nat): (r: nat)
    ensures r <= n && HoldsRecords(ts, len, r)
    decreases n
  {
    if n == 0 || len < ts then 0 else 1 + RowsRead(ts, n - 1, len - ts)
  }

  /** One `read_exact`: with a point still wanted, a stream shorter than a
      record yields none, and a longer one yields this record and then
      whatever the rest yields. */
  lemma {:induction false} RowsReadStep(ts: nat, m: nat, len: nat)
    requires m > 0
    ensures len < ts ==> RowsRead(ts, m, len) == 0
    ensures ts <= len ==> RowsRead(ts, m, len) == 1 + RowsRead(ts, m - 1, len - ts)
  {
  }

  /** All n records are read exactly when the stream holds n records. */
  lemma {:induction false} RowsReadAll(ts: nat, n: nat, len: nat)
    ensures RowsRead(ts, n, len) == n <==> HoldsRecords(ts, len, n)
    decreases n
  {
    if n > 0 && ts <= len {
      RowsReadAll(ts, n - 1, len - ts);
    }
  }

  /** And a short read stops at the last whole record: one more does not fit. */
  lemma {:induction false} RowsReadMaximal(ts: nat, n: nat, len: nat)
    requires RowsRead(ts, n, len) < n
    ensures !HoldsRecords(ts, len, RowsRead(ts, n, len) + 1)
    decreases n
  {
    if ts <= len {
      RowsReadMaximal(ts, n - 1, len - ts);
    }
  }

  /** In byte terms: the records read fill at most the stream, fewer than n
      are read exactly when the stream is shorter than n records, and then
      one more record would overrun it. */
  lemma {:induction false} RowsReadBytes(ts: nat, n: nat, len: nat)
    ensures RowsRead(ts, n, len) * ts <= len
    ensures RowsRead(ts, n, len) < n <==> len < n * ts
    ensures RowsRead(ts, n, len) < n ==> len < (RowsRead(ts, n, len) + 1) * ts
  {
    var r := RowsRead(ts, n, len);
    HoldsRecordsIff(ts, len, r);
    RowsReadAll(ts, n, len);
    HoldsRecordsIff(ts, len, n);
    if r < n {
      RowsReadMaximal(ts, n, len);
      HoldsRecordsIff(ts, len, r + 1);
    }
  }

  lemma {:induction false} SliceOfSlice(xs: seq<byte>, a: nat, b: nat, s: nat, e: nat, s': nat, e': nat)
    requires a <= b <= |xs| && s <= e <= b - a && s' == a + s && e' == a + e
    ensures xs[a .. b][s .. e] == xs[s' .. e']
  {
    assert forall j :: 0 <= j < e - s ==> xs[a .. b][s .. e][j] == xs[s' .. e'][j];
  }

  /** Element k of field f of the record starting at byte a, read at its
      byte offset start in the whole stream. */
  lemma {:induction false} RecordElemAt(l: PcdLayout, data: seq<byte>, a: nat, f: nat, k: nat, start: nat)
    requires FieldsFit(l) && a + l.totalSize <= |data| && f < |l.fields| && k < l.fields[f].count
    requires start == a + l.fields[f].offset + Skip(l.fields[f].elementSize, k)
    ensures start + l.fields[f].elementSize <= |data|
    ensures RecordElem(l, data[a .. a + l.totalSize], f, k)
         == DecodeElem(l.fields[f].vt, data[start .. start + l.fields[f].elementSize])
  {
    ElemInRecord(l, f, k);
    var s := l.fields[f].offset + Skip(l.fields[f].elementSize, k);
    SliceOfSlice(data, a, a + l.totalSize, s, s + l.fields[f].elementSize, start, start + l.fields[f].elementSize);
  }

  /** Element k of field f in record i of the stream is the element whose
      bytes start at i record sizes, the field's offset and k element
      sizes into the stream. */
  lemma {:induction false} StreamElem(l: PcdLayout, data: seq<byte>, R: nat, i: nat, f: nat, k: nat, start: nat)
    requires FieldsFit(l) && HoldsRecords(l.totalSize, |data|, R) && i < R
    requires f < |l.fields| && k < l.fields[f].count
    requires start == Skip(l.totalSize, i) + l.fields[f].offset + Skip(l.fields[f].elementSize, k)
    ensures start + l.fields[f].elementSize <= |data|
    ensures RecordElem(l, Chunks(l.totalSize, data, R)[i], f, k)
         == DecodeElem(l.fields[f].vt, data[start .. start + l.fields[f].elementSize])
  {
    ChunkAt(l.totalSize, data, R, i);
    RecordElemAt(l, data, Skip(l.totalSize, i), f, k, start);
  }

  /** Element k of field f read from the field's own bytes, as the
      decoders take it: the elementSize bytes at k element sizes into the
      field; for a one-byte type that is the byte itself. */
  lemma {:induction false} FieldSliceElem(l: PcdLayout, rec: seq<byte>, f: nat, k: nat)
    requires FieldsFit(l) && |rec| == l.totalSize && f < |l.fields| && k < l.fields[f].count
    ensures var fl := l.fields[f];
      var es := fl.elementSize;
      es == Size(fl.vt) && fl.offset + fl.size <= |rec| && k * es + es <= fl.size
      && var field := rec[fl.offset .. fl.offset + fl.size];
      FieldElem(l, rec, f, k) == DecodeElem(fl.vt, field[k * es .. k * es + es])
      && (es == 1 ==> field[k * es .. k * es + es] == [field[k]])
  {
    var fl := l.fields[f];
    var es := fl.elementSize;
    SkipIsProduct(es, k);
    SkipMono(es, k + 1, fl.count);
    SliceOfSlice(rec, fl.offset, fl.offset + fl.size, k * es, k * es + es, fl.offset + k * es, fl.offset + k * es + es);
    if es == 1 {
      var field := rec[fl.offset .. fl.offset + fl.size];
      assert field[k * es .. k * es + es] == [field[k]];
    }
  }

  // ----- the store, record by record -----

  /** A layout field and the store slot its values go to. */
  datatype Target = Target(field: nat, slot: nat)

  /** Both column lists have the same columns up to their values. */
  predicate SameShape(a: seq<Column>, b: seq<Column>)
  {
    |a| == |b| && forall s :: 0 <= s < |a| ==> TypeOf(a[s]) == TypeOf(b[s]) && Len(a[s]) == Len(b[s])
  }

  /** The type and length of each column: two stores of one shape differ
      only in their values. */
  function Shape(cols: seq<Column>): (sh: seq<(ValueType, nat)>)
    ensures |sh| == |cols|
  {
    seq(|cols|, s requires 0 <= s < |cols| => (TypeOf(cols[s]), Len(cols[s])))
  }

  lemma {:induction false} ShapeAt(a: seq<Column>, b: seq<Column>, s: nat)
    requires Shape(a) == Shape(b) && s < |a|
    ensures TypeOf(a[s]) == TypeOf(b[s]) && Len(a[s]) == Len(b[s])
  {
    assert Shape(a)[s] == Shape(b)[s];
  }

  lemma {:induction false} ShapeSame(a: seq<Column>, b: seq<Column>)
    requires Shape(a) == Shape(b)
    ensures SameShape(a, b)
  {
    forall s | 0 <= s < |a|
      ensures TypeOf(a[s]) == TypeOf(b[s]) && Len(a[s]) == Len(b[s])
    {
      ShapeAt(a, b, s);
    }
  }

  /** The target names a field and a slot with room for R records of the
      field: R times its count elements, laid end to end. */
  predicate TargetRoom(cols: seq<Column>, l: PcdLayout, tg: Target, R: nat)
  {
    tg.field < |l.fields| && tg.slot < |cols| && Skip(l.fields[tg.field].count, R) <= Len(cols[tg.slot])
  }

  predicate TargetsRoom(cols: seq<Column>, l: PcdLayout, targets: seq<Target>, R: nat)
  {
    forall t :: 0 <= t < |targets| ==> TargetRoom(cols, l, targets[t], R)
  }

  lemma {:induction false} TargetsRoomShape(a: seq<Column>, b: seq<Column>, l: PcdLayout, targets: seq<Target>, R: nat)
    requires TargetsRoom(a, l, targets, R) && Shape(b) == Shape(a)
    ensures TargetsRoom(b, l, targets, R)
  {
    forall t | 0 <= t < |targets|
      ensures TargetRoom(b, l, targets[t], R)
    {
      assert TargetRoom(a, l, targets[t], R);
      ShapeAt(a, b, targets[t].slot);
    }
  }

  /** Room for R records is room for fewer. */
  lemma {:induction false} TargetsRoomFewer(cols: seq<Column>, l: PcdLayout, targets: seq<Target>, R: nat, R': nat)
    requires TargetsRoom(cols, l, targets, R) && R' <= R
    ensures TargetsRoom(cols, l, targets, R')
  {
    forall t | 0 <= t < |targets|
      ensures TargetRoom(cols, l, targets[t], R')
    {
      assert TargetRoom(cols, l, targets[t], R);
      SkipMono(l.fields[targets[t].field].count, R', R);
    }
  }

  lemma {:induction false} TargetsFields(cols: seq<Column>, l: PcdLayout, targets: seq<Target>, R: nat)
    requires TargetsRoom(cols, l, targets, R)
    ensures forall u :: 0 <= u < |targets| ==> targets[u].field < |l.fields|
  {
    forall u | 0 <= u < |targets|
      ensures targets[u].field < |l.fields|
    {
      assert TargetRoom(cols, l, targets[u], R);
    }
  }

  /** Every target's slot holds values of its field's type. */
  predicate TargetsTyped(cols: seq<Column>, l: PcdLayout, targets: seq<Target>)
  {
    forall t :: 0 <= t < |targets| ==>
      targets[t].field < |l.fields| && targets[t].slot < |cols|
      && TypeOf(cols[targets[t].slot]) == l.fields[targets[t].field].vt
  }

  lemma {:induction false} TargetsTypedShape(a: seq<Column>, b: seq<Column>, l: PcdLayout, targets: seq<Target>)
    requires TargetsTyped(a, l, targets) && Shape(b) == Shape(a)
    ensures TargetsTyped(b, l, targets)
  {
    forall t | 0 <= t < |targets|
      ensures targets[t].field < |l.fields| && targets[t].slot < |b|
              && TypeOf(b[targets[t].slot]) == l.fields[targets[t].field].vt
    {
      ShapeAt(a, b, targets[t].slot);
    }
  }

  /** Element k of field f of record rec, as the decoders store it: its
      decoded bytes when the record holds it (and 0, never stored,
      otherwise). */
  function FieldElem(l: PcdLayout, rec: seq<byte>, f: nat, k: nat): (v: int)
    ensures f < |l.fields| ==> InRange(l.fields[f].vt, v)
  {
    if FieldsFit(l) && |rec| == l.totalSize && f < |l.fields| && k < l.fields[f].count
    then RecordElem(l, rec, f, k) else 0
  }

  /** Store v at element j of slot s. */
  function WriteElem(cols: seq<Column>, s: nat, j: nat, v: int): (r: seq<Column>)
    requires s < |cols| && j < Len(cols[s])
    ensures SameShape(r, cols)
    ensures r[s] == SetAt(cols[s], j, v)
    ensures forall s' :: 0 <= s' < |cols| && s' != s ==> r[s'] == cols[s']
  {
    cols[s := SetAt(cols[s], j, v)]
  }

  /** Column c after elements 0 .. k-1 of field f of record i: element k'
      at i*count+k' (Skip(count, i), the product by SkipIsProduct, keeps
      these positions linear), every other element unchanged. */
  function FieldDone(c: Column, l: PcdLayout, rec: seq<byte>, i: nat, f: nat, k: nat): (r: Column)
    requires f < |l.fields| && k <= l.fields[f].count && Skip(l.fields[f].count, i) + k <= Len(c)
    ensures TypeOf(r) == TypeOf(c) && Len(r) == Len(c)
  {
    var b := Skip(l.fields[f].count, i);
    Column(c.vt, seq(|c.elems|, j requires 0 <= j < |c.elems| =>
                       if b <= j < b + k then FieldElem(l, rec, f, j - b) else c.elems[j]))
  }

  /** One more element: storing element k at i*count+k extends the
      elements stored by one. */
  lemma {:induction false} FieldDoneNext(c: Column, l: PcdLayout, rec: seq<byte>, i: nat, f: nat, k: nat)
    requires f < |l.fields| && k < l.fields[f].count && Skip(l.fields[f].count, i) + k < Len(c)
    ensures SetAt(FieldDone(c, l, rec, i, f, k), Skip(l.fields[f].count, i) + k, FieldElem(l, rec, f, k))
         == FieldDone(c, l, rec, i, f, k + 1)
  {
    var b := Skip(l.fields[f].count, i);
    var x := SetAt(FieldDone(c, l, rec, i, f, k), b + k, FieldElem(l, rec, f, k));
    var y := FieldDone(c, l, rec, i, f, k + 1);
    assert Values(x) == Values(y);
    ColumnExtensional(x, y);
  }

  /** Before the first element the column is as it was. */
  lemma {:induction false} FieldDoneNone(c: Column, l: PcdLayout, rec: seq<byte>, i: nat, f: nat)
    requires f < |l.fields| && Skip(l.fields[f].count, i) <= Len(c)
    ensures FieldDone(c, l, rec, i, f, 0) == c
  {
    assert Values(FieldDone(c, l, rec, i, f, 0)) == Values(c);
    ColumnExtensional(FieldDone(c, l, rec, i, f, 0), c);
  }

  /** The store after target tg's field of record i: all its elements, in
      the target's slot. */
  function TargetDone(cols: seq<Column>, l: PcdLayout, rec: seq<byte>, i: nat, tg: Target): (r: seq<Column>)
    requires TargetRoom(cols, l, tg, i + 1)
    ensures Shape(r) == Shape(cols)
  {
    cols[tg.slot := FieldDone(cols[tg.slot], l, rec, i, tg.field, l.fields[tg.field].count)]
  }

  /** The store after targets 0 .. t-1 of record i. */
  function RowDone(cols: seq<Column>, l: PcdLayout, rec: seq<byte>, i: nat, targets: seq<Target>, t: nat): (r: seq<Column>)
    requires TargetsRoom(cols, l, targets, i + 1) && t <= |targets|
    ensures Shape(r) == Shape(cols)
  {
    if t == 0 then cols
    else
      var prev := RowDone(cols, l, rec, i, targets, t - 1);
      TargetsRoomShape(cols, prev, l, targets, i + 1);
      assert TargetRoom(prev, l, targets[t - 1], i + 1);
      TargetDone(prev, l, rec, i, targets[t - 1])
  }

  /** The store after records 0 .. R-1. */
  function RowsDone(cols: seq<Column>, l: PcdLayout, recs: seq<seq<byte>>, targets: seq<Target>, R: nat): (r: seq<Column>)
    requires TargetsRoom(cols, l, targets, R) && R <= |recs|
    ensures Shape(r) == Shape(cols)
  {
    if R == 0 then cols
    else
      TargetsRoomFewer(cols, l, targets, R, R - 1);
      var prev := RowsDone(cols, l, recs, targets, R - 1);
      TargetsRoomShape(cols, prev, l, targets, R);
      RowDone(prev, l, recs[R - 1], R - 1, targets, |targets|)
  }

  /** One step of RowDone: target t's elements over the first t, whose
      store is prev. */
  lemma {:induction false} RowDoneStep(cols: seq<Column>, l: PcdLayout, rec: seq<byte>, i: nat, targets: seq<Target>, t: nat,
                    prev: seq<Column>, u: nat)
    requires TargetsRoom(cols, l, targets, i + 1) && t < |targets| && u == t + 1
    requires prev == RowDone(cols, l, rec, i, targets, t)
    ensures TargetRoom(prev, l, targets[t], i + 1)
    ensures RowDone(cols, l, rec, i, targets, u) == TargetDone(prev, l, rec, i, targets[t])
  {
    TargetsRoomShape(cols, prev, l, targets, i + 1);
  }

  /** One more record: the store after records 0 .. i0 is record i0
      stored over the store after records 0 .. i0-1. */
  lemma {:induction false} RowsDoneNext(cols: seq<Column>, l: PcdLayout, recs: seq<seq<byte>>, targets: seq<Target>, i0: nat, i: nat)
    requires i == i0 + 1 && TargetsRoom(cols, l, targets, i) && i0 < |recs|
    ensures TargetsRoom(cols, l, targets, i0)
    ensures TargetsRoom(RowsDone(cols, l, recs, targets, i0), l, targets, i)
    ensures RowsDone(cols, l, recs, targets, i)
         == RowDone(RowsDone(cols, l, recs, targets, i0), l, recs[i0], i0, targets, |targets|)
  {
    TargetsRoomFewer(cols, l, targets, i, i0);
    TargetsRoomShape(cols, RowsDone(cols, l, recs, targets, i0), l, targets, i);
  }

  // ----- the values stored -----

  /** No two targets share a slot. */
  predicate DistinctSlots(targets: seq<Target>)
  {
    forall a, b :: 0 <= a < b < |targets| ==> targets[a].slot != targets[b].slot
  }

  /** The last of targets 0 .. t-1 that writes slot s, or -1 when none
      does. */
  function LastOwner(targets: seq<Target>, s: nat, t: nat): (u: int)
    requires t <= |targets|
    ensures -1 <= u < t
    ensures u >= 0 ==> targets[u].slot == s
  {
    if t == 0 then -1 else if targets[t - 1].slot == s then t - 1 else LastOwner(targets, s, t - 1)
  }

  /** A slot none of targets 0 .. t-1 writes has no owner. */
  lemma {:induction false} LastOwnerNone(targets: seq<Target>, s: nat, t: nat)
    requires t <= |targets| && forall v :: 0 <= v < t ==> targets[v].slot != s
    ensures LastOwner(targets, s, t) == -1
    decreases t
  {
    if t > 0 {
      LastOwnerNone(targets, s, t - 1);
    }
  }

  /** With distinct slots, target u is the owner of its slot. */
  lemma {:induction false} OwnerDistinct(targets: seq<Target>, u: nat, t: nat)
    requires DistinctSlots(targets) && u < t <= |targets|
    ensures LastOwner(targets, targets[u].slot, t) == u
    decreases t
  {
    if u < t - 1 {
      assert targets[u].slot != targets[t - 1].slot;
      OwnerDistinct(targets, u, t - 1);
    }
  }

  /** The store after targets 0 .. t-1 of record i when no two share a slot:
      each slot holds its owner's elements over its old column. */
  function RowOwned(cols: seq<Column>, l: PcdLayout, rec: seq<byte>, i: nat, targets: seq<Target>, t: nat): (r: seq<Column>)
    requires TargetsRoom(cols, l, targets, i + 1) && t <= |targets|
    ensures |r| == |cols|
  {
    seq(|cols|, s requires 0 <= s < |cols| =>
      var u := LastOwner(targets, s, t);
      if u < 0 then cols[s]
      else
        assert TargetRoom(cols, l, targets[u], i + 1);
        FieldDone(cols[s], l, rec, i, targets[u].field, l.fields[targets[u].field].count))
  }

  /** With distinct slots no target before t writes target t's slot. */
  lemma {:induction false} OwnerFirst(targets: seq<Target>, t: nat)
    requires DistinctSlots(targets) && t < |targets|
    ensures LastOwner(targets, targets[t].slot, t) == -1
  {
    assert forall v :: 0 <= v < t ==> targets[v].slot != targets[t].slot;
    LastOwnerNone(targets, targets[t].slot, t);
  }

  /** Storing target t's field over RowOwned of the targets before it gives
      RowOwned of one more target. */
  lemma {:induction false} RowOwnedNext(cols: seq<Column>, l: PcdLayout, rec: seq<byte>, i: nat, targets: seq<Target>, t: nat)
    requires TargetsRoom(cols, l, targets, i + 1) && t < |targets| && DistinctSlots(targets)
    ensures TargetRoom(RowOwned(cols, l, rec, i, targets, t), l, targets[t], i + 1)
    ensures TargetDone(RowOwned(cols, l, rec, i, targets, t), l, rec, i, targets[t])
         == RowOwned(cols, l, rec, i, targets, t + 1)
  {
    var tg := targets[t];
    assert TargetRoom(cols, l, tg, i + 1);
    OwnerFirst(targets, t);
    var a := TargetDone(RowOwned(cols, l, rec, i, targets, t), l, rec, i, tg);
    var b := RowOwned(cols, l, rec, i, targets, t + 1);
    assert |a| == |b|;
    forall s | 0 <= s < |cols|
      ensures a[s] == b[s]
    {
    }
  }

  /** With distinct slots the field loop's store is RowOwned: each field is
      written once, into its own slot. */
  lemma {:induction false} RowDoneOwned(cols: seq<Column>, l: PcdLayout, rec: seq<byte>, i: nat, targets: seq<Target>, t: nat)
    requires TargetsRoom(cols, l, targets, i + 1) && t <= |targets| && DistinctSlots(targets)
    ensures RowDone(cols, l, rec, i, targets, t) == RowOwned(cols, l, rec, i, targets, t)
    decreases t
  {
    if t > 0 {
      var g := t - 1;
      var prev := RowDone(cols, l, rec, i, targets, g);
      RowDoneOwned(cols, l, rec, i, targets, g);
      RowDoneStep(cols, l, rec, i, targets, g, prev, t);
      RowOwnedNext(cols, l, rec, i, targets, g);
      assert g + 1 == t;
    }
  }

  /** Target u's slot once record i's fields are stored. */
  lemma {:induction false} RowDoneSlot(cols: seq<Column>, l: PcdLayout, rec: seq<byte>, i: nat, targets: seq<Target>, u: nat)
    requires TargetsRoom(cols, l, targets, i + 1) && DistinctSlots(targets) && u < |targets|
    ensures var tg := targets[u];
      TargetRoom(cols, l, tg, i + 1)
      && RowDone(cols, l, rec, i, targets, |targets|)[tg.slot]
         == FieldDone(cols[tg.slot], l, rec, i, tg.field, l.fields[tg.field].count)
  {
    assert TargetRoom(cols, l, targets[u], i + 1);
    RowDoneOwned(cols, l, rec, i, targets, |targets|);
    OwnerDistinct(targets, u, |targets|);
  }

  /** A slot no target names is left as it was. */
  lemma {:induction false} RowDoneUnowned(cols: seq<Column>, l: PcdLayout, rec: seq<byte>, i: nat, targets: seq<Target>, s: nat)
    requires TargetsRoom(cols, l, targets, i + 1) && DistinctSlots(targets)
    requires forall v :: 0 <= v < |targets| ==> targets[v].slot != s
    requires s < |cols|
    ensures RowDone(cols, l, rec, i, targets, |targets|)[s] == cols[s]
  {
    RowDoneOwned(cols, l, rec, i, targets, |targets|);
    LastOwnerNone(targets, s, |targets|);
  }

  /** Record R-1 over the store after the records before it, seen in target
      u's slot. */
  lemma {:induction false} RowsDoneLast(cols: seq<Column>, l: PcdLayout, recs: seq<seq<byte>>, targets: seq<Target>, R: nat, u: nat)
    requires TargetsRoom(cols, l, targets, R) && 0 < R <= |recs| && DistinctSlots(targets) && u < |targets|
    ensures TargetsRoom(cols, l, targets, R - 1)
    ensures var tg := targets[u];
      var prev := RowsDone(cols, l, recs, targets, R - 1);
      TargetRoom(prev, l, tg, R)
      && RowsDone(cols, l, recs, targets, R)[tg.slot]
         == FieldDone(prev[tg.slot], l, recs[R - 1], R - 1, tg.field, l.fields[tg.field].count)
  {
    RowsDoneNext(cols, l, recs, targets, R - 1, R);
    RowDoneSlot(RowsDone(cols, l, recs, targets, R - 1), l, recs[R - 1], R - 1, targets, u);
  }

  /** With distinct slots, after records 0 .. R-1 element i*count+k of
      target u's slot holds element k of u's field in record i. */
  lemma {:induction false} RowsDoneElem(cols: seq<Column>, l: PcdLayout, recs: seq<seq<byte>>, targets: seq<Target>,
                                        R: nat, u: nat, i: nat, k: nat)
    requires TargetsRoom(cols, l, targets, R) && R <= |recs| && DistinctSlots(targets)
    requires u < |targets| && i < R
    requires targets[u].field < |l.fields| && k < l.fields[targets[u].field].count
    ensures var tg := targets[u];
      var c := l.fields[tg.field].count;
      tg.slot < |cols| && Skip(c, i) + k < Len(cols[tg.slot])
      && Len(RowsDone(cols, l, recs, targets, R)[tg.slot]) == Len(cols[tg.slot])
      && Values(RowsDone(cols, l, recs, targets, R)[tg.slot])[Skip(c, i) + k] == FieldElem(l, recs[i], tg.field, k)
    decreases R
  {
    var tg := targets[u];
    var c := l.fields[tg.field].count;
    assert TargetRoom(cols, l, tg, R);
    ShapeAt(RowsDone(cols, l, recs, targets, R), cols, tg.slot);
    SkipMono(c, i + 1, R);
    RowsDoneLast(cols, l, recs, targets, R, u);
    if i < R - 1 {
      SkipMono(c, i + 1, R - 1);
      RowsDoneElem(cols, l, recs, targets, R - 1, u, i, k);
    }
  }

  /** With distinct slots, the elements of target u's slot from R*count on
      keep their old values. */
  lemma {:induction false} RowsDoneBeyond(cols: seq<Column>, l: PcdLayout, recs: seq<seq<byte>>, targets: seq<Target>,
                                          R: nat, u: nat, j: nat)
    requires TargetsRoom(cols, l, targets, R) && R <= |recs| && DistinctSlots(targets)
    requires u < |targets| && targets[u].field < |l.fields| && targets[u].slot < |cols|
    requires Skip(l.fields[targets[u].field].count, R) <= j < Len(cols[targets[u].slot])
    ensures Len(RowsDone(cols, l, recs, targets, R)[targets[u].slot]) == Len(cols[targets[u].slot])
    ensures Values(RowsDone(cols, l, recs, targets, R)[targets[u].slot])[j] == Values(cols[targets[u].slot])[j]
    decreases R
  {
    ShapeAt(RowsDone(cols, l, recs, targets, R), cols, targets[u].slot);
    if R > 0 {
      SkipMono(l.fields[targets[u].field].count, R - 1, R);
      RowsDoneLast(cols, l, recs, targets, R, u);
      RowsDoneBeyond(cols, l, recs, targets, R - 1, u, j);
    }
  }

  /** A slot no target names keeps its column through every record. */
  lemma {:induction false} RowsDoneUnowned(cols: seq<Column>, l: PcdLayout, recs: seq<seq<byte>>, targets: seq<Target>,
                                           R: nat, s: nat)
    requires TargetsRoom(cols, l, targets, R) && R <= |recs| && DistinctSlots(targets)
    requires forall v :: 0 <= v < |targets| ==> targets[v].slot != s
    requires s < |cols|
    ensures RowsDone(cols, l, recs, targets, R)[s] == cols[s]
    decreases R
  {
    if R > 0 {
      RowsDoneNext(cols, l, recs, targets, R - 1, R);
      var prev := RowsDone(cols, l, recs, targets, R - 1);
      RowDoneUnowned(prev, l, recs[R - 1], R - 1, targets, s);
      RowsDoneUnowned(cols, l, recs, targets, R - 1, s);
    }
  }

  // ----- the store stays well typed -----

  /** Storing a field's elements in a column of its type keeps the column
      well typed. */
  lemma {:induction false} FieldDoneTyped(c: Column, l: PcdLayout, rec: seq<byte>, i: nat, f: nat, k: nat)
    requires f < |l.fields| && k <= l.fields[f].count && Skip(l.fields[f].count, i) + k <= Len(c)
    requires TypeOf(c) == l.fields[f].vt && WellTyped(c)
    ensures WellTyped(FieldDone(c, l, rec, i, f, k))
  {
    var r := FieldDone(c, l, rec, i, f, k);
    var b := Skip(l.fields[f].count, i);
    forall j | 0 <= j < |r.elems|
      ensures InRange(r.vt, r.elems[j])
    {
      if b <= j < b + k {
        assert r.elems[j] == FieldElem(l, rec, f, j - b);
      } else {
        assert r.elems[j] == c.elems[j];
      }
    }
  }

  lemma {:induction false} RowDoneTyped(cols: seq<Column>, l: PcdLayout, rec: seq<byte>, i: nat, targets: seq<Target>, t: nat)
    requires TargetsRoom(cols, l, targets, i + 1) && t <= |targets|
    requires TargetsTyped(cols, l, targets) && AllTyped(cols)
    ensures AllTyped(RowDone(cols, l, rec, i, targets, t))
    decreases t
  {
    if t > 0 {
      RowDoneTyped(cols, l, rec, i, targets, t - 1);
      var prev := RowDone(cols, l, rec, i, targets, t - 1);
      RowDoneStep(cols, l, rec, i, targets, t - 1, prev, t);
      TargetsTypedShape(cols, prev, l, targets);
      var tg := targets[t - 1];
      FieldDoneTyped(prev[tg.slot], l, rec, i, tg.field, l.fields[tg.field].count);
    }
  }

  /** Decoding keeps every column well typed: each element is its old
      value or an element decoded as the slot's own type. */
  lemma {:induction false} RowsDoneTyped(cols: seq<Column>, l: PcdLayout, recs: seq<seq<byte>>, targets: seq<Target>, R: nat)
    requires TargetsRoom(cols, l, targets, R) && R <= |recs|
    requires TargetsTyped(cols, l, targets) && AllTyped(cols)
    ensures AllTyped(RowsDone(cols, l, recs, targets, R))
    decreases R
  {
    if R > 0 {
      TargetsRoomFewer(cols, l, targets, R, R - 1);
      RowsDoneTyped(cols, l, recs, targets, R - 1);
      var prev := RowsDone(cols, l, recs, targets, R - 1);
      TargetsRoomShape(cols, prev, l, targets, R);
      TargetsTypedShape(cols, prev, l, targets);
      RowDoneTyped(prev, l, recs[R - 1], R - 1, targets, |targets|);
    }
  }

  // ----- from a layout and a store to targets -----

  /** The layout's field names, in order. */
  function FieldNames(l: PcdLayout): (names: seq<string>)
    ensures |names| == |l.fields| && forall f :: 0 <= f < |l.fields| ==> names[f] == l.fields[f].name
  {
    seq(|l.fields|, f requires 0 <= f < |l.fields| => l.fields[f].name)
  }

  /** Every layout field has a column of that name in the index. */
  predicate AllPresent(l: PcdLayout, index: map<string, nat>)
  {
    forall f :: 0 <= f < |l.fields| ==> l.fields[f].name in index
  }

  /** An index whose slots lie inside the column list. */
  predicate IndexInto(index: map<string, nat>, cols: seq<Column>)
  {
    forall name :: name in index ==> index[name] < |cols|
  }

  /** Every field whose column exists finds a column of its own type there
      (the decoders unwrap the typed accessor, which panics otherwise). */
  predicate TypesAgree(l: PcdLayout, cols: seq<Column>, index: map<string, nat>)
    requires IndexInto(index, cols)
  {
    forall f :: 0 <= f < |l.fields| && l.fields[f].name in index ==>
      TypeOf(cols[index[l.fields[f].name]]) == l.fields[f].vt
  }

  /** Field f of the layout goes to the slot of its name. */
  function Targets(l: PcdLayout, index: map<string, nat>): (ts: seq<Target>)
    requires AllPresent(l, index)
    ensures |ts| == |l.fields|
    ensures forall f :: 0 <= f < |l.fields| ==> ts[f] == Target(f, index[l.fields[f].name])
  {
    seq(|l.fields|, f requires 0 <= f < |l.fields| => Target(f, index[l.fields[f].name]))
  }

  /** Every column resized to n, as `PointBlock::resize` leaves them. */
  function ResizedAll(cols: seq<Column>, n: nat): (r: seq<Column>)
    ensures |r| == |cols| && forall s :: 0 <= s < |cols| ==> r[s] == Resized(cols[s], n)
  {
    seq(|cols|, s requires 0 <= s < |cols| => Resized(cols[s], n))
  }

  /** After the resize to n, every field has room in its column for the
      records that fit in n rows. */
  lemma {:induction false} TargetsRoomResized(l: PcdLayout, cols: seq<Column>, index: map<string, nat>, R: nat, n: nat)
    requires IndexInto(index, cols) && AllPresent(l, index) && RecordsFit(l, index, R, n)
    ensures TargetsRoom(ResizedAll(cols, n), l, Targets(l, index), R)
  {
    var ts := Targets(l, index);
    forall t | 0 <= t < |ts|
      ensures TargetRoom(ResizedAll(cols, n), l, ts[t], R)
    {
      assert ts[t] == Target(t, index[l.fields[t].name]);
    }
  }

  /** And every field's column has its type when the types agree. */
  lemma {:induction false} TargetsTypedResized(l: PcdLayout, cols: seq<Column>, index: map<string, nat>, n: nat)
    requires IndexInto(index, cols) && AllPresent(l, index) && TypesAgree(l, cols, index)
    ensures TargetsTyped(ResizedAll(cols, n), l, Targets(l, index))
  {
    var ts := Targets(l, index);
    forall t | 0 <= t < |ts|
      ensures ts[t].field < |l.fields| && ts[t].slot < |cols|
      ensures TypeOf(ResizedAll(cols, n)[ts[t].slot]) == l.fields[ts[t].field].vt
    {
      assert ts[t] == Target(t, index[l.fields[t].name]);
    }
  }

  /** Distinct field names over the store index give distinct slots. */
  lemma {:induction false} TargetsDistinct(l: PcdLayout, schema: seq<string>)
    requires AllPresent(l, IndexMap(schema)) && Distinct(FieldNames(l))
    ensures DistinctSlots(Targets(l, IndexMap(schema)))
  {
    var index := IndexMap(schema);
    forall a, b | 0 <= a < b < |l.fields|
      ensures index[l.fields[a].name] != index[l.fields[b].name]
    {
      IndexMapLast(schema, l.fields[a].name);
      IndexMapLast(schema, l.fields[b].name);
      assert FieldNames(l)[a] != FieldNames(l)[b];
    }
  }
}

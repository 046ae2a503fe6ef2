/** The parallel binary decoder (src/decoder/binary_par.rs). It checks the
    buffer holds all n records up front, resizes the store, collects one
    (field, column) pair per layout field whose column exists (others are
    skipped, not reported), and then decodes the whole `total_size` chunks
    of the buffer independently; a chunk whose index is n or more is
    ignored. Chunks write disjoint rows, so the model visits them in order. */
module ParallelDecoder {
  import opened Errors
  import opened Bytes
  import opened Layout
  import opened Storage
  import opened Records
  import opened BinaryDecoder

  /** The (field, slot) pairs of fields 0 .. f-1 that have a column in the
      index, in layout order. */
  function PresentTargets(l: PcdLayout, index: map<string, nat>, f: nat): (ts: seq<Target>)
    requires f <= |l.fields|
    ensures forall u :: 0 <= u < |ts| ==>
      ts[u].field < f && l.fields[ts[u].field].name in index && ts[u].slot == index[l.fields[ts[u].field].name]
  {
    if f == 0 then []
    else
      var name := l.fields[f - 1].name;
      PresentTargets(l, index, f - 1) + (if name in index then [Target(f - 1, index[name])] else [])
  }

  /** With every field present these are exactly the sequential decoder's
      targets. */
  lemma {:induction false} PresentTargetsAll(l: PcdLayout, index: map<string, nat>, f: nat)
    requires f <= |l.fields| && AllPresent(l, index)
    ensures PresentTargets(l, index, f) == Targets(l, index)[..f]
    decreases f
  {
    if f > 0 {
      PresentTargetsAll(l, index, f - 1);
      assert Targets(l, index)[..f] == Targets(l, index)[..f - 1] + [Target(f - 1, index[l.fields[f - 1].name])];
    }
  }

  /** Every collected pair has room in the resized store for the records
      that fit in n rows. */
  lemma {:induction false} PresentTargetsRoom(l: PcdLayout, cols: seq<Column>, index: map<string, nat>, R: nat, n: nat)
    requires IndexInto(index, cols) && RecordsFit(l, index, R, n)
    ensures TargetsRoom(ResizedAll(cols, n), l, PresentTargets(l, index, |l.fields|), R)
  {
    var ts := PresentTargets(l, index, |l.fields|);
    forall u | 0 <= u < |ts|
      ensures TargetRoom(ResizedAll(cols, n), l, ts[u], R)
    {
      var f := ts[u].field;
      assert f < |l.fields| && l.fields[f].name in index;
      SkipIsProduct(l.fields[f].count, R);
    }
  }

  /** And every collected pair's column has its field's type when the
      types agree. */
  lemma {:induction false} PresentTargetsTyped(l: PcdLayout, cols: seq<Column>, index: map<string, nat>, n: nat)
    requires IndexInto(index, cols) && TypesAgree(l, cols, index)
    ensures TargetsTyped(ResizedAll(cols, n), l, PresentTargets(l, index, |l.fields|))
  {
    var ts := PresentTargets(l, index, |l.fields|);
    forall u | 0 <= u < |ts|
      ensures ts[u].field < |l.fields| && ts[u].slot < |cols|
      ensures TypeOf(ResizedAll(cols, n)[ts[u].slot]) == l.fields[ts[u].field].vt
    {
      var f := ts[u].field;
      assert f < |l.fields| && l.fields[f].name in index;
    }
  }

  /** The store after a successful parallel decode of n points from data:
      every column resized to n, then chunk i stored through the collected
      pairs for each i < n. */
  function ParDecoded(cols: seq<Column>, index: map<string, nat>, l: PcdLayout, n: nat, data: seq<byte>): (r: seq<Column>)
    requires IndexInto(index, cols) && RecordsFit(l, index, n, n)
    requires HoldsRecords(l.totalSize, |data|, n)
    ensures |r| == |cols| && forall s :: 0 <= s < |cols| ==> TypeOf(r[s]) == TypeOf(cols[s]) && Len(r[s]) == n
  {
    PresentTargetsRoom(l, cols, index, n, n);
    var r := RowsDone(ResizedAll(cols, n), l, Chunks(l.totalSize, data, n), PresentTargets(l, index, |l.fields|), n);
    ShapeSame(r, ResizedAll(cols, n));
    r
  }

  /** The loop that collects `col_ptrs`: one pair per field whose
      column `get_column_mut` finds. */
  method CollectTargets(l: PcdLayout, output: PointBlock) returns (targets: seq<Target>)
    ensures targets == PresentTargets(l, output.nameToIndex, |l.fields|)
  {
    targets := [];
    for f := 0 to |l.fields|
      invariant targets == PresentTargets(l, output.nameToIndex, f)
    {
      var name := l.fields[f].name;
      if name in output.nameToIndex {
        targets := targets + [Target(f, output.nameToIndex[name])];
      }
    }
  }

  /** The `par_chunks_exact` loop: every whole chunk of the buffer in turn;
      chunk i < n is stored through the collected pairs (the per-field
      `i >= len` test, all columns having length n), the rest are ignored.
      Chunks write disjoint elements (i*count+k with count at most one
      once n records fit n rows), so the order of the chunks does not
      matter and the model visits them in order. */
  method ReadChunks(l: PcdLayout, n: nat, data: seq<byte>, targets: seq<Target>, cols: seq<Column>)
    returns (cols': seq<Column>)
    requires FieldsFit(l) && l.totalSize > 0 && TargetsRoom(cols, l, targets, n)
    requires HoldsRecords(l.totalSize, |data|, n)
    ensures cols' == RowsDone(cols, l, Chunks(l.totalSize, data, n), targets, n)
  {
    var stride := l.totalSize;
    ghost var recs := Chunks(stride, data, n);
    ghost var left := n;
    ghost var done := 0;
    var rest := data;
    cols' := cols;
    var i := 0;
    while stride <= |rest|
      invariant done == i <= n || (done == n < i)
      invariant done < n ==> done + left == n && HoldsRecords(stride, |rest|, left) && recs[done..] == Chunks(stride, rest, left)
      invariant cols' == Stored(cols, l, recs, targets, n, done)
      decreases |rest|
    {
      ghost var rest0 := rest;
      if i < n {
        var buffer := rest[..stride];
        NextRecord(stride, data, n, recs, i, rest, left);
        assert buffer == recs[done];
        Advance(cols, l, recs, targets, n, i);
        cols' := StoreRecord(l, buffer, i, targets, cols');
        left := left - 1;
        done := done + 1;
        ChunksAdvanced(stride, recs, i, rest0, done, rest0[stride..], left);
      }
      rest := rest[stride..];
      i := i + 1;
    }
  }

  /** `BinaryParallelDecoder::decode_par`. A chunk size of zero makes
      `par_chunks_exact` panic, hence total_size > 0. The chunks write
      through raw pointers with the field's own type at i*count+k, so the
      records must fit n rows and each collected column must have its
      field's type whenever there is a record to write. */
  method DecodePar(l: PcdLayout, n: nat, data: seq<byte>, output: PointBlock) returns (r: Result<()>)
    requires output.Valid() && FieldsFit(l) && l.totalSize > 0
    requires IndexInto(output.nameToIndex, output.columns)
    requires l.totalSize * n <= |data| ==>
      RecordsFit(l, output.nameToIndex, n, n) && (n > 0 ==> TypesAgree(l, output.columns, output.nameToIndex))
    modifies output
    ensures output.Valid() && output.schema == old(output.schema) && output.nameToIndex == old(output.nameToIndex)
    ensures |data| < l.totalSize * n ==>
      r == Err(BufferTooSmall(l.totalSize * n, |data|))
      && output.columns == old(output.columns) && output.len == old(output.len)
    ensures l.totalSize * n <= |data| ==>
      HoldsRecords(l.totalSize, |data|, n)
      && r == Ok(()) && output.len == n
      && output.columns == ParDecoded(old(output.columns), old(output.nameToIndex), l, n, data)
  {
    var totalBytes := l.totalSize * n;
    if |data| < totalBytes {
      return Err(BufferTooSmall(totalBytes, |data|));
    }
    HoldsRecordsIff(l.totalSize, |data|, n);
    ghost var cols0 := output.columns;
    output.Resize(n);
    assert output.columns == ResizedAll(cols0, n);
    var targets := CollectTargets(l, output);
    PresentTargetsRoom(l, cols0, output.nameToIndex, n, n);
    if n > 0 {
      PresentTargetsTyped(l, cols0, output.nameToIndex, n);
      RowsDoneTyped(output.columns, l, Chunks(l.totalSize, data, n), targets, n);
    }
    var cols := ReadChunks(l, n, data, targets, output.columns);
    output.columns := cols;
    r := Ok(());
  }

  // ----- properties -----

  /** When every layout field has a column and the buffer holds all n
      records, the parallel decode's store is the sequential decode's
      store (which the sequential decoder reaches when the field names are
      distinct, and fails to borrow otherwise). */
  lemma {:induction false} ParMatchesSequential(cols: seq<Column>, index: map<string, nat>, l: PcdLayout, n: nat, data: seq<byte>)
    requires IndexInto(index, cols) && AllPresent(l, index) && RecordsFit(l, index, n, n)
    requires HoldsRecords(l.totalSize, |data|, n)
    ensures RowsRead(l.totalSize, n, |data|) == n
    ensures ParDecoded(cols, index, l, n, data) == Decoded(cols, index, l, n, data)
  {
    PresentTargetsAll(l, index, |l.fields|);
    assert Targets(l, index)[..|l.fields|] == Targets(l, index);
    RowsReadAll(l.totalSize, n, |data|);
  }
}

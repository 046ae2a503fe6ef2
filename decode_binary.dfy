/** The sequential binary decoder (src/decoder/binary.rs): after checking
    that every layout field has a column, it resizes the store to the point
    count, borrows all field columns at once and then reads one record of
    `total_size` bytes per point, scattering each field's elements into its
    column at i * count + k. The byte stream is the sequence `data`, consumed
    from the front; a read that finds fewer than `total_size` bytes left
    fails with UnexpectedEof after the earlier records have been stored. */
module BinaryDecoder {
  import opened Errors
  import opened Bytes
  import opened Header
  import opened Layout
  import opened Elements
  import opened Storage
  import opened Records

  /** What the store's columns are after decoding n points from data,
      starting from columns cols indexed by index: every column resized to
      n, then the records actually read scattered into their columns in
      layout order. The records read must fit the resized columns (a
      record whose elements land past n makes the slice index panic). */
  function Decoded(cols: seq<Column>, index: map<string, nat>, l: PcdLayout, n: nat, data: seq<byte>): (r: seq<Column>)
    requires IndexInto(index, cols) && AllPresent(l, index)
    requires RecordsFit(l, index, RowsRead(l.totalSize, n, |data|), n)
    ensures |r| == |cols| && forall s :: 0 <= s < |cols| ==> TypeOf(r[s]) == TypeOf(cols[s]) && Len(r[s]) == n
  {
    var rows := RowsRead(l.totalSize, n, |data|);
    TargetsRoomResized(l, cols, index, rows, n);
    var r := RowsDone(ResizedAll(cols, n), l, Chunks(l.totalSize, data, rows), Targets(l, index), rows);
    ShapeSame(r, ResizedAll(cols, n));
    r
  }

  /** The `match field.type_` arm for one field of one record, on the
      borrowed columns (passed in and handed back). The U8 copy, the I8
      byte loop and the little-endian loops of the wider types all visit k
      in 0 .. count (a one-byte field has count bytes), and put element k
      at i * count + k of the borrowed column. */
  method StoreField(l: PcdLayout, buffer: seq<byte>, i: nat, tg: Target, cols: seq<Column>)
    returns (cols': seq<Column>)
    requires FieldsFit(l) && |buffer| == l.totalSize && TargetRoom(cols, l, tg, i + 1)
    ensures cols' == TargetDone(cols, l, buffer, i, tg)
  {
    var t, slot := tg.field, tg.slot;
    var fl := l.fields[t];
    var field := buffer[fl.offset .. fl.offset + fl.size];
    SkipIsProduct(fl.count, i);
    var destStart := i * fl.count;
    var c := cols[slot];
    FieldDoneNone(c, l, buffer, i, t);
    for k := 0 to fl.count
      invariant c == FieldDone(cols[slot], l, buffer, i, t, k)
    {
      var v := ReadElement(l, buffer, field, t, k);
      FieldDoneNext(cols[slot], l, buffer, i, t, k);
      c := SetAt(c, destStart + k, v);
    }
    cols' := cols[slot := c];
  }

  /** Element k of field t from the field's bytes: the U8 copy, the I8
      byte cast, or the little-endian read of the wider types. */
  method ReadElement(l: PcdLayout, buffer: seq<byte>, field: seq<byte>, t: nat, k: nat) returns (v: int)
    requires FieldsFit(l) && |buffer| == l.totalSize && t < |l.fields| && k < l.fields[t].count
    requires field == buffer[l.fields[t].offset .. l.fields[t].offset + l.fields[t].size]
    ensures v == FieldElem(l, buffer, t, k)
  {
    FieldSliceElem(l, buffer, t, k);
    var vt := l.fields[t].vt;
    var es := Size(vt);
    if vt == ValueType.U8 {
      v := field[k];
      ByteElements(field[k]);
    } else if vt == ValueType.I8 {
      var b := field[k];
      v := if b < 0x80 then b as int else b as int - 0x100;
      ByteElements(b);
    } else {
      v := DecodeElem(vt, field[k * es .. k * es + es]);
    }
  }

  /** One pass of the per-record loop: every (field, borrowed column)
      pair of record i, in order. */
  method StoreRecord(l: PcdLayout, buffer: seq<byte>, i: nat, targets: seq<Target>, cols: seq<Column>)
    returns (cols': seq<Column>)
    requires FieldsFit(l) && |buffer| == l.totalSize
    requires TargetsRoom(cols, l, targets, i + 1)
    ensures cols' == RowDone(cols, l, buffer, i, targets, |targets|)
  {
    cols' := cols;
    for t := 0 to |targets|
      invariant cols' == RowDone(cols, l, buffer, i, targets, t)
    {
      RowDoneStep(cols, l, buffer, i, targets, t, cols', t + 1);
      cols' := StoreField(l, buffer, i, targets[t], cols');
    }
  }

  /** The `contains_key` loop: every required name has a column. */
  method ColumnsPresent(names: seq<string>, output: PointBlock) returns (present: bool)
    ensures present <==> forall f :: 0 <= f < |names| ==> names[f] in output.nameToIndex
  {
    for f := 0 to |names|
      invariant forall g :: 0 <= g < f ==> names[g] in output.nameToIndex
    {
      if names[f] !in output.nameToIndex {
        return false;
      }
    }
    return true;
  }

  /** The `for i in 0..points_to_read` loop on the borrowed columns: one
      `read_exact` of total_size bytes per point, then the record's fields
      stored. It stops at the first short read (ok false), keeping the
      records stored so far. */
  method ReadRecords(l: PcdLayout, n: nat, data: seq<byte>, targets: seq<Target>, cols: seq<Column>)
    returns (cols': seq<Column>, ok: bool)
    requires FieldsFit(l) && TargetsRoom(cols, l, targets, RowsRead(l.totalSize, n, |data|))
    ensures ok <==> RowsRead(l.totalSize, n, |data|) == n
    ensures cols' == RowsDone(cols, l, Chunks(l.totalSize, data, RowsRead(l.totalSize, n, |data|)), targets,
                              RowsRead(l.totalSize, n, |data|))
  {
    var stride := l.totalSize;
    ghost var rows := RowsRead(stride, n, |data|);
    ghost var recs := Chunks(stride, data, rows);
    var rest := data;
    ghost var left := rows;
    cols' := cols;
    var i := 0;
    while i < n
      invariant i <= n && i + left == rows && left == RowsRead(stride, n - i, |rest|)
      invariant HoldsRecords(stride, |rest|, left) && recs[i..] == Chunks(stride, rest, left)
      invariant cols' == Stored(cols, l, recs, targets, rows, i)
    {
      RowsReadStep(stride, n - i, |rest|);
      if |rest| < stride {
        return cols', false;
      }
      var buffer := rest[..stride];
      NextRecord(l.totalSize, data, rows, recs, i, rest, left);
      ghost var i0, rest0 := i, rest;
      assert buffer == recs[i0];
      Advance(cols, l, recs, targets, rows, i);
      cols' := StoreRecord(l, buffer, i, targets, cols');
      rest := rest[stride..];
      i := i + 1;
      left := left - 1;
      ReadAdvanced(stride, n, i0, rest0, i, rest, left);
      ChunksAdvanced(stride, recs, i0, rest0, i, rest, left);
    }
    return cols', true;
  }

  /** The store after the first i of the rows records the loop reads. */
  function Stored(cols: seq<Column>, l: PcdLayout, recs: seq<seq<byte>>, targets: seq<Target>, rows: nat, i: nat)
    : seq<Column>
    requires TargetsRoom(cols, l, targets, rows) && i <= rows <= |recs|
  {
    TargetsRoomFewer(cols, l, targets, rows, i);
    RowsDone(cols, l, recs, targets, i)
  }

  /** Record i stored over the store after the records before it. */
  lemma {:induction false} Advance(cols: seq<Column>, l: PcdLayout, recs: seq<seq<byte>>, targets: seq<Target>, rows: nat, i: nat)
    requires TargetsRoom(cols, l, targets, rows) && i < rows <= |recs|
    ensures TargetsRoom(Stored(cols, l, recs, targets, rows, i), l, targets, i + 1)
    ensures Stored(cols, l, recs, targets, rows, i + 1)
         == RowDone(Stored(cols, l, recs, targets, rows, i), l, recs[i], i, targets, |targets|)
  {
    TargetsRoomFewer(cols, l, targets, rows, i + 1);
    RowsDoneNext(cols, l, recs, targets, i, i + 1);
  }

  /** The record the loop reads next is record i of the stream. */
  lemma {:induction false} NextRecord(ts: nat, data: seq<byte>, rows: nat, recs: seq<seq<byte>>, i: nat, rest: seq<byte>, left: nat)
    requires HoldsRecords(ts, |data|, rows) && recs == Chunks(ts, data, rows)
    requires i + left == rows && left > 0 && HoldsRecords(ts, |rest|, left)
    requires recs[i..] == Chunks(ts, rest, left)
    ensures ts <= |rest| && recs[i] == rest[..ts]
  {
    ChunksStep(ts, rest, left);
    assert recs[i] == recs[i..][0];
  }

  lemma {:induction false} ChunksAdvanced(ts: nat, recs: seq<seq<byte>>, i0: nat, rest0: seq<byte>, i: nat, rest: seq<byte>, left: nat)
    requires HoldsRecords(ts, |rest0|, left + 1) && i0 < |recs| && i == i0 + 1 && rest == rest0[ts..]
    requires recs[i0..] == Chunks(ts, rest0, left + 1)
    ensures HoldsRecords(ts, |rest|, left) && recs[i..] == Chunks(ts, rest, left)
  {
    ChunksStep(ts, rest0, left + 1);
    assert recs[i..] == recs[i0..][1..];
  }

  lemma {:induction false} ReadAdvanced(ts: nat, n: nat, i0: nat, rest0: seq<byte>, i: nat, rest: seq<byte>, left: nat)
    requires i0 < n && i == i0 + 1 && ts <= |rest0| && rest == rest0[ts..]
    requires left + 1 == RowsRead(ts, n - i0, |rest0|)
    ensures left == RowsRead(ts, n - i, |rest|)
  {
    RowsReadStep(ts, n - i0, |rest0|);
  }

  /** `BinaryReader::decode` on a stream holding `data`. The borrow of all
      columns fails for a layout that names a field twice; the store is
      then already resized. Past the borrow the decoder unwraps each
      field's typed accessor once per record (a panic on a column of
      another type) and slices i*count .. i*count+count out of it (a panic
      past the column's n elements), so those two are demanded only of the
      records the stream actually delivers. */
  method Decode(l: PcdLayout, n: nat, data: seq<byte>, output: PointBlock) returns (r: Result<()>)
    requires output.Valid() && FieldsFit(l)
    requires IndexInto(output.nameToIndex, output.columns)
    requires AllPresent(l, output.nameToIndex) && Distinct(FieldNames(l)) ==>
      RecordsFit(l, output.nameToIndex, RowsRead(l.totalSize, n, |data|), n)
      && (RowsRead(l.totalSize, n, |data|) > 0 ==> TypesAgree(l, output.columns, output.nameToIndex))
    modifies output
    ensures output.Valid() && output.schema == old(output.schema) && output.nameToIndex == old(output.nameToIndex)
    ensures !AllPresent(l, old(output.nameToIndex)) ==>
      r == Err(LayoutMismatch(0, 0)) && output.columns == old(output.columns) && output.len == old(output.len)
    ensures AllPresent(l, old(output.nameToIndex)) && !Distinct(FieldNames(l)) ==>
      r == Err(Other("Failed to acquire columns mutable borrow"))
      && output.columns == ResizedAll(old(output.columns), n) && output.len == n
    ensures AllPresent(l, old(output.nameToIndex)) && Distinct(FieldNames(l)) ==>
      output.len == n
      && r == (if RowsRead(l.totalSize, n, |data|) < n then Err(Io(UnexpectedEof)) else Ok(()))
      && output.columns == Decoded(old(output.columns), old(output.nameToIndex), l, n, data)
  {
    var names := FieldNames(l);
    var present := ColumnsPresent(names, output);
    if !present {
      return Err(LayoutMismatch(0, 0));
    }
    ghost var cols0 := output.columns;
    output.Resize(n);
    assert output.columns == ResizedAll(cols0, n);
    var slots := output.GetColumnsMut(names);
    if slots.None? {
      return Err(Other("Failed to acquire columns mutable borrow"));
    }
    var targets := seq(|l.fields|, t requires 0 <= t < |l.fields| => Target(t, slots.value[t]));
    assert targets == Targets(l, output.nameToIndex);
    ghost var rows := RowsRead(l.totalSize, n, |data|);
    TargetsRoomResized(l, cols0, output.nameToIndex, rows, n);
    if rows > 0 {
      TargetsTypedResized(l, cols0, output.nameToIndex, n);
      RowsDoneTyped(output.columns, l, Chunks(l.totalSize, data, rows), targets, rows);
    }
    var cols, ok := ReadRecords(l, n, data, targets, output.columns);
    output.columns := cols;
    r := if ok then Ok(()) else Err(Io(UnexpectedEof));
  }

  // ----- properties -----

  /** Point j is among the records read exactly when the stream holds
      j + 1 whole records. */
  lemma {:induction false} RowsReadCovers(ts: nat, n: nat, len: nat, j: nat)
    requires j < n
    ensures j < RowsRead(ts, n, len) <==> (j + 1) * ts <= len
  {
    var rows := RowsRead(ts, n, len);
    RowsReadBytes(ts, n, len);
    if j < rows {
      MulMono(j + 1, rows, ts);
    } else {
      MulMono(rows + 1, j + 1, ts);
    }
  }

  /** Where element k of field f of record i starts in the stream: i
      record sizes, the field's offset and k element sizes in. */
  function StreamStart(l: PcdLayout, i: nat, f: nat, k: nat): nat
    requires f < |l.fields|
  {
    Skip(l.totalSize, i) + l.fields[f].offset + Skip(l.fields[f].elementSize, k)
  }

  /** Element k of field f in record i of the stream, for i among the
      records read: the field's column holds at i*count+k the element
      decoded from the stream's bytes at StreamStart. */
  lemma {:induction false} DecodedElem(cols: seq<Column>, schema: seq<string>, l: PcdLayout, n: nat, data: seq<byte>,
                    f: nat, i: nat, k: nat)
    requires FieldsFit(l) && IndexInto(IndexMap(schema), cols) && AllPresent(l, IndexMap(schema))
    requires Distinct(FieldNames(l)) && RecordsFit(l, IndexMap(schema), RowsRead(l.totalSize, n, |data|), n)
    requires f < |l.fields| && i < RowsRead(l.totalSize, n, |data|) && k < l.fields[f].count
    ensures IndexMap(schema)[l.fields[f].name] < |cols| && Skip(l.fields[f].count, i) + k < n
    ensures StreamStart(l, i, f, k) + l.fields[f].elementSize <= |data|
    ensures Values(Decoded(cols, IndexMap(schema), l, n, data)[IndexMap(schema)[l.fields[f].name]])
                  [Skip(l.fields[f].count, i) + k]
         == DecodeElem(l.fields[f].vt, data[StreamStart(l, i, f, k) .. StreamStart(l, i, f, k) + l.fields[f].elementSize])
  {
    DecodedRecord(cols, schema, l, n, data, f, i, k);
    ChunkElem(l, data, RowsRead(l.totalSize, n, |data|), i, f, k);
  }

  /** Element k of field f of the i-th record cut from the stream is the
      element decoded from the stream's bytes at StreamStart. */
  lemma {:induction false} ChunkElem(l: PcdLayout, data: seq<byte>, R: nat, i: nat, f: nat, k: nat)
    requires FieldsFit(l) && HoldsRecords(l.totalSize, |data|, R) && i < R
    requires f < |l.fields| && k < l.fields[f].count
    ensures StreamStart(l, i, f, k) + l.fields[f].elementSize <= |data|
    ensures FieldElem(l, Chunks(l.totalSize, data, R)[i], f, k)
         == DecodeElem(l.fields[f].vt, data[StreamStart(l, i, f, k) .. StreamStart(l, i, f, k) + l.fields[f].elementSize])
  {
    var rec := Chunks(l.totalSize, data, R)[i];
    ChunkAt(l.totalSize, data, R, i);
    assert FieldElem(l, rec, f, k) == RecordElem(l, rec, f, k);
    StreamElem(l, data, R, i, f, k, StreamStart(l, i, f, k));
  }

  /** Element k of field f of record i, as stored from the record's bytes. */
  lemma {:induction false} DecodedRecord(cols: seq<Column>, schema: seq<string>, l: PcdLayout, n: nat, data: seq<byte>,
                      f: nat, i: nat, k: nat)
    requires IndexInto(IndexMap(schema), cols) && AllPresent(l, IndexMap(schema))
    requires Distinct(FieldNames(l)) && RecordsFit(l, IndexMap(schema), RowsRead(l.totalSize, n, |data|), n)
    requires f < |l.fields| && i < RowsRead(l.totalSize, n, |data|) && k < l.fields[f].count
    ensures IndexMap(schema)[l.fields[f].name] < |cols| && Skip(l.fields[f].count, i) + k < n
    ensures Values(Decoded(cols, IndexMap(schema), l, n, data)[IndexMap(schema)[l.fields[f].name]])
                  [Skip(l.fields[f].count, i) + k]
         == FieldElem(l, Chunks(l.totalSize, data, RowsRead(l.totalSize, n, |data|))[i], f, k)
  {
    var index := IndexMap(schema);
    var rows := RowsRead(l.totalSize, n, |data|);
    var targets := Targets(l, index);
    var recs := Chunks(l.totalSize, data, rows);
    var base := ResizedAll(cols, n);
    TargetsRoomResized(l, cols, index, rows, n);
    assert Decoded(cols, index, l, n, data) == RowsDone(base, l, recs, targets, rows);
    TargetsDistinct(l, schema);
    assert targets[f] == Target(f, index[l.fields[f].name]);
    RowsDoneElem(base, l, recs, targets, rows, f, i, k);
  }

  /** Past the records read, field f's column keeps what resizing left
      there: its old element, or zero beyond its old length. */
  lemma {:induction false} DecodedBeyond(cols: seq<Column>, schema: seq<string>, l: PcdLayout, n: nat, data: seq<byte>, f: nat, j: nat)
    requires IndexInto(IndexMap(schema), cols) && AllPresent(l, IndexMap(schema))
    requires Distinct(FieldNames(l)) && RecordsFit(l, IndexMap(schema), RowsRead(l.totalSize, n, |data|), n)
    requires f < |l.fields| && Skip(l.fields[f].count, RowsRead(l.totalSize, n, |data|)) <= j < n
    ensures IndexMap(schema)[l.fields[f].name] < |cols|
    ensures Values(Decoded(cols, IndexMap(schema), l, n, data)[IndexMap(schema)[l.fields[f].name]])[j]
         == Values(Resized(cols[IndexMap(schema)[l.fields[f].name]], n))[j]
  {
    var index := IndexMap(schema);
    var rows := RowsRead(l.totalSize, n, |data|);
    var targets := Targets(l, index);
    TargetsRoomResized(l, cols, index, rows, n);
    TargetsDistinct(l, schema);
    assert targets[f] == Target(f, index[l.fields[f].name]);
    RowsDoneBeyond(ResizedAll(cols, n), l, Chunks(l.totalSize, data, rows), targets, rows, f, j);
  }

  /** The decoded store, point by point, for a field with one element per
      point: at point j its column holds the field's element read from the
      size bytes at j record sizes (Skip, the product by SkipIsProduct) plus
      the field's offset (StreamStart with k = 0) when j is among the
      records read (exactly when the stream holds j + 1 records, by
      RowsReadCovers); otherwise the value resizing left there, the old
      element below the old length and 0 above. */
  lemma {:induction false} DecodedValues(cols: seq<Column>, schema: seq<string>, l: PcdLayout, n: nat, data: seq<byte>, f: nat, j: nat)
    requires FieldsFit(l) && IndexInto(IndexMap(schema), cols) && AllPresent(l, IndexMap(schema))
    requires Distinct(FieldNames(l)) && RecordsFit(l, IndexMap(schema), RowsRead(l.totalSize, n, |data|), n)
    requires f < |l.fields| && l.fields[f].count == 1 && j < n
    ensures IndexMap(schema)[l.fields[f].name] < |cols|
    ensures StreamStart(l, j, f, 0) == Skip(l.totalSize, j) + l.fields[f].offset
    ensures j < RowsRead(l.totalSize, n, |data|) ==>
      StreamStart(l, j, f, 0) + l.fields[f].size <= |data|
      && Values(Decoded(cols, IndexMap(schema), l, n, data)[IndexMap(schema)[l.fields[f].name]])[j]
         == DecodeElem(l.fields[f].vt, data[StreamStart(l, j, f, 0) .. StreamStart(l, j, f, 0) + l.fields[f].size])
    ensures RowsRead(l.totalSize, n, |data|) <= j ==>
      Values(Decoded(cols, IndexMap(schema), l, n, data)[IndexMap(schema)[l.fields[f].name]])[j]
      == Values(Resized(cols[IndexMap(schema)[l.fields[f].name]], n))[j]
  {
    var fl := l.fields[f];
    var rows := RowsRead(l.totalSize, n, |data|);
    assert Skip(fl.elementSize, 0) == 0;
    if j < rows {
      SingleInStream(l, n, data, f, j);
      DecodedSingle(cols, schema, l, n, data, f, j);
    } else {
      SkipIsProduct(1, rows);
      DecodedBeyond(cols, schema, l, n, data, f, j);
    }
  }

  /** The bytes of a single-element field of record j lie in the stream. */
  lemma {:induction false} SingleInStream(l: PcdLayout, n: nat, data: seq<byte>, f: nat, j: nat)
    requires FieldsFit(l) && f < |l.fields| && l.fields[f].count == 1 && j < RowsRead(l.totalSize, n, |data|)
    ensures StreamStart(l, j, f, 0) + l.fields[f].size <= |data|
  {
    ChunkElem(l, data, RowsRead(l.totalSize, n, |data|), j, f, 0);
    assert l.fields[f].size == Skip(l.fields[f].elementSize, 1);
  }

  /** DecodedElem for the one element of a single-element field. */
  lemma {:induction false} DecodedSingle(cols: seq<Column>, schema: seq<string>, l: PcdLayout, n: nat, data: seq<byte>, f: nat, j: nat)
    requires FieldsFit(l) && IndexInto(IndexMap(schema), cols) && AllPresent(l, IndexMap(schema))
    requires Distinct(FieldNames(l)) && RecordsFit(l, IndexMap(schema), RowsRead(l.totalSize, n, |data|), n)
    requires f < |l.fields| && l.fields[f].count == 1 && j < RowsRead(l.totalSize, n, |data|)
    requires StreamStart(l, j, f, 0) + l.fields[f].size <= |data|
    ensures var s, at := IndexMap(schema)[l.fields[f].name], StreamStart(l, j, f, 0);
      s < |cols| && Values(Decoded(cols, IndexMap(schema), l, n, data)[s])[j]
         == DecodeElem(l.fields[f].vt, data[at .. at + l.fields[f].size])
  {
    SingleElement(l.fields[f], j);
    DecodedElem(cols, schema, l, n, data, f, j, 0);
  }

  /** A field of one element: its size is the element's, and element 0 of
      record j is element j of the column. */
  lemma {:induction false} SingleElement(fl: FieldLayout, j: nat)
    requires fl.count == 1 && fl.size == Skip(fl.elementSize, fl.count)
    ensures fl.size == fl.elementSize && Skip(fl.count, j) + 0 == j
  {
    assert Skip(fl.elementSize, 1) == Skip(fl.elementSize, 0) + fl.elementSize;
    SkipIsProduct(1, j);
  }

  /** A column no layout field names comes out as resizing left it. */
  lemma {:induction false} DecodedUntouched(cols: seq<Column>, schema: seq<string>, l: PcdLayout, n: nat, data: seq<byte>, s: nat)
    requires IndexInto(IndexMap(schema), cols) && AllPresent(l, IndexMap(schema))
    requires Distinct(FieldNames(l)) && RecordsFit(l, IndexMap(schema), RowsRead(l.totalSize, n, |data|), n)
    requires s < |cols| && forall f :: 0 <= f < |l.fields| ==> IndexMap(schema)[l.fields[f].name] != s
    ensures Decoded(cols, IndexMap(schema), l, n, data)[s] == Resized(cols[s], n)
  {
    var index := IndexMap(schema);
    var rows := RowsRead(l.totalSize, n, |data|);
    var targets := Targets(l, index);
    TargetsRoomResized(l, cols, index, rows, n);
    TargetsDistinct(l, schema);
    assert forall v :: 0 <= v < |targets| ==> targets[v].slot == index[l.fields[v].name];
    RowsDoneUnowned(ResizedAll(cols, n), l, Chunks(l.totalSize, data, rows), targets, rows, s);
  }
}

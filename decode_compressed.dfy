/** The compressed binary decoder (src/decoder/compressed.rs). The body is
    a frame: the payload length and the inflated length as little-endian
    u32 values, then the LZF payload. Once inflated, the buffer holds the
    fields one after the other (structure of arrays): field f's block is
    element_size * count * n bytes, its elements in point order, and each
    block is stored into the column of the field's name from element 0 on. */
module CompressedDecoder {
  import opened Errors
  import opened Bytes
  import opened Header
  import opened Layout
  import opened Elements
  import opened Storage
  import opened Records
  import opened Text
  import opened External

  /** A compressed body: the payload and the length it inflates to. */
  datatype Frame = Frame(payload: seq<byte>, size: nat)

  /** A frame both lengths of which fit the u32 prefix. */
  predicate Framable(fr: Frame)
  {
    |fr.payload| < 0x1_0000_0000 && fr.size < 0x1_0000_0000
  }

  /** The bytes of a frame: payload length, inflated length, payload. */
  function FrameBytes(fr: Frame): (bs: seq<byte>)
    requires Framable(fr)
    ensures |bs| == 8 + |fr.payload| && bs[8..] == fr.payload
  {
    Pow256Values();
    LeEncode(|fr.payload|, 4) + LeEncode(fr.size, 4) + fr.payload
  }

  /** The two `read_u32::<LittleEndian>` calls and `read_exact` of the
      payload; a stream that ends early gives UnexpectedEof. A frame read
      is one the stream starts with. */
  function ReadFrame(data: seq<byte>): (r: Result<Frame>)
    ensures r.Err? ==> r == Err(Io(UnexpectedEof))
    ensures r.Ok? ==> Framable(r.value) && FrameBytes(r.value) <= data
  {
    if |data| < 8 then Err(Io(UnexpectedEof))
    else
      var c := LeDecode(data[..4]);
      var u := LeDecode(data[4..8]);
      if |data| - 8 < c then Err(Io(UnexpectedEof))
      else
        var fr := Frame(data[8 .. 8 + c], u);
        FrameOfHeader(data, fr);
        Ok(fr)
  }

  lemma {:induction false} FrameOfHeader(data: seq<byte>, fr: Frame)
    requires 8 + |fr.payload| <= |data|
    requires |fr.payload| == LeDecode(data[..4]) && fr.size == LeDecode(data[4..8])
    requires fr.payload == data[8 .. 8 + |fr.payload|]
    ensures Framable(fr) && FrameBytes(fr) <= data
  {
    Pow256Values();
    LeEncodeOfDecode(data[..4]);
    LeEncodeOfDecode(data[4..8]);
    assert data[..8 + |fr.payload|] == data[..4] + data[4..8] + data[8 .. 8 + |fr.payload|];
  }

  /** `lzf::decompress(payload, size)` and the length check after it: a
      failure, or output of another length, is a Decompression error. */
  function Inflate(lzf: Lzf, fr: Frame): (r: Result<seq<byte>>)
    ensures r.Ok? <==> lzf.decompress(fr.payload, fr.size).Decompressed?
                       && |lzf.decompress(fr.payload, fr.size).bytes| == fr.size
    ensures r.Ok? ==> lzf.decompress(fr.payload, fr.size) == Decompressed(r.value)
    ensures r.Err? ==> r.error.Decompression?
  {
    match lzf.decompress(fr.payload, fr.size)
    case DecompressFailed(reason) => Err(Decompression(reason))
    case Decompressed(bs) =>
      if |bs| != fr.size then
        Err(Decompression("Size mismatch: expected " + NatToDecimal(fr.size) + ", got " + NatToDecimal(|bs|)))
      else Ok(bs)
  }

  /** The inflated buffer, or the error that stops the decoder before it
      touches the store: a short stream, a failed decompression, or an
      inflated length other than total_size * n. */
  function Buffer(l: PcdLayout, n: nat, data: seq<byte>, lzf: Lzf): (r: Result<seq<byte>>)
    ensures r.Ok? ==> |r.value| == l.totalSize * n
    ensures r.Ok? <==> ReadFrame(data).Ok? && Inflate(lzf, ReadFrame(data).value).Ok?
                       && ReadFrame(data).value.size == l.totalSize * n
  {
    var fr :- ReadFrame(data);
    var buf :- Inflate(lzf, fr);
    if fr.size != l.totalSize * n then Err(LayoutMismatch(l.totalSize * n, fr.size))
    else Ok(buf)
  }

  // ----- the structure-of-arrays blocks -----

  /** Field f's block length, `element_size * count * n`. */
  function BlockLen(l: PcdLayout, n: nat, f: nat): nat
    requires f < |l.fields|
  {
    Skip(Skip(l.fields[f].elementSize, l.fields[f].count), n)
  }

  /** Where field f's block starts: the running `offset`, the lengths of
      the blocks before it. */
  function BlockStart(l: PcdLayout, n: nat, f: nat): nat
    requires f <= |l.fields|
  {
    if f == 0 then 0 else BlockStart(l, n, f - 1) + BlockLen(l, n, f - 1)
  }

  lemma {:induction false} BlockStartMono(l: PcdLayout, n: nat, f: nat, g: nat)
    requires f <= g <= |l.fields|
    ensures BlockStart(l, n, f) <= BlockStart(l, n, g)
    decreases g
  {
    if f < g {
      BlockStartMono(l, n, f, g - 1);
    }
  }

  /** Every element has its type's size, as the resolver guarantees; the
      per-type loops read chunks of exactly that many bytes. */
  predicate SizesMatch(l: PcdLayout)
  {
    forall f :: 0 <= f < |l.fields| ==> l.fields[f].elementSize == Size(l.fields[f].vt)
  }

  /** The stores do not panic: with points to read, every field of a wider
      type has at most one element per point (`vec[i]` stays below n), a U8
      field exactly one (`copy_from_slice` needs equal lengths), and an I8
      field any number (its `zip` stops at the shorter side). */
  predicate BlocksFit(l: PcdLayout, n: nat)
  {
    forall f :: 0 <= f < |l.fields| ==> FieldFits(l, n, f)
  }

  /** BlocksFit for field f alone. */
  predicate FieldFits(l: PcdLayout, n: nat, f: nat)
    requires f < |l.fields|
  {
    n == 0 || l.fields[f].count == 1 || l.fields[f].vt == I8
    || (l.fields[f].count == 0 && l.fields[f].vt != U8)
  }

  /** How many elements of field f's block reach a column of len elements:
      all count * n of them, except that the I8 arm's `zip` stops at the
      end of the column. */
  function Reach(l: PcdLayout, n: nat, f: nat, len: nat): (k: nat)
    requires f < |l.fields|
    ensures k <= Skip(l.fields[f].count, n)
    ensures l.fields[f].vt == I8 ==> k <= len
    ensures l.fields[f].vt != I8 || Skip(l.fields[f].count, n) <= len ==> k == Skip(l.fields[f].count, n)
  {
    var k := Skip(l.fields[f].count, n);
    if l.fields[f].vt == I8 && len < k then len else k
  }

  /** Every column holds n elements. */
  predicate AllLen(cols: seq<Column>, n: nat)
  {
    forall s :: 0 <= s < |cols| ==> Len(cols[s]) == n
  }

  /** Element j of a block of elements of type vt: the little-endian
      decode of its j-th run of Size(vt) bytes (and 0, never stored, when
      the block is shorter). */
  function BlockElem(vt: ValueType, block: seq<byte>, j: nat): (v: int)
    ensures InRange(vt, v)
  {
    if Skip(Size(vt), j + 1) <= |block|
    then DecodeElem(vt, block[Skip(Size(vt), j) .. Skip(Size(vt), j + 1)])
    else 0
  }

  /** A column after its first m elements were read from a block. */
  function Filled(c: Column, block: seq<byte>, m: nat): (r: Column)
    requires m <= Len(c)
    ensures TypeOf(r) == TypeOf(c) && Len(r) == Len(c)
    decreases m
  {
    if m == 0 then c
    else
      var prev := Filled(c, block, m - 1);
      prev.(elems := prev.elems[m - 1 := BlockElem(TypeOf(c), block, m - 1)])
  }

  /** Element j of a filled column: from the block below m, as before from m on. */
  lemma {:induction false} FilledAt(c: Column, block: seq<byte>, m: nat, j: nat)
    requires m <= Len(c) && j < Len(c)
    ensures Values(Filled(c, block, m))[j] == if j < m then BlockElem(TypeOf(c), block, j) else Values(c)[j]
    decreases m
  {
    if m > 0 {
      FilledAt(c, block, m - 1, j);
    }
  }

  /** Filling keeps a column well typed: every block element is in range. */
  lemma {:induction false} FilledTyped(c: Column, block: seq<byte>, m: nat)
    requires m <= Len(c) && WellTyped(c)
    ensures WellTyped(Filled(c, block, m))
  {
    var r := Filled(c, block, m);
    forall j | 0 <= j < |r.elems|
      ensures InRange(r.vt, r.elems[j])
    {
      FilledAt(c, block, m, j);
    }
  }

  /** Field sizes in elements and in bytes agree: count * n elements of
      element_size bytes make the block, `element_size * count * n`. */
  lemma {:induction false} BlockElems(es: nat, count: nat, n: nat)
    ensures Skip(es, Skip(count, n)) == Skip(Skip(es, count), n) == es * count * n
  {
    var a := Skip(count, n);
    var b := Skip(es, count);
    SkipIsProduct(count, n);
    SkipIsProduct(es, a);
    SkipIsProduct(es, count);
    SkipIsProduct(b, n);
    MulAssoc(es, count, n);
  }

  lemma {:induction false} MulAssoc(x: nat, y: nat, z: nat)
    ensures (z * y) * x == z * (y * x) == x * y * z
  {
  }

  /** Under BlocksFit the elements of a field that reach a column of n
      fit it: all count * n of them for every type but I8, exactly n for U8. */
  lemma {:induction false} ElemsFit(l: PcdLayout, n: nat, f: nat)
    requires f < |l.fields| && FieldFits(l, n, f)
    ensures Reach(l, n, f, n) <= n
    ensures l.fields[f].vt != I8 ==> Skip(l.fields[f].count, n) <= n
    ensures l.fields[f].vt == U8 ==> Skip(l.fields[f].count, n) == n
  {
    SkipIsProduct(l.fields[f].count, n);
  }

  /** The store after the blocks of fields 0 .. f-1, each written into the
      column of its name (as many elements as reach it); a later field of
      the same name writes over an earlier one. */
  function BlocksStored(cols: seq<Column>, index: map<string, nat>, l: PcdLayout, n: nat, buf: seq<byte>, f: nat)
    : (r: seq<Column>)
    requires f <= |l.fields|
    ensures SameShape(r, cols)
    decreases f
  {
    if f == 0 then cols
    else
      var g := f - 1;
      var fl := l.fields[g];
      var prev := BlocksStored(cols, index, l, n, buf, g);
      if fl.name in index && index[fl.name] < |prev| && Reach(l, n, g, Len(prev[index[fl.name]])) <= Len(prev[index[fl.name]])
         && BlockStart(l, n, f) <= |buf|
      then
        var s := index[fl.name];
        prev[s := Filled(prev[s], Block(l, n, buf, g), Reach(l, n, g, Len(prev[s])))]
      else prev
  }

  /** The bytes of field f's block within the buffer. */
  function Block(l: PcdLayout, n: nat, buf: seq<byte>, f: nat): (block: seq<byte>)
    requires f < |l.fields| && BlockStart(l, n, f + 1) <= |buf|
    ensures |block| == BlockLen(l, n, f)
  {
    buf[BlockStart(l, n, f) .. BlockStart(l, n, f + 1)]
  }

  /** The block loop keeps every column well typed. */
  lemma {:induction false} BlocksStoredTyped(cols: seq<Column>, index: map<string, nat>, l: PcdLayout, n: nat,
                                             buf: seq<byte>, f: nat)
    requires SizesMatch(l) && IndexInto(index, cols) && AllLen(cols, n)
    requires Storable(l, n, cols, index) && f <= FirstMissing(l, index, 0)
    requires BlockStart(l, n, f) <= |buf| && AllTyped(cols)
    ensures AllTyped(BlocksStored(cols, index, l, n, buf, f))
    decreases f
  {
    if f > 0 {
      var g := f - 1;
      StorableAt(l, n, cols, index, g);
      BlockStartMono(l, n, g, f);
      BlocksStoredTyped(cols, index, l, n, buf, g);
      var prev := BlocksStored(cols, index, l, n, buf, g);
      var s := index[l.fields[g].name];
      ElemsFit(l, n, g);
      FilledTyped(prev[s], Block(l, n, buf, g), Reach(l, n, g, n));
    }
  }

  /** Field g's block ends up in its column when no later field before f
      writes the same slot: element j below count * n (and below the
      column's n) is the block's element j, the little-endian decode of its
      j-th run of element_size bytes. */
  lemma {:induction false} BlocksStoredAt(cols: seq<Column>, index: map<string, nat>, l: PcdLayout, n: nat,
                                          buf: seq<byte>, f: nat, g: nat, j: nat)
    requires SizesMatch(l) && IndexInto(index, cols) && AllLen(cols, n)
    requires f <= |l.fields| && BlockStart(l, n, f) <= |buf|
    requires g < f && l.fields[g].name in index && FieldFits(l, n, g)
    requires TypeOf(cols[index[l.fields[g].name]]) == l.fields[g].vt
    requires j < Skip(l.fields[g].count, n) && j < n
    requires forall h :: g < h < f && l.fields[h].name in index ==> index[l.fields[h].name] != index[l.fields[g].name]
    ensures BlockStart(l, n, g + 1) <= |buf| && index[l.fields[g].name] < |cols|
    ensures Values(BlocksStored(cols, index, l, n, buf, f)[index[l.fields[g].name]])[j]
         == BlockElem(l.fields[g].vt, Block(l, n, buf, g), j)
    decreases f
  {
    var h := f - 1;
    if h == g {
      BlocksStoredLast(cols, index, l, n, buf, g, f, j);
    } else {
      BlockStartMono(l, n, h, f);
      BlocksStoredKeeps(cols, index, l, n, buf, h, f, index[l.fields[g].name]);
      BlocksStoredAt(cols, index, l, n, buf, h, g, j);
    }
  }

  /** Field g's block, just written, is in its column. */
  lemma {:induction false} BlocksStoredLast(cols: seq<Column>, index: map<string, nat>, l: PcdLayout, n: nat,
                                            buf: seq<byte>, g: nat, f: nat, j: nat)
    requires SizesMatch(l) && IndexInto(index, cols) && AllLen(cols, n)
    requires f == g + 1 <= |l.fields| && BlockStart(l, n, f) <= |buf|
    requires l.fields[g].name in index && FieldFits(l, n, g)
    requires TypeOf(cols[index[l.fields[g].name]]) == l.fields[g].vt
    requires j < Skip(l.fields[g].count, n) && j < n
    ensures index[l.fields[g].name] < |cols|
    ensures Values(BlocksStored(cols, index, l, n, buf, f)[index[l.fields[g].name]])[j]
         == BlockElem(l.fields[g].vt, Block(l, n, buf, g), j)
  {
    ElemsFit(l, n, g);
    var s := index[l.fields[g].name];
    var prev := BlocksStored(cols, index, l, n, buf, g);
    assert Len(prev[s]) == n && TypeOf(prev[s]) == l.fields[g].vt;
    BlocksStoredNext(cols, index, l, n, buf, g, f, prev);
    FilledAt(prev[s], Block(l, n, buf, g), Reach(l, n, g, n), j);
  }

  /** Field h's block changes no column but the one of its name. */
  lemma {:induction false} BlocksStoredKeeps(cols: seq<Column>, index: map<string, nat>, l: PcdLayout, n: nat,
                                             buf: seq<byte>, h: nat, f: nat, s: nat)
    requires f == h + 1 <= |l.fields| && s < |cols|
    requires l.fields[h].name in index ==> index[l.fields[h].name] != s
    ensures BlocksStored(cols, index, l, n, buf, f)[s] == BlocksStored(cols, index, l, n, buf, h)[s]
  {
    assert f - 1 == h;
  }

  /** A column no field before f names keeps its contents. */
  lemma {:induction false} BlocksStoredUntouched(cols: seq<Column>, index: map<string, nat>, l: PcdLayout, n: nat,
                                                 buf: seq<byte>, f: nat, s: nat)
    requires f <= |l.fields| && s < |cols|
    requires forall h :: 0 <= h < f && l.fields[h].name in index ==> index[l.fields[h].name] != s
    ensures BlocksStored(cols, index, l, n, buf, f)[s] == cols[s]
    decreases f
  {
    if f > 0 {
      BlocksStoredUntouched(cols, index, l, n, buf, f - 1, s);
    }
  }

  /** The first field from f on whose name the store lacks, or the number
      of fields when there is none. */
  function FirstMissing(l: PcdLayout, index: map<string, nat>, f: nat): (m: nat)
    requires f <= |l.fields|
    ensures f <= m <= |l.fields|
    ensures m < |l.fields| ==> l.fields[m].name !in index
    ensures forall g :: f <= g < m ==> l.fields[g].name in index
    decreases |l.fields| - f
  {
    if f == |l.fields| || l.fields[f].name !in index then f else FirstMissing(l, index, f + 1)
  }

  /** What the field loop needs not to panic: every field it reaches (each
      one before the first field without a column) fits its column and
      finds a column of its own type for the accessor it unwraps. Fields
      from the first missing one on are never indexed. */
  predicate Storable(l: PcdLayout, n: nat, cols: seq<Column>, index: map<string, nat>)
    requires IndexInto(index, cols)
  {
    forall f :: 0 <= f < FirstMissing(l, index, 0) ==>
      FieldFits(l, n, f) && TypeOf(cols[index[l.fields[f].name]]) == l.fields[f].vt
  }

  /** A field the loop reaches has a column of its type that it fits. */
  lemma {:induction false} StorableAt(l: PcdLayout, n: nat, cols: seq<Column>, index: map<string, nat>, g: nat)
    requires IndexInto(index, cols) && Storable(l, n, cols, index) && g < FirstMissing(l, index, 0)
    ensures g < |l.fields| && l.fields[g].name in index && index[l.fields[g].name] < |cols|
    ensures FieldFits(l, n, g) && TypeOf(cols[index[l.fields[g].name]]) == l.fields[g].vt
  {
  }

  /** When every field has a column, Storable is BlocksFit and TypesAgree. */
  lemma {:induction false} StorableAllPresent(l: PcdLayout, n: nat, cols: seq<Column>, index: map<string, nat>)
    requires IndexInto(index, cols) && AllPresent(l, index)
    ensures Storable(l, n, cols, index) <==> BlocksFit(l, n) && TypesAgree(l, cols, index)
  {
    AllPresentNoneMissing(l, index, 0);
  }

  lemma {:induction false} AllPresentNoneMissing(l: PcdLayout, index: map<string, nat>, f: nat)
    requires AllPresent(l, index) && f <= |l.fields|
    ensures FirstMissing(l, index, f) == |l.fields|
    decreases |l.fields| - f
  {
    if f < |l.fields| {
      AllPresentNoneMissing(l, index, f + 1);
    }
  }

  /** Resizing keeps the column types, so it keeps Storable. */
  lemma {:induction false} StorableResized(l: PcdLayout, n: nat, cols: seq<Column>, index: map<string, nat>, m: nat)
    requires IndexInto(index, cols) && Storable(l, n, cols, index)
    ensures IndexInto(index, ResizedAll(cols, m)) && Storable(l, n, ResizedAll(cols, m), index)
  {
  }

  /** The store after the field loop: it stops at the first field without
      a column, with the earlier blocks written. */
  function Stored(cols: seq<Column>, index: map<string, nat>, l: PcdLayout, n: nat, buf: seq<byte>): (r: seq<Column>)
    ensures SameShape(r, cols)
  {
    BlocksStored(cols, index, l, n, buf, FirstMissing(l, index, 0))
  }

  function StoredResult(l: PcdLayout, index: map<string, nat>): (r: Result<()>)
    ensures r.Ok? <==> AllPresent(l, index)
    ensures r.Err? ==> exists f :: 0 <= f < |l.fields| && l.fields[f].name !in index
                                  && r == Err(InvalidDataFormat("Missing column " + l.fields[f].name))
  {
    var m := FirstMissing(l, index, 0);
    if m < |l.fields| then Err(InvalidDataFormat("Missing column " + l.fields[m].name)) else Ok(())
  }

  /** One more element: the column after j + 1 elements is element j
      written over the column after j. */
  lemma {:induction false} FilledNext(c: Column, block: seq<byte>, j: nat, u: nat, prev: Column)
    requires u == j + 1 && u <= Len(c)
    requires prev == Filled(c, block, j)
    ensures j < Len(prev)
    ensures Filled(c, block, u) == SetAt(prev, j, BlockElem(TypeOf(c), block, j))
  {
    assert u - 1 == j;
    assert Filled(c, block, u) == SetAt(Filled(c, block, u - 1), u - 1, BlockElem(TypeOf(c), block, u - 1));
  }

  /** One unfolding of BlocksStored, from g fields to u = g + 1. */
  lemma {:induction false} BlocksStoredStep(cols: seq<Column>, index: map<string, nat>, l: PcdLayout, n: nat, buf: seq<byte>, g: nat, u: nat)
    requires u == g + 1 && u <= |l.fields|
    ensures var fl := l.fields[g];
      var prev := BlocksStored(cols, index, l, n, buf, g);
      BlocksStored(cols, index, l, n, buf, u)
      == if fl.name in index && index[fl.name] < |prev| && Reach(l, n, g, Len(prev[index[fl.name]])) <= Len(prev[index[fl.name]])
            && BlockStart(l, n, u) <= |buf|
         then prev[index[fl.name] := Filled(prev[index[fl.name]], Block(l, n, buf, g), Reach(l, n, g, Len(prev[index[fl.name]])))]
         else prev
  {
    assert u - 1 == g;
  }

  /** One more field: the store after field f's block is that block
      written over the store after the fields before it. */
  lemma {:induction false} BlocksStoredNext(cols: seq<Column>, index: map<string, nat>, l: PcdLayout, n: nat, buf: seq<byte>,
                         f: nat, u: nat, prev: seq<Column>)
    requires u == f + 1 && u <= |l.fields| && FieldFits(l, n, f)
    requires l.fields[f].elementSize == Size(l.fields[f].vt)
    requires l.fields[f].name in index && index[l.fields[f].name] < |cols|
    requires Len(cols[index[l.fields[f].name]]) == n && TypeOf(cols[index[l.fields[f].name]]) == l.fields[f].vt
    requires BlockStart(l, n, u) <= |buf|
    requires prev == BlocksStored(cols, index, l, n, buf, f)
    ensures Reach(l, n, f, n) <= n && index[l.fields[f].name] < |prev|
    ensures var s := index[l.fields[f].name];
      Len(prev[s]) == n && Skip(Size(TypeOf(prev[s])), Skip(l.fields[f].count, n)) == |Block(l, n, buf, f)|
      && BlocksStored(cols, index, l, n, buf, u)
         == prev[s := Filled(prev[s], Block(l, n, buf, f), Reach(l, n, f, n))]
  {
    ElemsFit(l, n, f);
    BlockElems(l.fields[f].elementSize, l.fields[f].count, n);
    var s := index[l.fields[f].name];
    BlocksStoredStep(cols, index, l, n, buf, f, u);
  }

  // ----- the decoder -----

  /** The U8 arm: `copy_from_slice` of the whole block, which holds one
      byte per element of the column. */
  method CopyBytes(c: Column, block: seq<byte>) returns (c': Column)
    requires TypeOf(c) == U8 && |block| == Len(c)
    ensures c' == Filled(c, block, Len(c))
  {
    c' := FromValues(ValueType.U8, block);
    ghost var f := Filled(c, block, Len(c));
    forall j | 0 <= j < |block|
      ensures Values(f)[j] == block[j]
    {
      FilledAt(c, block, Len(c), j);
      SkipIsProduct(1, j);
      ByteElements(block[j]);
      assert block[j .. j + 1] == [block[j]];
    }
    ColumnExtensional(c', f);
  }

  /** The I8 arm: each byte of the block, zipped with the column, stored
      reinterpreted as `i8`; the zip stops at whichever side ends first. */
  method StoreSignedBytes(c: Column, block: seq<byte>) returns (c': Column)
    requires TypeOf(c) == I8
    ensures c' == Filled(c, block, if Len(c) < |block| then Len(c) else |block|)
  {
    c' := c;
    var pairs := if Len(c) < |block| then Len(c) else |block|;
    for j := 0 to pairs
      invariant Skip(1, j) == j
      invariant c' == Filled(c, block, j)
    {
      var b := block[j];
      var v: i8 := if b < 0x80 then b as int else b as int - 0x100;
      ByteElements(b);
      assert block[j .. j + 1] == [b];
      FilledNext(c, block, j, j + 1, c');
      c' := SetAt(c', j, v);
    }
  }

  /** The arms of the wider types: one little-endian element per
      `chunks_exact` chunk of the block into `vec[i]`, i counting up. */
  method StoreChunks(c: Column, block: seq<byte>, ghost m: nat) returns (c': Column)
    requires m <= Len(c) && Skip(Size(TypeOf(c)), m) == |block|
    ensures c' == Filled(c, block, m)
  {
    var vt := TypeOf(c);
    var es := Size(vt);
    var pos := 0;
    var i := 0;
    c' := c;
    while pos + es <= |block|
      invariant i <= m && pos == Skip(es, i) && pos <= |block|
      invariant c' == Filled(c, block, i)
      decreases |block| - pos
    {
      if i == m {
        assert false;
      }
      ChunkNext(c, block, m, i, c');
      c' := SetAt(c', i, DecodeElem(vt, block[pos .. pos + es]));
      pos := pos + es;
      i := i + 1;
    }
    ChunksEnd(es, m, i, |block|);
  }

  /** One `chunks_exact` chunk: chunk i of the block is element i. */
  lemma {:induction false} ChunkNext(c: Column, block: seq<byte>, m: nat, i: nat, prev: Column)
    requires i < m <= Len(c) && Skip(Size(TypeOf(c)), m) == |block| && prev == Filled(c, block, i)
    ensures Skip(Size(TypeOf(c)), i + 1) == Skip(Size(TypeOf(c)), i) + Size(TypeOf(c)) <= |block|
    ensures i < Len(prev)
    ensures Filled(c, block, i + 1)
      == SetAt(prev, i, DecodeElem(TypeOf(c), block[Skip(Size(TypeOf(c)), i) .. Skip(Size(TypeOf(c)), i) + Size(TypeOf(c))]))
  {
    var es := Size(TypeOf(c));
    SkipMono(es, i + 1, m);
    assert Skip(es, i + 1) == Skip(es, i) + es;
    FilledNext(c, block, i, i + 1, prev);
  }

  /** `chunks_exact` stops after the last whole chunk: i chunks of es bytes
      fill the block exactly when no further chunk fits. */
  lemma {:induction false} ChunksEnd(es: nat, m: nat, i: nat, len: nat)
    requires i <= m && Skip(es, m) == len && Skip(es, i) + es > len
    ensures i == m
  {
    if i < m {
      assert Skip(es, i + 1) == Skip(es, i) + es;
      SkipMono(es, i + 1, m);
    }
  }

  /** The `match field.type_` arm for one block of m elements: all m are
      stored, but for I8 only as many as the column holds. */
  method StoreBlock(c: Column, block: seq<byte>, ghost m: nat) returns (c': Column)
    requires Skip(Size(TypeOf(c)), m) == |block|
    requires TypeOf(c) != I8 ==> m <= Len(c)
    requires TypeOf(c) == U8 ==> m == Len(c)
    ensures c' == Filled(c, block, if TypeOf(c) == I8 && Len(c) < m then Len(c) else m)
  {
    var vt := TypeOf(c);
    if vt == ValueType.U8 {
      SkipIsProduct(1, m);
      c' := CopyBytes(c, block);
    } else if vt == ValueType.I8 {
      SkipIsProduct(1, m);
      c' := StoreSignedBytes(c, block);
    } else {
      c' := StoreChunks(c, block, m);
    }
  }

  /** One pass of the field loop: field f's block, at the offset, into
      the column of its name. */
  method StoreField(l: PcdLayout, n: nat, buf: seq<byte>, index: map<string, nat>, cols: seq<Column>,
                    f: nat, offset: nat, cur: seq<Column>)
    returns (next: seq<Column>, end: nat)
    requires f < |l.fields| && FieldFits(l, n, f)
    requires l.fields[f].elementSize == Size(l.fields[f].vt)
    requires l.fields[f].name in index && index[l.fields[f].name] < |cols|
    requires Len(cols[index[l.fields[f].name]]) == n && TypeOf(cols[index[l.fields[f].name]]) == l.fields[f].vt
    requires offset == BlockStart(l, n, f) && BlockStart(l, n, f + 1) <= |buf|
    requires cur == BlocksStored(cols, index, l, n, buf, f)
    ensures next == BlocksStored(cols, index, l, n, buf, f + 1)
    ensures end == BlockStart(l, n, f + 1)
  {
    var fl := l.fields[f];
    var s := index[fl.name];
    var bytesPerBlock := fl.elementSize * fl.count * n;
    BlockElems(fl.elementSize, fl.count, n);
    end := offset + bytesPerBlock;
    var block := buf[offset .. end];
    ElemsFit(l, n, f);
    BlocksStoredNext(cols, index, l, n, buf, f, f + 1, cur);
    assert block == Block(l, n, buf, f);
    var col := StoreBlock(cur[s], block, Skip(fl.count, n));
    assert col == Filled(cur[s], Block(l, n, buf, f), Reach(l, n, f, n));
    next := cur[s := col];
  }

  /** The field loop: each field's block, at the running offset, into the
      column `get_column_mut` finds; a field without one stops the loop
      with InvalidDataFormat. The columns are passed in and handed back. */
  method StoreBlocks(l: PcdLayout, n: nat, buf: seq<byte>, index: map<string, nat>, cols: seq<Column>)
    returns (r: Result<()>, cols': seq<Column>)
    requires SizesMatch(l) && IndexInto(index, cols) && AllLen(cols, n)
    requires Storable(l, n, cols, index) && BlockStart(l, n, |l.fields|) <= |buf|
    ensures r == StoredResult(l, index)
    ensures cols' == Stored(cols, index, l, n, buf)
  {
    var offset := 0;
    cols' := cols;
    var f := 0;
    while f < |l.fields|
      invariant f <= |l.fields| && offset == BlockStart(l, n, f)
      invariant FirstMissing(l, index, 0) == FirstMissing(l, index, f)
      invariant BlockStart(l, n, f) <= |buf|
      invariant cols' == BlocksStored(cols, index, l, n, buf, f)
    {
      var fl := l.fields[f];
      if fl.name !in index {
        StoppedAt(l, index, f);
        return Err(InvalidDataFormat("Missing column " + fl.name)), cols';
      }
      BlockStartMono(l, n, f + 1, |l.fields|);
      FieldStorable(l, n, index, cols, f);
      cols', offset := StoreField(l, n, buf, index, cols, f, offset, cols');
      f := f + 1;
    }
    StoppedAt(l, index, f);
    r := Ok(());
  }

  /** What the store of field f needs, for a field with a column. */
  lemma {:induction false} FieldStorable(l: PcdLayout, n: nat, index: map<string, nat>, cols: seq<Column>, f: nat)
    requires SizesMatch(l) && IndexInto(index, cols) && AllLen(cols, n) && Storable(l, n, cols, index)
    requires f < |l.fields| && l.fields[f].name in index && FirstMissing(l, index, 0) == FirstMissing(l, index, f)
    ensures f < FirstMissing(l, index, 0)
    ensures FieldFits(l, n, f) && l.fields[f].elementSize == Size(l.fields[f].vt)
    ensures index[l.fields[f].name] < |cols| && Len(cols[index[l.fields[f].name]]) == n
    ensures TypeOf(cols[index[l.fields[f].name]]) == l.fields[f].vt
  {
    assert FirstMissing(l, index, f) == FirstMissing(l, index, f + 1);
  }

  /** The field loop stopped at f, at the end or at the first field
      without a column: the store holds the blocks before f. */
  lemma {:induction false} StoppedAt(l: PcdLayout, index: map<string, nat>, f: nat)
    requires f <= |l.fields| && FirstMissing(l, index, 0) == FirstMissing(l, index, f)
    requires f < |l.fields| ==> l.fields[f].name !in index
    ensures FirstMissing(l, index, 0) == f
    ensures f < |l.fields| ==> StoredResult(l, index) == Err(InvalidDataFormat("Missing column " + l.fields[f].name))
    ensures f == |l.fields| ==> StoredResult(l, index) == Ok(())
  {
    assert FirstMissing(l, index, f) == f;
  }

  /** `CompressedReader::decode`. A short stream, a failed decompression
      or a buffer of the wrong length is reported before the store is
      touched; only then are the fields the loop reaches asked to fit their
      columns (Storable). */
  method Decode(l: PcdLayout, n: nat, data: seq<byte>, lzf: Lzf, output: PointBlock) returns (r: Result<()>)
    requires output.Valid() && WellFormed(l) && IndexInto(output.nameToIndex, output.columns)
    requires Buffer(l, n, data, lzf).Ok? ==> Storable(l, n, output.columns, output.nameToIndex)
    modifies output
    ensures output.Valid() && output.schema == old(output.schema) && output.nameToIndex == old(output.nameToIndex)
    ensures Buffer(l, n, data, lzf).Err? ==>
      r == Err(Buffer(l, n, data, lzf).error)
      && output.columns == old(output.columns) && output.len == old(output.len)
    ensures Buffer(l, n, data, lzf).Ok? ==>
      BlocksCover(l, n) && SizesMatch(l)
      && r == StoredResult(l, old(output.nameToIndex)) && output.len == n
      && output.columns == Stored(ResizedAll(old(output.columns), n), old(output.nameToIndex), l, n, Buffer(l, n, data, lzf).value)
  {
    var fr :- ReadFrame(data);
    var buf :- Inflate(lzf, fr);
    var expected := l.totalSize * n;
    if fr.size != expected {
      return Err(LayoutMismatch(expected, fr.size));
    }
    r := Fill(l, n, buf, output);
  }

  /** The part of the decoder after the buffer is in hand: the store is
      resized to n points and the blocks are written into it. */
  method Fill(l: PcdLayout, n: nat, buf: seq<byte>, output: PointBlock) returns (r: Result<()>)
    requires output.Valid() && WellFormed(l) && IndexInto(output.nameToIndex, output.columns)
    requires Storable(l, n, output.columns, output.nameToIndex)
    requires |buf| == l.totalSize * n
    modifies output
    ensures output.Valid() && output.schema == old(output.schema) && output.nameToIndex == old(output.nameToIndex)
    ensures BlocksCover(l, n) && SizesMatch(l)
    ensures r == StoredResult(l, old(output.nameToIndex)) && output.len == n
    ensures output.columns == Stored(ResizedAll(old(output.columns), n), old(output.nameToIndex), l, n, buf)
  {
    ghost var cols0 := output.columns;
    output.Resize(n);
    assert output.columns == ResizedAll(cols0, n);
    StorableResized(l, n, cols0, output.nameToIndex, n);
    WellFormedSizes(l);
    BlocksCoverFromLayout(l, n);
    var cols;
    r, cols := StoreBlocks(l, n, buf, output.nameToIndex, output.columns);
    StoredTyped(output.columns, output.nameToIndex, l, n, buf);
    output.columns := cols;
  }

  /** The decoder's store keeps every column well typed. */
  lemma {:induction false} StoredTyped(cols: seq<Column>, index: map<string, nat>, l: PcdLayout, n: nat, buf: seq<byte>)
    requires SizesMatch(l) && IndexInto(index, cols) && AllLen(cols, n) && AllTyped(cols)
    requires Storable(l, n, cols, index) && BlockStart(l, n, |l.fields|) <= |buf|
    ensures AllTyped(Stored(cols, index, l, n, buf))
  {
    BlockStartMono(l, n, FirstMissing(l, index, 0), |l.fields|);
    BlocksStoredTyped(cols, index, l, n, buf, FirstMissing(l, index, 0));
  }

  // ----- properties -----

  /** The blocks together are the whole buffer: their lengths add up to
      total_size * n. */
  predicate BlocksCover(l: PcdLayout, n: nat)
  {
    BlockStart(l, n, |l.fields|) == l.totalSize * n
  }

  /** Each field's byte size is its elements' sizes added up. */
  predicate ProductSizes(l: PcdLayout)
  {
    forall f :: 0 <= f < |l.fields| ==> l.fields[f].size == Skip(l.fields[f].elementSize, l.fields[f].count)
  }

  lemma {:induction false} WellFormedProducts(l: PcdLayout)
    requires WellFormed(l)
    ensures ProductSizes(l)
  {
    forall f | 0 <= f < |l.fields|
      ensures l.fields[f].size == Skip(l.fields[f].elementSize, l.fields[f].count)
    {
      SkipIsProduct(l.fields[f].elementSize, l.fields[f].count);
    }
  }

  lemma {:induction false} WellFormedSizes(l: PcdLayout)
    requires WellFormed(l)
    ensures SizesMatch(l)
  {
  }

  /** n rows of a + b bytes are n rows of a and n rows of b. */
  lemma {:induction false} SkipAdd(a: nat, b: nat, n: nat)
    ensures Skip(a + b, n) == Skip(a, n) + Skip(b, n)
    decreases n
  {
    if n > 0 {
      SkipAdd(a, b, n - 1);
    }
  }

  /** Field f's block starts n times the byte sizes of the fields before it. */
  lemma {:induction false} BlockStartIsSum(l: PcdLayout, n: nat, f: nat)
    requires ProductSizes(l) && f <= |l.fields|
    ensures BlockStart(l, n, f) == Skip(SumSizes(l.fields[..f]), n)
    decreases f
  {
    if f > 0 {
      var fl := l.fields[f - 1];
      BlockStartIsSum(l, n, f - 1);
      assert Skip(fl.elementSize, fl.count) == fl.size;
      assert BlockLen(l, n, f - 1) == Skip(fl.size, n);
      SumSizesStep(l.fields, f - 1);
      SkipAdd(SumSizes(l.fields[..f - 1]), fl.size, n);
    } else {
      assert l.fields[..0] == [];
      SkipIsProduct(0, n);
    }
  }

  /** Under the resolver's layout the blocks cover the buffer exactly. */
  lemma {:induction false} BlocksCoverFromLayout(l: PcdLayout, n: nat)
    requires WellFormed(l)
    ensures BlocksCover(l, n)
  {
    WellFormedProducts(l);
    BlockStartIsSum(l, n, |l.fields|);
    assert l.fields[..|l.fields|] == l.fields;
    SkipIsProduct(l.totalSize, n);
  }

  /** A frame written with its two u32 lengths reads back as itself,
      whatever follows it. */
  lemma {:induction false} ReadFrameBytes(fr: Frame, rest: seq<byte>)
    requires Framable(fr)
    ensures ReadFrame(FrameBytes(fr) + rest) == Ok(fr)
  {
    Pow256Values();
    var data := FrameBytes(fr) + rest;
    assert data[..4] == LeEncode(|fr.payload|, 4);
    assert data[4..8] == LeEncode(fr.size, 4);
    assert data[8 .. 8 + |fr.payload|] == fr.payload;
  }

  /** What LZF compressed inflates back, once framed with its length. */
  lemma {:induction false} InflateRoundTrip(lzf: Lzf, x: seq<byte>)
    requires LzfRoundTrip(lzf) && lzf.compress(x).Compressed?
    ensures Inflate(lzf, Frame(lzf.compress(x).bytes, |x|)) == Ok(x)
  {
  }

  /** A store element the blocks do not reach keeps its value: no field
      before f that names slot s has j among its count * n elements. */
  lemma {:induction false} BlocksStoredKept(cols: seq<Column>, index: map<string, nat>, l: PcdLayout, n: nat,
                                            buf: seq<byte>, f: nat, s: nat, j: nat)
    requires f <= |l.fields| && s < |cols| && j < Len(cols[s])
    requires forall h :: 0 <= h < f && l.fields[h].name in index && index[l.fields[h].name] == s ==>
      Reach(l, n, h, Len(cols[s])) <= j
    ensures Values(BlocksStored(cols, index, l, n, buf, f)[s])[j] == Values(cols[s])[j]
    decreases f
  {
    if f > 0 {
      var g := f - 1;
      BlocksStoredKept(cols, index, l, n, buf, g, s, j);
      var prev := BlocksStored(cols, index, l, n, buf, g);
      var fl := l.fields[g];
      BlocksStoredStep(cols, index, l, n, buf, g, f);
      if fl.name in index && index[fl.name] == s && Reach(l, n, g, Len(prev[s])) <= Len(prev[s]) && BlockStart(l, n, f) <= |buf| {
        FilledAt(prev[s], Block(l, n, buf, g), Reach(l, n, g, Len(prev[s])), j);
      }
    }
  }

  /** The decoded store, point by point, when every layout field has a
      column and the names are distinct: the column of field f holds at
      position j the j-th element of the field's block, for the count * n
      elements the block has, and what resizing left there beyond. */
  lemma {:induction false} StoredValues(cols: seq<Column>, schema: seq<string>, l: PcdLayout, n: nat, buf: seq<byte>, f: nat, j: nat)
    requires BlocksFit(l, n) && SizesMatch(l) && IndexInto(IndexMap(schema), cols)
    requires TypesAgree(l, cols, IndexMap(schema)) && AllLen(cols, n)
    requires AllPresent(l, IndexMap(schema)) && Distinct(FieldNames(l))
    requires BlockStart(l, n, |l.fields|) <= |buf| && f < |l.fields| && j < n
    ensures BlockStart(l, n, f + 1) <= |buf|
    ensures var s := IndexMap(schema)[l.fields[f].name];
      s < |cols|
      && Values(Stored(cols, IndexMap(schema), l, n, buf)[s])[j]
         == if j < Skip(l.fields[f].count, n) then BlockElem(l.fields[f].vt, Block(l, n, buf, f), j)
            else Values(cols[s])[j]
  {
    var index := IndexMap(schema);
    var name := l.fields[f].name;
    var s := index[name];
    BlockStartMono(l, n, f + 1, |l.fields|);
    StorableAllPresent(l, n, cols, index);
    assert FirstMissing(l, index, 0) == |l.fields|;
    forall h | 0 <= h < |l.fields| && h != f
      ensures index[l.fields[h].name] != s
    {
      assert FieldNames(l)[h] != FieldNames(l)[f];
      IndexMapInjective(schema, l.fields[h].name, name);
    }
    if j < Skip(l.fields[f].count, n) {
      BlocksStoredAt(cols, index, l, n, buf, |l.fields|, f, j);
    } else {
      BlocksStoredKept(cols, index, l, n, buf, |l.fields|, s, j);
    }
  }

  /** A column no layout field names comes out as resizing left it. */
  lemma {:induction false} StoredUntouched(cols: seq<Column>, index: map<string, nat>, l: PcdLayout, n: nat, buf: seq<byte>, s: nat)
    requires s < |cols|
    requires forall f :: 0 <= f < |l.fields| && l.fields[f].name in index ==> index[l.fields[f].name] != s
    ensures Stored(cols, index, l, n, buf)[s] == cols[s]
  {
    BlocksStoredUntouched(cols, index, l, n, buf, FirstMissing(l, index, 0), s);
  }
}

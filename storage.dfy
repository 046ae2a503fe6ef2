/** The structure-of-arrays point store (src/storage/mod.rs): one typed
    column per schema field, a name-to-index map and the point count.
    Columns are values; a mutable borrow of a column is modelled as its
    slot index in `columns`, through which decoders write. */
module Storage {
  import opened Errors
  import opened Bytes
  import opened Header
  import opened Elements

  /** One column: the Rust enum's variant, as the element type it names,
      and the vector of that type it holds. Float values are their bit
      patterns. */
  datatype Column = Column(vt: ValueType, elems: seq<int>)

  /** Every element lies in the range of the variant's element type, as a
      Rust vector of that type guarantees. */
  predicate WellTyped(c: Column)
  {
    forall j :: 0 <= j < |c.elems| ==> InRange(c.vt, c.elems[j])
  }

  /** The value type a column holds (its variant). */
  function TypeOf(c: Column): ValueType
  {
    c.vt
  }

  /** The elements of a column as integers (bit patterns for floats). */
  function Values(c: Column): seq<int>
  {
    c.elems
  }

  /** The column of type vt holding exactly vs; it is well typed exactly
      when every value is in vt's range. */
  function FromValues(vt: ValueType, vs: seq<int>): (c: Column)
    ensures TypeOf(c) == vt && Values(c) == vs
    ensures WellTyped(c) <==> forall j :: 0 <= j < |vs| ==> InRange(vt, vs[j])
  {
    Column(vt, vs)
  }

  lemma {:induction false} InRangeMembers(vt: ValueType, vs: seq<int>)
    requires forall j :: 0 <= j < |vs| ==> InRange(vt, vs[j])
    ensures forall x | x in vs :: InRange(vt, x)
  {
    forall x | x in vs
      ensures InRange(vt, x)
    {
      var j :| 0 <= j < |vs| && vs[j] == x;
    }
  }

  /** A column is determined by its type and its values. */
  lemma {:induction false} ColumnExtensional(c: Column, d: Column)
    requires TypeOf(c) == TypeOf(d) && Values(c) == Values(d)
    ensures c == d
  {
  }

  /** `Column::len`. */
  function Len(c: Column): (n: nat)
    ensures n == |Values(c)|
  {
    |c.elems|
  }

  /** `Column::is_empty`. */
  predicate IsEmpty(c: Column)
  {
    Len(c) == 0
  }

  function Zeros(n: nat): (zs: seq<int>)
    ensures |zs| == n && forall j :: 0 <= j < n ==> zs[j] == 0
  {
    seq(n, _ => 0)
  }

  /** `Column::new(t, n)`: n zero elements of type t. */
  function NewColumn(vt: ValueType, n: nat): (c: Column)
    ensures TypeOf(c) == vt && Len(c) == n && WellTyped(c)
    ensures forall j :: 0 <= j < n ==> Values(c)[j] == 0
  {
    FromValues(vt, Zeros(n))
  }

  /** `Vec::resize(m, 0)` on plain values: truncate, or pad with zeros. */
  function ResizeValues(vs: seq<int>, m: nat): seq<int>
  {
    if m <= |vs| then vs[..m] else vs + Zeros(m - |vs|)
  }

  /** `Column::resize(m)`: same type, length m, the first min(old, m)
      elements kept and every new element zero. */
  function Resized(c: Column, m: nat): (r: Column)
    ensures TypeOf(r) == TypeOf(c) && Len(r) == m
    ensures forall j :: 0 <= j < m && j < Len(c) ==> Values(r)[j] == Values(c)[j]
    ensures forall j :: Len(c) <= j < m ==> Values(r)[j] == 0
    ensures WellTyped(c) ==> WellTyped(r)
  {
    FromValues(TypeOf(c), ResizeValues(Values(c), m))
  }

  /** Resizing to the current length changes nothing; resizing twice is
      resizing once to the second length when the first did not shrink
      below it. */
  lemma {:induction false} ResizedLaws(c: Column, m: nat, m': nat)
    ensures Resized(c, Len(c)) == c
    ensures m' <= m || Len(c) <= m ==> Resized(Resized(c, m), m') == Resized(c, m')
  {
    assert Values(Resized(c, Len(c))) == Values(c);
    ColumnExtensional(Resized(c, Len(c)), c);
    var a := Resized(Resized(c, m), m');
    var b := Resized(c, m');
    if m' <= m || Len(c) <= m {
      assert Values(a) == Values(b);
      ColumnExtensional(a, b);
    }
  }

  /** Writing element j of a column (`vec[j] = v` through a typed mutable
      accessor); j must be in bounds, as Rust's indexing panics
      otherwise. */
  function SetAt(c: Column, j: nat, v: int): (r: Column)
    requires j < Len(c)
    ensures TypeOf(r) == TypeOf(c) && Values(r) == Values(c)[j := v]
    ensures WellTyped(c) && InRange(TypeOf(c), v) ==> WellTyped(r)
  {
    FromValues(TypeOf(c), Values(c)[j := v])
  }

  /** `as_ptr_mut`'s byte length: elements times element size. */
  function ByteLen(c: Column): (n: nat)
    ensures n == Len(c) * Size(TypeOf(c))
  {
    |c.elems| * Size(c.vt)
  }

  // ----- typed accessors (`as_*` and `as_*_mut`) -----

  function AsU8(c: Column): (r: Option<seq<byte>>)
    requires WellTyped(c)
    ensures r.Some? <==> TypeOf(c) == ValueType.U8
    ensures r.Some? ==> r.value == Values(c)
  {
    if c.vt == ValueType.U8 then
      InRangeMembers(c.vt, c.elems);
      var xs: seq<byte> := c.elems; Some(xs)
    else None
  }

  function AsU16(c: Column): (r: Option<seq<u16>>)
    requires WellTyped(c)
    ensures r.Some? <==> TypeOf(c) == ValueType.U16
    ensures r.Some? ==> r.value == Values(c)
  {
    if c.vt == ValueType.U16 then
      InRangeMembers(c.vt, c.elems);
      var xs: seq<u16> := c.elems; Some(xs)
    else None
  }

  function AsU32(c: Column): (r: Option<seq<u32>>)
    requires WellTyped(c)
    ensures r.Some? <==> TypeOf(c) == ValueType.U32
    ensures r.Some? ==> r.value == Values(c)
  {
    if c.vt == ValueType.U32 then
      InRangeMembers(c.vt, c.elems);
      var xs: seq<u32> := c.elems; Some(xs)
    else None
  }

  function AsI8(c: Column): (r: Option<seq<i8>>)
    requires WellTyped(c)
    ensures r.Some? <==> TypeOf(c) == ValueType.I8
    ensures r.Some? ==> r.value == Values(c)
  {
    if c.vt == ValueType.I8 then
      InRangeMembers(c.vt, c.elems);
      var xs: seq<i8> := c.elems; Some(xs)
    else None
  }

  function AsI16(c: Column): (r: Option<seq<i16>>)
    requires WellTyped(c)
    ensures r.Some? <==> TypeOf(c) == ValueType.I16
    ensures r.Some? ==> r.value == Values(c)
  {
    if c.vt == ValueType.I16 then
      InRangeMembers(c.vt, c.elems);
      var xs: seq<i16> := c.elems; Some(xs)
    else None
  }

  function AsI32(c: Column): (r: Option<seq<i32>>)
    requires WellTyped(c)
    ensures r.Some? <==> TypeOf(c) == ValueType.I32
    ensures r.Some? ==> r.value == Values(c)
  {
    if c.vt == ValueType.I32 then
      InRangeMembers(c.vt, c.elems);
      var xs: seq<i32> := c.elems; Some(xs)
    else None
  }

  function AsF32(c: Column): (r: Option<seq<F32Bits>>)
    requires WellTyped(c)
    ensures r.Some? <==> TypeOf(c) == ValueType.F32
    ensures r.Some? ==> r.value == Values(c)
  {
    if c.vt == ValueType.F32 then
      InRangeMembers(c.vt, c.elems);
      var xs: seq<F32Bits> := c.elems; Some(xs)
    else None
  }

  function AsF64(c: Column): (r: Option<seq<F64Bits>>)
    requires WellTyped(c)
    ensures r.Some? <==> TypeOf(c) == ValueType.F64
    ensures r.Some? ==> r.value == Values(c)
  {
    if c.vt == ValueType.F64 then
      InRangeMembers(c.vt, c.elems);
      var xs: seq<F64Bits> := c.elems; Some(xs)
    else None
  }

  /** Exactly one typed accessor answers for any column: there is no
      coercion between element types. */
  lemma {:induction false} AccessorsExclusive(c: Column)
    requires WellTyped(c)
    ensures (if AsU8(c).Some? then 1 else 0) + (if AsU16(c).Some? then 1 else 0)
          + (if AsU32(c).Some? then 1 else 0) + (if AsI8(c).Some? then 1 else 0)
          + (if AsI16(c).Some? then 1 else 0) + (if AsI32(c).Some? then 1 else 0)
          + (if AsF32(c).Some? then 1 else 0) + (if AsF64(c).Some? then 1 else 0) == 1
  {
  }

  // ----- the name index -----

  /** `name_to_index` after inserting (name, i) for every schema position i
      in order: later positions overwrite earlier ones. */
  function IndexMap(names: seq<string>): (m: map<string, nat>)
    ensures forall name :: name in m <==> name in names
    ensures forall name :: name in m ==> m[name] < |names|
  {
    if |names| == 0 then map[]
    else IndexMap(names[..|names| - 1])[names[|names| - 1] := |names| - 1]
  }

  /** Inserting one more schema name: the index maps it to its position. */
  lemma {:induction false} IndexMapSnoc(names: seq<string>, name: string)
    ensures IndexMap(names + [name]) == IndexMap(names)[name := |names|]
  {
    assert (names + [name])[..|names|] == names;
  }

  /** Different names of the schema have different indices. */
  lemma {:induction false} IndexMapInjective(names: seq<string>, a: string, b: string)
    requires a in names && b in names && a != b
    ensures IndexMap(names)[a] != IndexMap(names)[b]
  {
    IndexMapLast(names, a);
    IndexMapLast(names, b);
  }

  /** The index of a name is its last position in the schema. */
  lemma {:induction false} IndexMapLast(names: seq<string>, name: string)
    requires name in names
    ensures var i := IndexMap(names)[name];
      names[i] == name && forall j :: i < j < |names| ==> names[j] != name
    decreases |names|
  {
    var n := |names| - 1;
    var init := names[..n];
    assert IndexMap(names) == IndexMap(init)[names[n] := n];
    if names[n] != name {
      assert name in init by {
        var k :| 0 <= k < |names| && names[k] == name;
        assert init[k] == name;
      }
      IndexMapLast(init, name);
      var i := IndexMap(init)[name];
      assert IndexMap(names)[name] == i;
      assert names[i] == init[i];
      forall j | i < j < |names|
        ensures names[j] != name
      {
        if j < n {
          assert names[j] == init[j];
        }
      }
    }
  }

  /** The point store. */
  class PointBlock {
    var columns: seq<Column>
    var schema: seq<string>
    var nameToIndex: map<string, nat>
    var len: nat

    /** What every store keeps: one well-typed column per schema name and
        the index built from the schema. */
    ghost predicate Valid()
      reads this
    {
      |columns| == |schema| && nameToIndex == IndexMap(schema) && AllTyped(columns)
    }

    /** Every column holds `len` elements, as after `new` and `resize`. */
    ghost predicate Uniform()
      reads this
    {
      forall i :: 0 <= i < |columns| ==> Len(columns[i]) == len
    }

    /** `PointBlock::new(schema, cap)`. */
    constructor (fields: seq<(string, ValueType)>, capacity: nat)
      ensures Valid() && Uniform()
      ensures |columns| == |fields| && len == capacity
      ensures forall i :: 0 <= i < |fields| ==>
        columns[i] == NewColumn(fields[i].1, capacity) && schema[i] == fields[i].0
    {
      var cols: seq<Column> := [];
      var names: seq<string> := [];
      var index: map<string, nat> := map[];
      var i := 0;
      while i < |fields|
        invariant i <= |fields| && |cols| == i && |names| == i
        invariant forall j :: 0 <= j < i ==> cols[j] == NewColumn(fields[j].1, capacity) && names[j] == fields[j].0
        invariant index == IndexMap(names)
      {
        var (name, vt) := fields[i];
        cols := cols + [NewColumn(vt, capacity)];
        IndexMapSnoc(names, name);
        names := names + [name];
        index := index[name := i];
        i := i + 1;
      }
      columns := cols;
      schema := names;
      nameToIndex := index;
      len := capacity;
    }

    /** `PointBlock::resize(m)`: every column resized and `len` set. */
    method Resize(m: nat)
      modifies this
      ensures schema == old(schema) && nameToIndex == old(nameToIndex) && len == m
      ensures |columns| == |old(columns)|
      ensures forall i :: 0 <= i < |columns| ==> columns[i] == Resized(old(columns[i]), m)
      ensures Uniform()
      ensures old(Valid()) ==> Valid()
    {
      var i := 0;
      while i < |columns|
        invariant i <= |columns| && |columns| == |old(columns)|
        invariant schema == old(schema) && nameToIndex == old(nameToIndex)
        invariant forall j :: 0 <= j < i ==> columns[j] == Resized(old(columns[j]), m)
        invariant forall j :: i <= j < |columns| ==> columns[j] == old(columns[j])
      {
        columns := columns[i := Resized(columns[i], m)];
        i := i + 1;
      }
      len := m;
    }

    /** `get_column_index`. */
    function GetColumnIndex(name: string): (r: Option<nat>)
      reads this
      requires Valid()
      ensures r.Some? <==> name in schema
      ensures r.Some? ==> (r.value < |columns| && schema[r.value] == name
        && forall j :: r.value < j < |schema| ==> schema[j] != name)
    {
      if name in nameToIndex then
        IndexMapLast(schema, name);
        Some(nameToIndex[name])
      else None
    }

    /** `get_column` (and `get_column_mut`, whose borrow is the slot
        `GetColumnIndex` names): the column at the name's index. */
    function GetColumn(name: string): (r: Option<Column>)
      reads this
      requires Valid()
      ensures r.Some? <==> name in schema
      ensures r.Some? ==> r.value == columns[GetColumnIndex(name).value]
    {
      match GetColumnIndex(name)
      case None => None
      case Some(i) => Some(columns[i])
    }

    /** `get_column_by_index` (and its mutable twin). */
    function GetColumnByIndex(i: nat): (r: Option<Column>)
      reads this
      ensures r.Some? <==> i < |columns|
      ensures r.Some? ==> r.value == columns[i]
      ensures Valid() && r.Some? ==> i < |schema| && WellTyped(r.value)
      ensures Valid() && i < |schema| && GetColumnIndex(schema[i]) == Some(i) ==> r == GetColumn(schema[i])
    {
      if i < |columns| then Some(columns[i]) else None
    }

    /** `get_columns_mut`: the slots of the named columns, in request order,
        or None for a duplicate or an absent name. */
    method GetColumnsMut(names: seq<string>) returns (r: Option<seq<nat>>)
      requires Valid()
      ensures r.None? <==> !Distinct(names) || exists i :: 0 <= i < |names| && names[i] !in schema
      ensures r.Some? ==>
        |r.value| == |names|
        && (forall i :: 0 <= i < |names| ==>
              names[i] in nameToIndex && r.value[i] == nameToIndex[names[i]]
              && r.value[i] < |columns| && schema[r.value[i]] == names[i])
        && (forall i, j :: 0 <= i < j < |names| ==> r.value[i] != r.value[j])
    {
      for i := 0 to |names|
        invariant forall a, b :: 0 <= a < i && a < b < |names| ==> names[a] != names[b]
      {
        for j := i + 1 to |names|
          invariant forall b :: i < b < j ==> names[i] != names[b]
        {
          if names[i] == names[j] {
            return None;
          }
        }
      }
      var indices: seq<nat> := [];
      for i := 0 to |names|
        invariant |indices| == i
        invariant forall k :: 0 <= k < i ==>
          names[k] in nameToIndex && indices[k] == nameToIndex[names[k]]
          && indices[k] < |columns| && schema[indices[k]] == names[k]
      {
        if names[i] in nameToIndex {
          IndexMapLast(schema, names[i]);
          indices := indices + [nameToIndex[names[i]]];
        } else {
          return None;
        }
      }
      return Some(indices);
    }

    /** The named column exists and has type vt. */
    predicate HasColumn(name: string, vt: ValueType)
      reads this
      requires Valid()
    {
      GetColumn(name).Some? && TypeOf(GetColumn(name).value) == vt
    }

    /** `xyz`. */
    function Xyz(): (r: Option<(seq<F32Bits>, seq<F32Bits>, seq<F32Bits>)>)
      reads this
      requires Valid()
      ensures r.Some? <==>
        HasColumn("x", ValueType.F32) && HasColumn("y", ValueType.F32) && HasColumn("z", ValueType.F32)
      ensures r.Some? ==> (r.value.0 == Values(GetColumn("x").value)
        && r.value.1 == Values(GetColumn("y").value) && r.value.2 == Values(GetColumn("z").value))
    {
      var x :- Lookup(GetColumn("x"), AsF32);
      var y :- Lookup(GetColumn("y"), AsF32);
      var z :- Lookup(GetColumn("z"), AsF32);
      Some((x, y, z))
    }

    /** `xyzi`. */
    function Xyzi(): (r: Option<(seq<F32Bits>, seq<F32Bits>, seq<F32Bits>, seq<F32Bits>)>)
      reads this
      requires Valid()
      ensures r.Some? <==> Xyz().Some? && HasColumn("intensity", ValueType.F32)
      ensures r.Some? ==> ((r.value.0, r.value.1, r.value.2) == Xyz().value
        && r.value.3 == Values(GetColumn("intensity").value))
    {
      var (x, y, z) :- Xyz();
      var i :- Lookup(GetColumn("intensity"), AsF32);
      Some((x, y, z, i))
    }

    /** `xyzrgb`: the colour is a packed u32 column. */
    function Xyzrgb(): (r: Option<(seq<F32Bits>, seq<F32Bits>, seq<F32Bits>, seq<u32>)>)
      reads this
      requires Valid()
      ensures r.Some? <==> Xyz().Some? && HasColumn("rgb", ValueType.U32)
      ensures r.Some? ==> ((r.value.0, r.value.1, r.value.2) == Xyz().value
        && r.value.3 == Values(GetColumn("rgb").value))
    {
      var (x, y, z) :- Xyz();
      var rgb :- Lookup(GetColumn("rgb"), AsU32);
      Some((x, y, z, rgb))
    }

    /** `xyzir`: intensity F32, ring U16. */
    function Xyzir(): (r: Option<(seq<F32Bits>, seq<F32Bits>, seq<F32Bits>, seq<F32Bits>, seq<u16>)>)
      reads this
      requires Valid()
      ensures r.Some? <==> Xyzi().Some? && HasColumn("ring", ValueType.U16)
      ensures r.Some? ==> ((r.value.0, r.value.1, r.value.2, r.value.3) == Xyzi().value
        && r.value.4 == Values(GetColumn("ring").value))
    {
      var (x, y, z, i) :- Xyzi();
      var ring :- Lookup(GetColumn("ring"), AsU16);
      Some((x, y, z, i, ring))
    }

    /** `xyzirt`: and a timestamp F64. */
    function Xyzirt(): (r: Option<(seq<F32Bits>, seq<F32Bits>, seq<F32Bits>, seq<F32Bits>, seq<u16>, seq<F64Bits>)>)
      reads this
      requires Valid()
      ensures r.Some? <==> Xyzir().Some? && HasColumn("timestamp", ValueType.F64)
      ensures r.Some? ==> ((r.value.0, r.value.1, r.value.2, r.value.3, r.value.4) == Xyzir().value
        && r.value.5 == Values(GetColumn("timestamp").value))
    {
      var (x, y, z, i, ring) :- Xyzir();
      var t :- Lookup(GetColumn("timestamp"), AsF64);
      Some((x, y, z, i, ring, t))
    }

    /** `xyzirt_id`: and an id U32. */
    function XyzirtId(): (r: Option<(seq<F32Bits>, seq<F32Bits>, seq<F32Bits>, seq<F32Bits>, seq<u16>, seq<F64Bits>, seq<u32>)>)
      reads this
      requires Valid()
      ensures r.Some? <==> Xyzirt().Some? && HasColumn("id", ValueType.U32)
      ensures r.Some? ==> ((r.value.0, r.value.1, r.value.2, r.value.3, r.value.4, r.value.5) == Xyzirt().value
        && r.value.6 == Values(GetColumn("id").value))
    {
      var (x, y, z, i, ring, t) :- Xyzirt();
      var id :- Lookup(GetColumn("id"), AsU32);
      Some((x, y, z, i, ring, t, id))
    }
  }

  /** Every column is well typed. */
  predicate AllTyped(cols: seq<Column>)
  {
    forall s :: 0 <= s < |cols| ==> WellTyped(cols[s])
  }

  /** No name occurs twice. */
  predicate Distinct(names: seq<string>)
  {
    forall i, j :: 0 <= i < j < |names| ==> names[i] != names[j]
  }

  /** `get_column(name)?.as_*()?`. */
  function Lookup<T>(c: Option<Column>, typed: Column --> Option<T>): Option<T>
    requires c.Some? ==> typed.requires(c.value)
  {
    match c
    case None => None
    case Some(col) => typed(col)
  }
}

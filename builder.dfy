/** The header builder (src/header/builder.rs): fields are added as
    (name, value type) pairs and SIZE, TYPE and COUNT are derived from the
    types when the header is built. The builder is a value; every setter
    returns an updated copy. */
module Builder {
  import opened Errors
  import opened Bytes
  import opened Header
  import opened Layout

  datatype HeaderBuilder = HeaderBuilder(
    fields: seq<(string, ValueType)>,
    width: Option<u32>,
    height: u32,
    data: DataFormat,
    viewpoint: Viewpoint,
    version: string)

  /** `PcdHeaderBuilder::new`: no fields, width unset, one row, binary
      body, identity viewpoint, version "0.7". */
  const NewBuilder: HeaderBuilder :=
    HeaderBuilder([], None, 1, Binary, IdentityViewpoint, "0.7")

  function AddField(b: HeaderBuilder, name: string, vt: ValueType): (r: HeaderBuilder)
    ensures r.fields == b.fields + [(name, vt)]
    ensures r.width == b.width && r.height == b.height && r.data == b.data
    ensures r.viewpoint == b.viewpoint && r.version == b.version
  {
    b.(fields := b.fields + [(name, vt)])
  }

  function SetWidth(b: HeaderBuilder, w: u32): HeaderBuilder
  {
    b.(width := Some(w))
  }

  function SetHeight(b: HeaderBuilder, h: u32): HeaderBuilder
  {
    b.(height := h)
  }

  function SetDataFormat(b: HeaderBuilder, fmt: DataFormat): HeaderBuilder
  {
    b.(data := fmt)
  }

  function SetViewpoint(b: HeaderBuilder, vp: Viewpoint): HeaderBuilder
  {
    b.(viewpoint := vp)
  }

  function SetVersion(b: HeaderBuilder, v: string): HeaderBuilder
  {
    b.(version := v)
  }

  /** `value_type_to_char`: the TYPE letter of a value type. Together with
      its size it names the type again in the layout resolver's table. */
  function TypeChar(vt: ValueType): (c: char)
    ensures c in {'I', 'U', 'F'}
    ensures TypeFromHeader(c, Size(vt)) == Ok(vt)
  {
    match vt
    case I8 | I16 | I32 => 'I'
    case U8 | U16 | U32 => 'U'
    case F32 | F64 => 'F'
  }

  /** The header `build` returns: width required, at least one field, and
      for each field in order its name, its type's size and letter, and
      count 1; points is width * height (which cannot overflow usize). */
  function BuiltHeader(b: HeaderBuilder): (r: Result<PcdHeader>)
    ensures b.width.None? ==> r == Err(InvalidHeader(0, "Width must be set"))
    ensures b.width.Some? && b.fields == [] ==>
      r == Err(InvalidHeader(0, "At least one field must be added"))
    ensures r.Ok? <==> b.width.Some? && b.fields != []
    ensures r.Ok? ==>
      var h := r.value;
      |h.fields| == |b.fields| && |h.sizes| == |b.fields| && |h.types| == |b.fields|
      && |h.counts| == |b.fields|
      && (forall i :: 0 <= i < |b.fields| ==>
            h.fields[i] == b.fields[i].0 && h.sizes[i] == Size(b.fields[i].1)
            && h.types[i] == TypeChar(b.fields[i].1) && h.counts[i] == 1)
      && h.width == b.width.value && h.height == b.height && h.points == h.width * h.height
      && h.version == b.version && h.viewpoint == b.viewpoint && h.data == b.data
  {
    if b.width.None? then Err(InvalidHeader(0, "Width must be set"))
    else if b.fields == [] then Err(InvalidHeader(0, "At least one field must be added"))
    else
      var n := |b.fields|;
      Ok(PcdHeader(b.version,
        seq(n, i requires 0 <= i < n => b.fields[i].0),
        seq(n, i requires 0 <= i < n => Size(b.fields[i].1)),
        seq(n, i requires 0 <= i < n => TypeChar(b.fields[i].1)),
        seq(n, _ => 1),
        b.width.value, b.height, b.viewpoint, b.width.value * b.height, b.data))
  }

  /** `build`: the loop that pushes one name, size, letter and count per field. */
  method Build(b: HeaderBuilder) returns (r: Result<PcdHeader>)
    ensures r == BuiltHeader(b)
  {
    if b.width.None? {
      return Err(InvalidHeader(0, "Width must be set"));
    }
    var width := b.width.value;
    if |b.fields| == 0 {
      return Err(InvalidHeader(0, "At least one field must be added"));
    }
    var names: seq<string> := [];
    var sizes: seq<usize> := [];
    var types: seq<char> := [];
    var counts: seq<usize> := [];
    var i := 0;
    while i < |b.fields|
      invariant i <= |b.fields|
      invariant |names| == i && |sizes| == i && |types| == i && |counts| == i
      invariant forall j :: 0 <= j < i ==>
        names[j] == b.fields[j].0 && sizes[j] == Size(b.fields[j].1)
        && types[j] == TypeChar(b.fields[j].1) && counts[j] == 1
    {
      var (name, vt) := b.fields[i];
      names := names + [name];
      sizes := sizes + [Size(vt)];
      types := types + [TypeChar(vt)];
      counts := counts + [1];
      i := i + 1;
    }
    var points: usize := width * b.height;
    var h := BuiltHeader(b).value;
    assert names == h.fields && sizes == h.sizes && types == h.types && counts == h.counts;
    return Ok(PcdHeader(b.version, names, sizes, types, counts, width, b.height, b.viewpoint, points, b.data));
  }

  // ----- properties -----

  /** Resolving the layout of a built header succeeds and gives back each
      added field: its name, its value type, count 1, and the type's size. */
  lemma {:induction false} BuiltLayout(b: HeaderBuilder)
    requires BuiltHeader(b).Ok?
    ensures ResolveLayout(BuiltHeader(b).value).Ok?
    ensures var l := ResolveLayout(BuiltHeader(b).value).value;
      |l.fields| == |b.fields|
      && forall i :: 0 <= i < |b.fields| ==>
           l.fields[i].name == b.fields[i].0 && l.fields[i].vt == b.fields[i].1
           && l.fields[i].count == 1 && l.fields[i].size == Size(b.fields[i].1)
  {
    var h := BuiltHeader(b).value;
    assert ResolvableUpTo(h, |h.fields|) by {
      forall j | 0 <= j < |h.fields|
        ensures FieldResolvable(h, j)
      {
        assert TypeFromHeader(h.types[j], h.sizes[j]) == Ok(b.fields[j].1);
      }
    }
    ResolveLayoutCorrect(h);
    var l := ResolveLayout(h).value;
    forall i | 0 <= i < |b.fields|
      ensures l.fields[i].vt == b.fields[i].1 && l.fields[i].count == 1
    {
      assert FieldMatches(h, i, l.fields[i]);
      assert TypeFromHeader(h.types[i], h.sizes[i]) == Ok(b.fields[i].1);
      assert CountOf(h, i) == 1;
    }
  }

  /** The smallest builder sequence that succeeds: one field and a width. */
  lemma {:induction false} MinimalBuild(name: string, vt: ValueType, w: u32)
    ensures var r := BuiltHeader(SetWidth(AddField(NewBuilder, name, vt), w));
      r.Ok? && r.value.fields == [name] && r.value.points == w && r.value.height == 1
      && r.value.data == Binary && r.value.version == "0.7" && r.value.viewpoint == IdentityViewpoint
  {
  }
}

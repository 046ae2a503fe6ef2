/** The header `write_header` emits, read back by `parse_header`: the
    parser rebuilds the very header the writer was given, and the body
    starts just past the DATA line. */
module HeaderRoundTrip {
  import opened Errors
  import opened Bytes
  import opened Text
  import opened Header
  import opened External
  import opened Parser
  import opened Writer

  /** A token both sides agree on: nonempty ASCII without whitespace. */
  predicate HeaderToken(t: string)
  {
    t != [] && NoWhitespace(t) && IsAscii(t)
  }

  predicate Tokens(ts: seq<string>)
  {
    forall i :: 0 <= i < |ts| ==> HeaderToken(ts[i])
  }

  /** What a header needs for its text to parse back to it: the lists
      agree in length with at least one field, the version, names and
      type letters are tokens, and each viewpoint number's `{}` text is a
      token that `parse::<f64>` turns back into the same number. */
  predicate Printable(h: PcdHeader, ft: FloatText)
  {
    Consistent(h)
    && (h.version == [] || HeaderToken(h.version))
    && Tokens(h.fields)
    && (forall i :: 0 <= i < |h.types| ==> HeaderToken([h.types[i]]))
    && RoundTrips(h.viewpoint, ft)
  }

  predicate RoundTrips(vp: Viewpoint, ft: FloatText)
  {
    forall i :: 0 <= i < 7 ==>
      HeaderToken(ft.displayF64(vp[i])) && ft.parseF64(ft.displayF64(vp[i])) == Some(vp[i])
  }

  /** Text that fits on one header line: ASCII with no newline. */
  predicate LineText(s: string)
  {
    IsAscii(s) && forall i :: 0 <= i < |s| ==> s[i] != '\n'
  }

  lemma {:induction false} LineTextAppend(a: string, b: string)
    requires LineText(a) && LineText(b)
    ensures LineText(a + b)
  {
    forall i | 0 <= i < |a + b|
      ensures (a + b)[i] != '\n' && ((a + b)[i] as int) < 0x80
    {
      if i < |a| {
        assert (a + b)[i] == a[i];
      } else {
        assert (a + b)[i] == b[i - |a|];
      }
    }
  }

  lemma {:induction false} TokenLine(t: string)
    requires HeaderToken(t)
    ensures LineText(t)
  {
    forall i | 0 <= i < |t|
      ensures t[i] != '\n'
    {
      assert !IsWhitespace(t[i]);
    }
  }

  /** Tokens joined by single spaces stay on one line. */
  lemma {:induction false} JoinLine(ts: seq<string>)
    requires Tokens(ts)
    ensures LineText(Join(ts, " "))
    decreases |ts|
  {
    if |ts| == 1 {
      TokenLine(ts[0]);
    } else if |ts| > 1 {
      JoinLine(ts[1..]);
      TokenLine(ts[0]);
      LineTextAppend(ts[0], " ");
      LineTextAppend(ts[0] + " ", Join(ts[1..], " "));
    }
  }

  // ----- one line -----

  /** An upper-case key such as `POINTS`. */
  predicate Keyword(s: string)
    decreases |s|
  {
    |s| > 0 && 'A' <= s[0] <= 'Z' && (|s| == 1 || Keyword(s[1..]))
  }

  lemma {:induction false} KeywordToken(s: string)
    requires Keyword(s)
    ensures HeaderToken(s) && s[0] != '#'
    decreases |s|
  {
    if |s| > 1 {
      KeywordToken(s[1..]);
      assert forall i :: 1 <= i < |s| ==> s[i] == s[1..][i - 1];
    }
  }

  /** The line `key args...` splits into the key and then the arguments. */
  lemma {:induction false} KeyLineParts(key: string, args: seq<string>)
    requires Keyword(key) && Tokens(args)
    ensures HeaderToken(key) && key[0] != '#'
    ensures SplitWhitespace(Trim(key + " " + Join(args, " ") + "\n")) == [key] + args
  {
    KeywordToken(key);
    var ts := [key] + args;
    var line := key + " " + Join(args, " ") + "\n";
    var tail: string := if args == [] then " \n" else "\n";
    if args == [] {
      assert Join(ts, " ") == key;
    } else {
      assert ts[1..] == args;
      assert Join(ts, " ") == key + " " + Join(args, " ");
    }
    assert line == Join(ts, " ") + tail;
    assert AllWhitespace(tail);
    SplitJoin(ts, tail);
    SplitTrimmed(line);
  }

  /** The line `key args...` holds no newline and only ASCII. */
  lemma {:induction false} KeyLineText(key: string, args: seq<string>)
    requires Keyword(key) && Tokens(args)
    ensures LineText(key + " " + Join(args, " "))
  {
    KeywordToken(key);
    TokenLine(key);
    LineTextAppend(key, " ");
    if args == [] {
      assert key + " " + Join(args, " ") == key + " ";
    } else {
      JoinLine(args);
      LineTextAppend(key + " ", Join(args, " "));
    }
  }

  /** The line `key args...` reaches ApplyKey with that key and those
      arguments. */
  lemma {:induction false} KeyLine(h: PcdHeader, key: string, args: seq<string>, text: string, n: nat, ft: FloatText)
    requires Keyword(key) && Tokens(args) && text == key + " " + Join(args, " ")
    ensures LineText(text)
    ensures ApplyLine(h, text + "\n", n, ft) == ApplyKey(h, key, args, n, ft)
  {
    KeyLineText(key, args);
    KeyLineParts(key, args);
    var parts := SplitWhitespace(Trim(text + "\n"));
    assert parts[0] == key && parts[1..] == args;
  }

  /** `read_line` from pos stops just past the first newline. */
  lemma {:induction false} LineEndAt(src: seq<byte>, pos: nat, e: nat)
    requires pos < e <= |src| && src[e - 1] == Newline
    requires forall k :: pos <= k < e - 1 ==> src[k] != Newline
    ensures LineEnd(src, pos) == e
    decreases e - pos
  {
    if src[pos] != Newline {
      LineEndAt(src, pos + 1, e);
    }
  }

  /** A line of header text written in UTF-8: one byte per character,
      the newline only at the end, and read back as the same text. */
  lemma {:induction false} LineBytes(line: string)
    requires LineText(line)
    ensures var bs := Utf8(line + "\n");
      |bs| == |line| + 1 && bs[|line|] == Newline
      && (forall k :: 0 <= k < |line| ==> bs[k] != Newline)
      && Latin1(bs) == line + "\n"
  {
    var s := line + "\n";
    assert forall i :: 0 <= i < |line| ==> s[i] == line[i];
    assert s[|line|] == '\n';
    Latin1OfUtf8(s);
    var bs := Utf8(s);
    forall k | 0 <= k < |line|
      ensures bs[k] != Newline
    {
      assert Latin1(bs)[k] as int == bs[k];
    }
    assert Latin1(bs)[|line|] as int == bs[|line|];
  }

  /** The bytes of the first k lines begin those of the first m. */
  lemma {:induction false} LinesPrefix(lines: seq<string>, k: nat, m: nat)
    requires k <= m <= |lines|
    ensures |LinesBytes(lines, k)| <= |LinesBytes(lines, m)|
    ensures LinesBytes(lines, m)[..|LinesBytes(lines, k)|] == LinesBytes(lines, k)
    decreases m
  {
    if k < m {
      LinesPrefix(lines, k, m - 1);
      var a, b := LinesBytes(lines, k), LinesBytes(lines, m - 1);
      assert LinesBytes(lines, m) == b + Utf8(lines[m - 1] + "\n");
      assert LinesBytes(lines, m)[..|a|] == b[..|a|];
    }
  }

  /** Within the bytes of the lines and any body after them, line k is
      read from where the first k lines end to where the first k + 1 end,
      and reads back as its text. */
  lemma {:induction false} LineAt(lines: seq<string>, body: seq<byte>, k: nat)
    requires k < |lines| && forall j :: 0 <= j < |lines| ==> LineText(lines[j])
    ensures var src := LinesBytes(lines, |lines|) + body;
      var pos, e := |LinesBytes(lines, k)|, |LinesBytes(lines, k + 1)|;
      pos < e <= |src| && LineEnd(src, pos) == e && Latin1(src[pos..e]) == lines[k] + "\n"
  {
    var n := |lines|;
    var all := LinesBytes(lines, n);
    var src := all + body;
    var pos := |LinesBytes(lines, k)|;
    var bs := Utf8(lines[k] + "\n");
    var p := LinesBytes(lines, k + 1);
    assert p == LinesBytes(lines, k) + bs;
    var e := |p|;
    LinesPrefix(lines, k + 1, n);
    LineBytes(lines[k]);
    assert src[pos..e] == all[pos..e];
    assert all[pos..e] == all[..e][pos..];
    assert p[pos..] == bs;
    LineEndAt(src, pos, e);
  }

  /** Line j moves the header loop on from hs[j] to hs[j + 1]. */
  ghost predicate Moves(lines: seq<string>, hs: seq<PcdHeader>, step: LineStep, j: nat)
    requires j + 1 < |lines| == |hs|
  {
    step(hs[j], lines[j] + "\n", j + 1) == Continue(hs[j + 1])
  }

  /** Lines that each keep the header loop going, then one that stops it
      with hd: from the start of line k the loop returns hd, with the
      body starting after the last line. */
  lemma {:induction false} LinesLoop(lines: seq<string>, hs: seq<PcdHeader>, hd: PcdHeader, body: seq<byte>,
                                     step: LineStep, k: nat)
    requires 0 < |lines| == |hs| && k < |lines|
    requires forall j :: 0 <= j < |lines| ==> LineText(lines[j])
    requires forall j :: 0 <= j < |lines| - 1 ==> Moves(lines, hs, step, j)
    requires step(hs[|lines| - 1], lines[|lines| - 1] + "\n", |lines|) == Stop(Ok(hd))
    ensures |LinesBytes(lines, k)| <= |LinesBytes(lines, |lines|) + body|
    ensures ParseLoop(LinesBytes(lines, |lines|) + body, |LinesBytes(lines, k)|, hs[k], k, step)
         == Ok(ParsedHeader(hd, |LinesBytes(lines, |lines|)|))
    decreases |lines| - k
  {
    if k < |lines| - 1 {
      assert Moves(lines, hs, step, k);
    }
    LineTurn(lines, hs, hd, body, step, k);
    if k < |lines| - 1 {
      LinesLoop(lines, hs, hd, body, step, k + 1);
    }
  }

  /** Line k of such lines, read by the header loop: it moves on to line
      k + 1 with the next header, or, the last line, stops with hd. */
  lemma {:induction false} LineTurn(lines: seq<string>, hs: seq<PcdHeader>, hd: PcdHeader, body: seq<byte>, step: LineStep, k: nat)
    requires 0 < |lines| == |hs| && k < |lines|
    requires forall j :: 0 <= j < |lines| ==> LineText(lines[j])
    requires k < |lines| - 1 ==> step(hs[k], lines[k] + "\n", k + 1) == Continue(hs[k + 1])
    requires k == |lines| - 1 ==> step(hs[k], lines[k] + "\n", k + 1) == Stop(Ok(hd))
    ensures var src := LinesBytes(lines, |lines|) + body;
      var pos, e := |LinesBytes(lines, k)|, |LinesBytes(lines, k + 1)|;
      pos < e <= |src|
      && (k < |lines| - 1 ==> ParseLoop(src, pos, hs[k], k, step) == ParseLoop(src, e, hs[k + 1], k + 1, step))
      && (k == |lines| - 1 ==> ParseLoop(src, pos, hs[k], k, step) == Ok(ParsedHeader(hd, e)))
  {
    var src := LinesBytes(lines, |lines|) + body;
    var pos, e := |LinesBytes(lines, k)|, |LinesBytes(lines, k + 1)|;
    LineAt(lines, body, k);
    LoopLine(src, pos, e, hs[k], k, step);
  }

  /** One turn of the header loop on the line from pos to e. */
  lemma {:induction false} LoopLine(src: seq<byte>, pos: nat, e: nat, h: PcdHeader, lineNum: nat, step: LineStep)
    requires pos < e <= |src| && LineEnd(src, pos) == e
    ensures var st := step(h, Latin1(src[pos..e]), lineNum + 1);
      (st.Continue? ==> ParseLoop(src, pos, h, lineNum, step) == ParseLoop(src, e, st.header, lineNum + 1, step))
      && (st.Stop? && st.result.Ok? ==> ParseLoop(src, pos, h, lineNum, step) == Ok(ParsedHeader(st.result.value, e)))
  {
  }


  // ----- the ten keys -----

  /** From decimal text back to the number. */
  lemma {:induction false} DecimalToken(x: nat)
    ensures HeaderToken(NatToDecimal(x))
  {
    var s := NatToDecimal(x);
    forall i | 0 <= i < |s|
      ensures !IsWhitespace(s[i]) && (s[i] as int) < 0x80
    {
      assert IsDigit(s[i]);
    }
  }

  lemma {:induction false} UsizeOfDecimal(x: usize)
    ensures ParseUsize(NatToDecimal(x)) == Some(x)
  {
    ParseIntegerOfDecimal(x, false, 0, 0xFFFF_FFFF_FFFF_FFFF);
    assert IntToDecimal(x) == NatToDecimal(x);
  }

  lemma {:induction false} U32OfDecimal(x: u32)
    ensures ParseU32(NatToDecimal(x)) == Some(x)
  {
    ParseIntegerOfDecimal(x, false, 0, 0xFFFF_FFFF);
    assert IntToDecimal(x) == NatToDecimal(x);
  }

  /** Tokens that each parse to the value at their place: the list parses
      to those values. */
  lemma {:induction false} ParseAllOf<T>(toks: seq<string>, parse: string -> Option<T>, vs: seq<T>, line: nat, prefix: string)
    requires |toks| == |vs| && forall i :: 0 <= i < |toks| ==> parse(toks[i]) == Some(vs[i])
    ensures ParseAll(toks, parse, line, prefix) == Ok(vs)
  {
    var r := ParseAll(toks, parse, line, prefix);
    assert r.Ok?;
    forall i | 0 <= i < |vs|
      ensures r.value[i] == vs[i]
    {
      assert parse(toks[i]) == Some(r.value[i]);
    }
    assert r.value == vs;
  }

  lemma {:induction false} DecimalsParse(xs: seq<usize>, line: nat, prefix: string)
    ensures Tokens(Decimals(xs))
    ensures ParseAll(Decimals(xs), ParseUsize, line, prefix) == Ok(xs)
  {
    var ts := Decimals(xs);
    forall i | 0 <= i < |xs|
      ensures HeaderToken(ts[i]) && ParseUsize(ts[i]) == Some(xs[i])
    {
      assert ts[i] == NatToDecimal(xs[i]);
      DecimalToken(xs[i]);
      UsizeOfDecimal(xs[i]);
    }
    ParseAllOf(ts, ParseUsize, xs, line, prefix);
  }

  // Each key's ApplyKey on the arguments the writer prints.

  lemma {:induction false} VersionKey(g: PcdHeader, v: string, n: nat, ft: FloatText)
    ensures ApplyKey(g, "VERSION", if v == [] then [] else [v], n, ft) == Continue(g.(version := v))
  {
  }

  lemma {:induction false} FieldsKey(g: PcdHeader, fs: seq<string>, n: nat, ft: FloatText)
    ensures ApplyKey(g, "FIELDS", fs, n, ft) == Continue(g.(fields := fs))
  {
  }

  lemma {:induction false} SizesKey(g: PcdHeader, ts: seq<string>, xs: seq<usize>, n: nat, ft: FloatText)
    requires ParseAll(ts, ParseUsize, n, "Invalid value for " + "SIZE" + ": ") == Ok(xs)
    ensures ApplyKey(g, "SIZE", ts, n, ft) == Continue(g.(sizes := xs))
  {
  }

  lemma {:induction false} TypesKey(g: PcdHeader, ts: seq<string>, cs: seq<char>, n: nat, ft: FloatText)
    requires ParseAll(ts, TypeToken, n, "Invalid TYPE: ") == Ok(cs)
    ensures ApplyKey(g, "TYPE", ts, n, ft) == Continue(g.(types := cs))
  {
  }

  lemma {:induction false} CountsKey(g: PcdHeader, ts: seq<string>, xs: seq<usize>, n: nat, ft: FloatText)
    requires ParseAll(ts, ParseUsize, n, "Invalid value for " + "COUNT" + ": ") == Ok(xs)
    ensures ApplyKey(g, "COUNT", ts, n, ft) == Continue(g.(counts := xs))
  {
  }

  lemma {:induction false} WidthKey(g: PcdHeader, t: string, w: u32, n: nat, ft: FloatText)
    requires ParseU32(t) == Some(w)
    ensures ApplyKey(g, "WIDTH", [t], n, ft) == Continue(g.(width := w))
  {
  }

  lemma {:induction false} HeightKey(g: PcdHeader, t: string, v: u32, n: nat, ft: FloatText)
    requires ParseU32(t) == Some(v)
    ensures ApplyKey(g, "HEIGHT", [t], n, ft) == Continue(g.(height := v))
  {
  }

  lemma {:induction false} ViewpointKey(g: PcdHeader, ts: seq<string>, vp: Viewpoint, n: nat, ft: FloatText)
    requires ParseAll(ts, ft.parseF64, n, "Invalid value for " + "VIEWPOINT" + ": ") == Ok(vp)
    ensures ApplyKey(g, "VIEWPOINT", ts, n, ft) == Continue(g.(viewpoint := vp))
  {
  }

  lemma {:induction false} PointsKey(g: PcdHeader, t: string, p: usize, n: nat, ft: FloatText)
    requires ParseUsize(t) == Some(p)
    ensures ApplyKey(g, "POINTS", [t], n, ft) == Continue(g.(points := p))
  {
  }

  lemma {:induction false} DataKey(g: PcdHeader, d: DataFormat, n: nat, ft: FloatText)
    requires Consistent(g)
    ensures ApplyKey(g, "DATA", [FormatToken(d)], n, ft) == Stop(Ok(g.(data := d)))
  {
    FormatTokenRoundTrip(d, FormatToken(d));
    assert FillCounts(g.(data := d)) == g.(data := d);
    assert ValidateHeader(g.(data := d), n).Ok?;
  }

  // Each line the writer prints for a key, read back by ApplyLine.

  lemma {:induction false} VersionLine(g: PcdHeader, v: string, n: nat, ft: FloatText)
    requires v == [] || HeaderToken(v)
    ensures LineText("VERSION " + v)
    ensures ApplyLine(g, "VERSION " + v + "\n", n, ft) == Continue(g.(version := v))
  {
    var args: seq<string> := if v == [] then [] else [v];
    assert Join(args, " ") == v;
    KeyLine(g, "VERSION", args, "VERSION " + v, n, ft);
    VersionKey(g, v, n, ft);
  }

  lemma {:induction false} FieldsLine(g: PcdHeader, fs: seq<string>, n: nat, ft: FloatText)
    requires Tokens(fs)
    ensures LineText("FIELDS " + Join(fs, " "))
    ensures ApplyLine(g, "FIELDS " + Join(fs, " ") + "\n", n, ft) == Continue(g.(fields := fs))
  {
    KeyLine(g, "FIELDS", fs, "FIELDS " + Join(fs, " "), n, ft);
    FieldsKey(g, fs, n, ft);
  }

  lemma {:induction false} SizesLine(g: PcdHeader, xs: seq<usize>, n: nat, ft: FloatText)
    ensures LineText("SIZE " + Join(Decimals(xs), " "))
    ensures ApplyLine(g, "SIZE " + Join(Decimals(xs), " ") + "\n", n, ft) == Continue(g.(sizes := xs))
  {
    DecimalsParse(xs, n, "Invalid value for " + "SIZE" + ": ");
    KeyLine(g, "SIZE", Decimals(xs), "SIZE " + Join(Decimals(xs), " "), n, ft);
    SizesKey(g, Decimals(xs), xs, n, ft);
  }

  lemma {:induction false} CountsLine(g: PcdHeader, xs: seq<usize>, n: nat, ft: FloatText)
    ensures LineText("COUNT " + Join(Decimals(xs), " "))
    ensures ApplyLine(g, "COUNT " + Join(Decimals(xs), " ") + "\n", n, ft) == Continue(g.(counts := xs))
  {
    DecimalsParse(xs, n, "Invalid value for " + "COUNT" + ": ");
    KeyLine(g, "COUNT", Decimals(xs), "COUNT " + Join(Decimals(xs), " "), n, ft);
    CountsKey(g, Decimals(xs), xs, n, ft);
  }

  lemma {:induction false} TypesLine(g: PcdHeader, cs: seq<char>, n: nat, ft: FloatText)
    requires forall i :: 0 <= i < |cs| ==> HeaderToken([cs[i]])
    ensures LineText("TYPE " + Join(Letters(cs), " "))
    ensures ApplyLine(g, "TYPE " + Join(Letters(cs), " ") + "\n", n, ft) == Continue(g.(types := cs))
  {
    var ts := Letters(cs);
    forall i | 0 <= i < |cs|
      ensures HeaderToken(ts[i]) && TypeToken(ts[i]) == Some(cs[i])
    {
      assert ts[i] == [cs[i]];
    }
    ParseAllOf(ts, TypeToken, cs, n, "Invalid TYPE: ");
    KeyLine(g, "TYPE", ts, "TYPE " + Join(ts, " "), n, ft);
    TypesKey(g, ts, cs, n, ft);
  }

  lemma {:induction false} WidthLine(g: PcdHeader, w: u32, n: nat, ft: FloatText)
    ensures LineText("WIDTH " + NatToDecimal(w))
    ensures ApplyLine(g, "WIDTH " + NatToDecimal(w) + "\n", n, ft) == Continue(g.(width := w))
  {
    var t := NatToDecimal(w);
    DecimalToken(w);
    U32OfDecimal(w);
    assert Join([t], " ") == t;
    KeyLine(g, "WIDTH", [t], "WIDTH " + t, n, ft);
    WidthKey(g, t, w, n, ft);
  }

  lemma {:induction false} HeightLine(g: PcdHeader, v: u32, n: nat, ft: FloatText)
    ensures LineText("HEIGHT " + NatToDecimal(v))
    ensures ApplyLine(g, "HEIGHT " + NatToDecimal(v) + "\n", n, ft) == Continue(g.(height := v))
  {
    var t := NatToDecimal(v);
    DecimalToken(v);
    U32OfDecimal(v);
    assert Join([t], " ") == t;
    KeyLine(g, "HEIGHT", [t], "HEIGHT " + t, n, ft);
    HeightKey(g, t, v, n, ft);
  }

  lemma {:induction false} ViewpointLine(g: PcdHeader, vp: Viewpoint, n: nat, ft: FloatText)
    requires RoundTrips(vp, ft)
    ensures LineText("VIEWPOINT " + Join(ViewpointTokens(vp, ft), " "))
    ensures ApplyLine(g, "VIEWPOINT " + Join(ViewpointTokens(vp, ft), " ") + "\n", n, ft)
         == Continue(g.(viewpoint := vp))
  {
    var ts := ViewpointTokens(vp, ft);
    forall i | 0 <= i < 7
      ensures HeaderToken(ts[i]) && ft.parseF64(ts[i]) == Some(vp[i])
    {
      assert ts[i] == ft.displayF64(vp[i]);
    }
    ParseAllOf(ts, ft.parseF64, vp, n, "Invalid value for " + "VIEWPOINT" + ": ");
    KeyLine(g, "VIEWPOINT", ts, "VIEWPOINT " + Join(ts, " "), n, ft);
    ViewpointKey(g, ts, vp, n, ft);
  }

  lemma {:induction false} PointsLine(g: PcdHeader, p: usize, n: nat, ft: FloatText)
    ensures LineText("POINTS " + NatToDecimal(p))
    ensures ApplyLine(g, "POINTS " + NatToDecimal(p) + "\n", n, ft) == Continue(g.(points := p))
  {
    var t := NatToDecimal(p);
    DecimalToken(p);
    UsizeOfDecimal(p);
    assert Join([t], " ") == t;
    KeyLine(g, "POINTS", [t], "POINTS " + t, n, ft);
    PointsKey(g, t, p, n, ft);
  }

  /** The DATA line of a consistent header stops the loop with that header
      and the line's format. */
  lemma {:induction false} DataLine(g: PcdHeader, d: DataFormat, n: nat, ft: FloatText)
    requires Consistent(g)
    ensures LineText("DATA " + FormatToken(d))
    ensures ApplyLine(g, "DATA " + FormatToken(d) + "\n", n, ft) == Stop(Ok(g.(data := d)))
  {
    var t := FormatToken(d);
    assert HeaderToken(t) by {
      forall i | 0 <= i < |t|
        ensures !IsWhitespace(t[i]) && (t[i] as int) < 0x80
      {
        match d
        case Ascii =>
        case Binary =>
        case BinaryCompressed =>
      }
    }
    assert Join([t], " ") == t;
    KeyLine(g, "DATA", [t], "DATA " + t, n, ft);
    DataKey(g, d, n, ft);
  }

  // ----- the whole header -----

  /** The parser's record after the first j header lines: the first j
      keys hold h's values, the others are still the initial ones. */
  function Partial(h: PcdHeader, j: nat): PcdHeader
  {
    var g := InitialHeader;
    PcdHeader(
      if j >= 1 then h.version else g.version,
      if j >= 2 then h.fields else g.fields,
      if j >= 3 then h.sizes else g.sizes,
      if j >= 4 then h.types else g.types,
      if j >= 5 then h.counts else g.counts,
      if j >= 6 then h.width else g.width,
      if j >= 7 then h.height else g.height,
      if j >= 8 then h.viewpoint else g.viewpoint,
      if j >= 9 then h.points else g.points,
      if j >= 10 then h.data else g.data)
  }

  /** Line j + 1 of a printable header's text, for j < 9: one line of
      text that moves the parser's record from Partial(h, j) to
      Partial(h, j + 1). */
  predicate MovesOn(h: PcdHeader, ft: FloatText, j: nat)
    requires j < 9
  {
    LineText(HeaderLines(h, ft)[j])
    && ApplyLine(Partial(h, j), HeaderLines(h, ft)[j] + "\n", j + 1, ft) == Continue(Partial(h, j + 1))
  }

  lemma {:induction false} VersionStep(h: PcdHeader, ft: FloatText, j: nat)
    requires (h.version == [] || HeaderToken(h.version)) && j == 0
    ensures MovesOn(h, ft, j)
  {
    assert HeaderLines(h, ft)[0] == "VERSION " + h.version;
    assert Partial(h, 0) == InitialHeader;
    assert Partial(h, 1) == InitialHeader.(version := h.version);
    VersionLine(InitialHeader, h.version, 1, ft);
  }

  lemma {:induction false} FieldsStep(h: PcdHeader, ft: FloatText, j: nat)
    requires Tokens(h.fields) && j == 1
    ensures MovesOn(h, ft, j)
  {
    var lines, g := HeaderLines(h, ft), Partial(h, j);
    assert lines[j] == "FIELDS " + Join(h.fields, " ");
    FieldsLine(g, h.fields, j + 1, ft);
    assert Partial(h, j + 1) == g.(fields := h.fields);
  }

  lemma {:induction false} SizesStep(h: PcdHeader, ft: FloatText, j: nat)
    requires j == 2
    ensures MovesOn(h, ft, j)
  {
    var lines, g := HeaderLines(h, ft), Partial(h, j);
    assert lines[j] == "SIZE " + Join(Decimals(h.sizes), " ");
    SizesLine(g, h.sizes, j + 1, ft);
    assert Partial(h, j + 1) == g.(sizes := h.sizes);
  }

  lemma {:induction false} TypesStep(h: PcdHeader, ft: FloatText, j: nat)
    requires (forall i :: 0 <= i < |h.types| ==> HeaderToken([h.types[i]])) && j == 3
    ensures MovesOn(h, ft, j)
  {
    var lines, g := HeaderLines(h, ft), Partial(h, j);
    assert lines[j] == "TYPE " + Join(Letters(h.types), " ");
    TypesLine(g, h.types, j + 1, ft);
    assert Partial(h, j + 1) == g.(types := h.types);
  }

  lemma {:induction false} CountsStep(h: PcdHeader, ft: FloatText, j: nat)
    requires j == 4
    ensures MovesOn(h, ft, j)
  {
    var lines, g := HeaderLines(h, ft), Partial(h, j);
    assert lines[j] == "COUNT " + Join(Decimals(h.counts), " ");
    CountsLine(g, h.counts, j + 1, ft);
    assert Partial(h, j + 1) == g.(counts := h.counts);
  }

  lemma {:induction false} WidthStep(h: PcdHeader, ft: FloatText, j: nat)
    requires j == 5
    ensures MovesOn(h, ft, j)
  {
    var lines, g := HeaderLines(h, ft), Partial(h, j);
    assert lines[j] == "WIDTH " + NatToDecimal(h.width);
    WidthLine(g, h.width, j + 1, ft);
    assert Partial(h, j + 1) == g.(width := h.width);
  }

  lemma {:induction false} HeightStep(h: PcdHeader, ft: FloatText, j: nat)
    requires j == 6
    ensures MovesOn(h, ft, j)
  {
    var lines, g := HeaderLines(h, ft), Partial(h, j);
    assert lines[j] == "HEIGHT " + NatToDecimal(h.height);
    HeightLine(g, h.height, j + 1, ft);
    assert Partial(h, j + 1) == g.(height := h.height);
  }

  lemma {:induction false} ViewpointStep(h: PcdHeader, ft: FloatText, j: nat)
    requires RoundTrips(h.viewpoint, ft) && j == 7
    ensures MovesOn(h, ft, j)
  {
    var lines, g := HeaderLines(h, ft), Partial(h, j);
    assert lines[j] == "VIEWPOINT " + Join(ViewpointTokens(h.viewpoint, ft), " ");
    ViewpointLine(g, h.viewpoint, j + 1, ft);
    assert Partial(h, j + 1) == g.(viewpoint := h.viewpoint);
  }

  lemma {:induction false} PointsStep(h: PcdHeader, ft: FloatText, j: nat)
    requires j == 8
    ensures MovesOn(h, ft, j)
  {
    var lines, g := HeaderLines(h, ft), Partial(h, j);
    assert lines[j] == "POINTS " + NatToDecimal(h.points);
    PointsLine(g, h.points, j + 1, ft);
    assert Partial(h, j + 1) == g.(points := h.points);
  }

  lemma {:induction false} DataStep(h: PcdHeader, ft: FloatText, j: nat)
    requires Printable(h, ft) && j == 9
    ensures LineText(HeaderLines(h, ft)[j])
    ensures ApplyLine(Partial(h, j), HeaderLines(h, ft)[j] + "\n", j + 1, ft) == Stop(Ok(h))
  {
    var lines, g := HeaderLines(h, ft), Partial(h, j);
    assert lines[j] == "DATA " + FormatToken(h.data);
    DataLine(g, h.data, j + 1, ft);
    assert g.(data := h.data) == h;
  }

  /** Header line j + 1 of a printable header is one line of text and
      moves the parser's record from Partial(h, j) to Partial(h, j + 1);
      the tenth, DATA, stops the loop with h itself. */
  lemma {:induction false} HeaderLineStep(h: PcdHeader, ft: FloatText, j: nat)
    requires Printable(h, ft) && j < 10
    ensures LineText(HeaderLines(h, ft)[j])
    ensures j < 9 ==> ApplyLine(Partial(h, j), HeaderLines(h, ft)[j] + "\n", j + 1, ft) == Continue(Partial(h, j + 1))
    ensures j == 9 ==> ApplyLine(Partial(h, j), HeaderLines(h, ft)[j] + "\n", j + 1, ft) == Stop(Ok(h))
  {
    if j == 9 {
      DataStep(h, ft, j);
    } else {
      if j == 0 { VersionStep(h, ft, j); }
      else if j == 1 { FieldsStep(h, ft, j); }
      else if j == 2 { SizesStep(h, ft, j); }
      else if j == 3 { TypesStep(h, ft, j); }
      else if j == 4 { CountsStep(h, ft, j); }
      else if j == 5 { WidthStep(h, ft, j); }
      else if j == 6 { HeightStep(h, ft, j); }
      else if j == 7 { ViewpointStep(h, ft, j); }
      else { PointsStep(h, ft, j); }
      assert MovesOn(h, ft, j);
    }
  }

  /** The parser's step is ApplyLine. */
  lemma {:induction false} StepApplies(ft: FloatText, h: PcdHeader, line: string, n: nat)
    ensures HeaderStep(ft)(h, line, n) == ApplyLine(h, line, n, ft)
  {
  }

  /** The header lines of a printable header parse, one key per line, back
      to the header; the body starts right after them, whatever it holds. */
  lemma {:induction false} HeaderParsesBack(h: PcdHeader, ft: FloatText, body: seq<byte>)
    requires Printable(h, ft)
    ensures ParseFrom(HeaderBytes(h, ft) + body, 0, InitialHeader, 0, ft)
         == Ok(ParsedHeader(h, |HeaderBytes(h, ft)|))
  {
    var lines := HeaderLines(h, ft);
    var hs := seq(10, j requires 0 <= j < 10 => Partial(h, j));
    var step := HeaderStep(ft);
    forall j | 0 <= j < 10
      ensures LineText(lines[j])
      ensures j < 9 ==> Moves(lines, hs, step, j)
      ensures j == 9 ==> step(hs[j], lines[j] + "\n", j + 1) == Stop(Ok(h))
    {
      HeaderLineStep(h, ft, j);
      StepApplies(ft, hs[j], lines[j] + "\n", j + 1);
    }
    assert hs[0] == InitialHeader;
    assert LinesBytes(lines, 0) == [];
    LinesLoop(lines, hs, h, body, step, 0);
  }
}

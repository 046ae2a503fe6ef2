/** The header parser (src/header/parser.rs): reads lines until DATA,
    keeps the latest value of each known key, and validates the header on
    the DATA line. Lines are read from a byte source, each byte taken as one
    character. */
module Parser {
  import opened Errors
  import opened Bytes
  import opened Text
  import opened Header
  import opened External

  /** The record the parser starts from: the default header with the
      identity viewpoint. */
  const InitialHeader: PcdHeader := DefaultHeader.(viewpoint := IdentityViewpoint)

  /** A parsed header and the offset just past its DATA line, where the body starts. */
  datatype ParsedHeader = ParsedHeader(header: PcdHeader, bodyStart: nat)

  /** Outcome of one header line: keep reading, or stop with a result. */
  datatype Step = Continue(header: PcdHeader) | Stop(result: Result<PcdHeader>)

  function ParseUsize(s: string): (r: Option<usize>)
    ensures r.Some? <==> ParseInteger(s, false, 0, 0xFFFF_FFFF_FFFF_FFFF).Some?
    ensures r.Some? ==> r.value == ParseInteger(s, false, 0, 0xFFFF_FFFF_FFFF_FFFF).value
  {
    match ParseInteger(s, false, 0, 0xFFFF_FFFF_FFFF_FFFF)
    case None => None
    case Some(v) => Some(v)
  }

  function ParseU32(s: string): (r: Option<u32>)
    ensures r.Some? <==> ParseInteger(s, false, 0, 0xFFFF_FFFF).Some?
    ensures r.Some? ==> r.value == ParseInteger(s, false, 0, 0xFFFF_FFFF).value
  {
    match ParseInteger(s, false, 0, 0xFFFF_FFFF)
    case None => None
    case Some(v) => Some(v)
  }

  /** A TYPE token: exactly one character. */
  function TypeToken(s: string): (r: Option<char>)
    ensures r.Some? <==> |s| == 1
    ensures r.Some? ==> r.value == s[0]
  {
    if |s| == 1 then Some(s[0]) else None
  }

  /** Parse every token; the first that fails gives
      InvalidHeader(line, prefix + token) (see ParseAllFirstError). */
  function ParseAll<T>(toks: seq<string>, parse: string -> Option<T>, line: nat, prefix: string): (r: Result<seq<T>>)
    ensures r.Ok? <==> forall i :: 0 <= i < |toks| ==> parse(toks[i]).Some?
    ensures r.Ok? ==>
      |r.value| == |toks| && forall i :: 0 <= i < |toks| ==> parse(toks[i]) == Some(r.value[i])
    ensures r.Err? ==> r.error.InvalidHeader? && r.error.line == line
  {
    if |toks| == 0 then Ok([])
    else match parse(toks[0])
      case None => Err(InvalidHeader(line, prefix + toks[0]))
      case Some(v) =>
        match ParseAll(toks[1..], parse, line, prefix)
        case Err(e) => Err(e)
        case Ok(vs) =>
          assert forall i :: 1 <= i < |toks| ==> toks[i] == toks[1..][i - 1];
          Ok([v] + vs)
  }

  /** The error names the first token that does not parse. */
  lemma {:induction false} ParseAllFirstError<T>(toks: seq<string>, parse: string -> Option<T>, line: nat, prefix: string)
    ensures var r := ParseAll(toks, parse, line, prefix);
      r.Err? ==>
        exists i :: 0 <= i < |toks| && parse(toks[i]).None?
          && (forall j :: 0 <= j < i ==> parse(toks[j]).Some?)
          && r.error == InvalidHeader(line, prefix + toks[i])
  {
    if |toks| > 0 && parse(toks[0]).Some? && ParseAll(toks[1..], parse, line, prefix).Err? {
      ParseAllFirstError(toks[1..], parse, line, prefix);
      var e := ParseAll(toks[1..], parse, line, prefix).error;
      var i :| 0 <= i < |toks[1..]| && parse(toks[1..][i]).None?
        && (forall j :: 0 <= j < i ==> parse(toks[1..][j]).Some?)
        && e == InvalidHeader(line, prefix + toks[1..][i]);
      forall j | 0 <= j < i + 1
        ensures parse(toks[j]).Some?
      {
        if j > 0 {
          assert toks[j] == toks[1..][j - 1];
        }
      }
      assert toks[i + 1] == toks[1..][i];
    }
  }

  /** `parse_vec`: every token of a list-valued key, each parsed, or
      InvalidHeader on the key's line. */
  function ParseVec<T>(toks: seq<string>, parse: string -> Option<T>, line: nat, field: string): (r: Result<seq<T>>)
    ensures r.Ok? <==> forall i :: 0 <= i < |toks| ==> parse(toks[i]).Some?
    ensures r.Ok? ==>
      |r.value| == |toks| && forall i :: 0 <= i < |toks| ==> parse(toks[i]) == Some(r.value[i])
    ensures r.Err? ==> r.error.InvalidHeader? && r.error.line == line
  {
    ParseAll(toks, parse, line, "Invalid value for " + field + ": ")
  }

  /** `parse_single`: the value of a single-valued key. */
  function ParseSingle<T>(part: Option<string>, parse: string -> Option<T>, line: nat, field: string): (r: Result<T>)
    ensures part.None? ==> r == Err(InvalidHeader(line, "Missing value for " + field))
    ensures part.Some? && parse(part.value).None? ==>
      r == Err(InvalidHeader(line, "Invalid token for " + field + ": " + part.value))
    ensures part.Some? && parse(part.value).Some? ==> r == Ok(parse(part.value).value)
  {
    match part
    case None => Err(InvalidHeader(line, "Missing value for " + field))
    case Some(s) =>
      match parse(s)
      case None => Err(InvalidHeader(line, "Invalid token for " + field + ": " + s))
      case Some(v) => Ok(v)
  }

  function FirstArg(args: seq<string>): Option<string>
  {
    if |args| > 0 then Some(args[0]) else None
  }

  /** The header's lists agree in length, and there is at least one field. */
  predicate Consistent(h: PcdHeader)
  {
    |h.fields| > 0 && |h.sizes| == |h.fields| && |h.types| == |h.fields| && |h.counts| == |h.fields|
  }

  /** `validate_header`. */
  function ValidateHeader(h: PcdHeader, line: nat): (r: Result<()>)
    ensures r.Ok? <==>
      |h.sizes| == |h.fields| && |h.types| == |h.fields| && h.counts != [] && |h.counts| == |h.fields|
    ensures r.Err? ==> r.error.InvalidHeader? && r.error.line == line
  {
    if |h.fields| != |h.sizes| then
      Err(InvalidHeader(line, "Mismatch in fields(" + NatToDecimal(|h.fields|) + ") and sizes("
        + NatToDecimal(|h.sizes|) + ")"))
    else if |h.fields| != |h.types| then
      Err(InvalidHeader(line, "Mismatch in fields(" + NatToDecimal(|h.fields|) + ") and types("
        + NatToDecimal(|h.types|) + ")"))
    else if |h.counts| == 0 then
      Err(InvalidHeader(line, "Counts vector empty but fields present (logic error in parser)"))
    else if |h.counts| != |h.fields| then
      Err(InvalidHeader(line, "Mismatch in fields(" + NatToDecimal(|h.fields|) + ") and counts("
        + NatToDecimal(|h.counts|) + ")"))
    else Ok(())
  }

  /** An empty COUNT list becomes one count of 1 per field. */
  function FillCounts(h: PcdHeader): (r: PcdHeader)
    ensures h.counts != [] ==> r == h
    ensures h.counts == [] ==>
      r == h.(counts := r.counts) && |r.counts| == |h.fields|
      && forall i :: 0 <= i < |r.counts| ==> r.counts[i] == 1
  {
    if h.counts == [] then h.(counts := seq(|h.fields|, _ => 1)) else h
  }

  /** The DATA line: the format token, the COUNT default, validation. */
  function FinishHeader(h: PcdHeader, args: seq<string>, line: nat): (r: Result<PcdHeader>)
    ensures r.Ok? ==> Consistent(r.value)
    ensures |args| == 0 ==> r == Err(InvalidHeader(line, "Missing DATA format"))
    ensures |args| > 0 && FormatFromStr(args[0]).Err? ==> r == Err(UnsupportedDataFormat(args[0]))
    ensures |args| > 0 && FormatFromStr(args[0]).Ok? ==>
      var h' := FillCounts(h.(data := FormatFromStr(args[0]).value));
      (r.Ok? <==> ValidateHeader(h', line).Ok?)
      && (r.Ok? ==> r.value == h' && r.value.data == FormatFromStr(args[0]).value)
      && (r.Err? ==> r.error == ValidateHeader(h', line).error)
  {
    if |args| == 0 then Err(InvalidHeader(line, "Missing DATA format"))
    else
      match FormatFromStr(args[0])
      case Err(e) => Err(e)
      case Ok(d) =>
        var h' := FillCounts(h.(data := d));
        match ValidateHeader(h', line)
        case Err(e) => Err(e)
        case Ok(_) => Ok(h')
  }

  /** The effect of one key line (its first token and the rest). */
  function ApplyKey(h: PcdHeader, key: string, args: seq<string>, line: nat, ft: FloatText): (r: Step)
    ensures r.Stop? && r.result.Ok? ==> key == "DATA" && Consistent(r.result.value)
  {
    if key == "VERSION" then
      Continue(h.(version := if |args| > 0 then args[0] else ""))
    else if key == "FIELDS" then
      Continue(h.(fields := args))
    else if key == "SIZE" then
      match ParseVec(args, ParseUsize, line, "SIZE")
      case Err(e) => Stop(Err(e))
      case Ok(v) => Continue(h.(sizes := v))
    else if key == "TYPE" then
      match ParseAll(args, TypeToken, line, "Invalid TYPE: ")
      case Err(e) => Stop(Err(e))
      case Ok(v) => Continue(h.(types := v))
    else if key == "COUNT" then
      match ParseVec(args, ParseUsize, line, "COUNT")
      case Err(e) => Stop(Err(e))
      case Ok(v) => Continue(h.(counts := v))
    else if key == "WIDTH" then
      match ParseSingle(FirstArg(args), ParseU32, line, "WIDTH")
      case Err(e) => Stop(Err(e))
      case Ok(v) => Continue(h.(width := v))
    else if key == "HEIGHT" then
      match ParseSingle(FirstArg(args), ParseU32, line, "HEIGHT")
      case Err(e) => Stop(Err(e))
      case Ok(v) => Continue(h.(height := v))
    else if key == "VIEWPOINT" then
      match ParseVec(args, ft.parseF64, line, "VIEWPOINT")
      case Err(e) => Stop(Err(e))
      case Ok(vp) =>
        if |vp| == 7 then Continue(h.(viewpoint := vp))
        else Stop(Err(InvalidHeader(line, "VIEWPOINT expected 7 values, got " + NatToDecimal(|vp|))))
    else if key == "POINTS" then
      match ParseSingle(FirstArg(args), ParseUsize, line, "POINTS")
      case Err(e) => Stop(Err(e))
      case Ok(v) => Continue(h.(points := v))
    else if key == "DATA" then
      Stop(FinishHeader(h, args, line))
    else
      Continue(h)
  }

  /** A line that holds only whitespace, or whose first visible character is '#'. */
  predicate Skipped(line: string)
  {
    var t := Trim(line);
    t == [] || t[0] == '#'
  }

  /** The effect of one header line. */
  function ApplyLine(h: PcdHeader, line: string, lineNum: nat, ft: FloatText): (r: Step)
    ensures r.Stop? && r.result.Ok? ==> Consistent(r.result.value)
  {
    if Skipped(line) then Continue(h)
    else
      var parts := SplitWhitespace(Trim(line));
      if parts == [] then Continue(h)
      else ApplyKey(h, parts[0], parts[1..], lineNum, ft)
  }

  const Newline: byte := 0x0A

  /** `read_line`: the end of the line that starts at pos, just past its
      newline, or the end of the input. */
  function LineEnd(src: seq<byte>, pos: nat): (e: nat)
    requires pos <= |src|
    ensures pos <= e <= |src|
    ensures pos < |src| ==> pos < e
    ensures forall k :: pos <= k < e - 1 ==> src[k] != Newline
    ensures e < |src| ==> e > pos && src[e - 1] == Newline
    ensures e == |src| && e > pos ==> src[e - 1] != Newline ==> forall k :: pos <= k < e ==> src[k] != Newline
    decreases |src| - pos
  {
    if pos == |src| then pos
    else if src[pos] == Newline then pos + 1
    else LineEnd(src, pos + 1)
  }

  /** The effect of a header line on the record, given the line and its number. */
  type LineStep = (PcdHeader, string, nat) -> Step

  /** The header loop from byte offset pos, with the header built so far,
      the number of lines read, and the effect of one line. */
  function ParseLoop(src: seq<byte>, pos: nat, h: PcdHeader, lineNum: nat, step: LineStep): (r: Result<ParsedHeader>)
    requires pos <= |src|
    ensures r.Ok? ==> pos < r.value.bodyStart <= |src|
    decreases |src| - pos
  {
    if pos == |src| then Err(InvalidHeader(lineNum, "Unexpected EOF before DATA section"))
    else
      var e := LineEnd(src, pos);
      match step(h, Latin1(src[pos..e]), lineNum + 1)
      case Continue(h') => ParseLoop(src, e, h', lineNum + 1, step)
      case Stop(res) =>
        match res
        case Err(err) => Err(err)
        case Ok(hd) => Ok(ParsedHeader(hd, e))
  }

  /** Every header the step stops with successfully is consistent. */
  ghost predicate StopsConsistent(step: LineStep)
  {
    forall h, line, n :: step(h, line, n).Stop? && step(h, line, n).result.Ok? ==>
      Consistent(step(h, line, n).result.value)
  }

  lemma {:induction false} ParseLoopConsistent(src: seq<byte>, pos: nat, h: PcdHeader, lineNum: nat, step: LineStep)
    requires pos <= |src| && StopsConsistent(step)
    ensures ParseLoop(src, pos, h, lineNum, step).Ok? ==> Consistent(ParseLoop(src, pos, h, lineNum, step).value.header)
    decreases |src| - pos
  {
    if pos < |src| {
      var e := LineEnd(src, pos);
      var s := step(h, Latin1(src[pos..e]), lineNum + 1);
      if s.Continue? {
        ParseLoopConsistent(src, e, s.header, lineNum + 1, step);
      }
    }
  }

  function HeaderStep(ft: FloatText): (step: LineStep)
    ensures StopsConsistent(step)
  {
    (h: PcdHeader, line: string, n: nat) => ApplyLine(h, line, n, ft)
  }

  /** The header loop of `parse_header`. */
  function ParseFrom(src: seq<byte>, pos: nat, h: PcdHeader, lineNum: nat, ft: FloatText): (r: Result<ParsedHeader>)
    requires pos <= |src|
    ensures r.Ok? ==> pos < r.value.bodyStart <= |src| && Consistent(r.value.header)
  {
    ParseLoopConsistent(src, pos, h, lineNum, HeaderStep(ft));
    ParseLoop(src, pos, h, lineNum, HeaderStep(ft))
  }

  /** `parse_header`: the loop over lines that updates the header record and
      the line counter and returns at the DATA line. */
  method ParseHeader(src: seq<byte>, ft: FloatText) returns (r: Result<ParsedHeader>)
    ensures r == ParseFrom(src, 0, InitialHeader, 0, ft)
    ensures r.Ok? ==> Consistent(r.value.header) && 0 < r.value.bodyStart <= |src|
  {
    var header := DefaultHeader;
    var lineNum: nat := 0;
    header := header.(viewpoint := IdentityViewpoint);
    var pos: nat := 0;
    while pos < |src|
      invariant pos <= |src|
      invariant ParseFrom(src, pos, header, lineNum, ft) == ParseFrom(src, 0, InitialHeader, 0, ft)
      decreases |src| - pos
    {
      var e := LineEnd(src, pos);
      lineNum := lineNum + 1;
      var line := Latin1(src[pos..e]);
      pos := e;
      var trimmed := Trim(line);
      if trimmed == [] || trimmed[0] == '#' {
        continue;
      }
      var parts := SplitWhitespace(trimmed);
      if parts == [] {
        continue;
      }
      var step := ApplyKey(header, parts[0], parts[1..], lineNum, ft);
      match step
      case Continue(h') =>
        header := h';
      case Stop(res) =>
        match res
        case Err(err) =>
          return Err(err);
        case Ok(hd) =>
          return Ok(ParsedHeader(hd, pos));
    }
    return Err(InvalidHeader(lineNum, "Unexpected EOF before DATA section"));
  }

  // ----- properties of the header loop -----

  /** Number of lines (newline-terminated, plus a final unterminated one)
      from pos on. */
  function LineCount(src: seq<byte>, pos: nat): nat
    requires pos <= |src|
    decreases |src| - pos
  {
    if pos == |src| then 0 else 1 + LineCount(src, LineEnd(src, pos))
  }

  /** Every remaining line leaves the loop running: none stops it. */
  ghost predicate NeverStops(src: seq<byte>, pos: nat, h: PcdHeader, lineNum: nat, step: LineStep)
    requires pos <= |src|
    decreases |src| - pos
  {
    pos == |src|
    || (var e := LineEnd(src, pos);
        var s := step(h, Latin1(src[pos..e]), lineNum + 1);
        s.Continue? && NeverStops(src, e, s.header, lineNum + 1, step))
  }

  /** Input that ends before a DATA line gives InvalidHeader carrying the
      number of lines read. */
  lemma {:induction false} EofBeforeData(src: seq<byte>, pos: nat, h: PcdHeader, lineNum: nat, step: LineStep)
    requires pos <= |src| && NeverStops(src, pos, h, lineNum, step)
    ensures ParseLoop(src, pos, h, lineNum, step)
         == Err(InvalidHeader(lineNum + LineCount(src, pos), "Unexpected EOF before DATA section"))
    decreases |src| - pos
  {
    if pos < |src| {
      var e := LineEnd(src, pos);
      var s := step(h, Latin1(src[pos..e]), lineNum + 1);
      EofBeforeData(src, e, s.header, lineNum + 1, step);
    }
  }

  /** The same for the header parser itself. */
  lemma {:induction false} HeaderEofBeforeData(src: seq<byte>, ft: FloatText)
    requires NeverStops(src, 0, InitialHeader, 0, HeaderStep(ft))
    ensures ParseFrom(src, 0, InitialHeader, 0, ft)
         == Err(InvalidHeader(LineCount(src, 0), "Unexpected EOF before DATA section"))
  {
    EofBeforeData(src, 0, InitialHeader, 0, HeaderStep(ft));
  }

  /** Blank and comment lines leave the header unchanged. */
  lemma {:induction false} SkippedLineIgnored(h: PcdHeader, line: string, lineNum: nat, ft: FloatText)
    requires Skipped(line)
    ensures ApplyLine(h, line, lineNum, ft) == Continue(h)
  {
  }

  /** A blank or comment line is consumed and counted, then parsing goes on
      with the same header. */
  lemma {:induction false} SkippedLineCounted(src: seq<byte>, pos: nat, h: PcdHeader, lineNum: nat, ft: FloatText)
    requires pos < |src| && Skipped(Latin1(src[pos..LineEnd(src, pos)]))
    ensures ParseFrom(src, pos, h, lineNum, ft) == ParseFrom(src, LineEnd(src, pos), h, lineNum + 1, ft)
  {
  }

  /** Keys the parser does not know are ignored. */
  lemma {:induction false} UnknownKeyIgnored(h: PcdHeader, key: string, args: seq<string>, line: nat, ft: FloatText)
    requires key !in ["VERSION", "FIELDS", "SIZE", "TYPE", "COUNT", "WIDTH", "HEIGHT", "VIEWPOINT", "POINTS", "DATA"]
    ensures ApplyKey(h, key, args, line, ft) == Continue(h)
  {
  }

  /** A repeated key overwrites the earlier value: after a line that
      keeps the loop going, a later line with the same key has the effect it
      would have had alone. */
  lemma {:induction false} RepeatedKeyOverwrites(h: PcdHeader, key: string, a1: seq<string>, a2: seq<string>,
                              l1: nat, l2: nat, ft: FloatText)
    requires ApplyKey(h, key, a1, l1, ft).Continue?
    ensures ApplyKey(ApplyKey(h, key, a1, l1, ft).header, key, a2, l2, ft) == ApplyKey(h, key, a2, l2, ft)
  {
  }

  /** A VIEWPOINT line whose values all parse but are not seven stops with InvalidHeader. */
  lemma {:induction false} ViewpointNeedsSeven(h: PcdHeader, args: seq<string>, line: nat, ft: FloatText)
    requires forall i :: 0 <= i < |args| ==> ft.parseF64(args[i]).Some?
    ensures |args| == 7 ==> ApplyKey(h, "VIEWPOINT", args, line, ft).Continue?
    ensures |args| != 7 ==>
      ApplyKey(h, "VIEWPOINT", args, line, ft)
        == Stop(Err(InvalidHeader(line, "VIEWPOINT expected 7 values, got " + NatToDecimal(|args|))))
  {
    ViewpointLine(h, args, line, ft);
    var r := ParseVec(args, ft.parseF64, line, "VIEWPOINT");
    assert r.Ok? && |r.value| == |args|;
  }

  lemma {:induction false} ViewpointLine(h: PcdHeader, args: seq<string>, line: nat, ft: FloatText)
    ensures var r := ParseVec(args, ft.parseF64, line, "VIEWPOINT");
      ApplyKey(h, "VIEWPOINT", args, line, ft)
        == if r.Err? then Stop(Err(r.error))
           else if |r.value| == 7 then Continue(h.(viewpoint := r.value))
           else Stop(Err(InvalidHeader(line, "VIEWPOINT expected 7 values, got " + NatToDecimal(|r.value|))))
  {
  }

  /** A TYPE token of length other than 1 stops the parser with InvalidHeader. */
  lemma {:induction false} TypeTokenLength(h: PcdHeader, args: seq<string>, line: nat, ft: FloatText, i: nat)
    requires i < |args| && |args[i]| != 1
    requires forall j :: 0 <= j < i ==> |args[j]| == 1
    ensures ApplyKey(h, "TYPE", args, line, ft) == Stop(Err(InvalidHeader(line, "Invalid TYPE: " + args[i])))
  {
    var r := ParseAll(args, TypeToken, line, "Invalid TYPE: ");
    ParseAllFirstError(args, TypeToken, line, "Invalid TYPE: ");
    assert !(forall k :: 0 <= k < |args| ==> TypeToken(args[k]).Some?) by {
      assert TypeToken(args[i]).None?;
    }
    var k :| 0 <= k < |args| && TypeToken(args[k]).None?
      && (forall j :: 0 <= j < k ==> TypeToken(args[j]).Some?)
      && r.error == InvalidHeader(line, "Invalid TYPE: " + args[k]);
    assert TypeToken(args[i]).None?;
    assert k == i;
  }

  /** No header without fields gets past the DATA line. */
  lemma {:induction false} NoFieldsRejected(h: PcdHeader, args: seq<string>, line: nat)
    requires h.fields == []
    ensures FinishHeader(h, args, line).Err?
  {
  }

  lemma {:induction false} LineEndOnPrefix(src: seq<byte>, src': seq<byte>, pos: nat)
    requires pos < |src| && LineEnd(src, pos) <= |src'|
    requires src[LineEnd(src, pos) - 1] == Newline
    requires src'[..LineEnd(src, pos)] == src[..LineEnd(src, pos)]
    ensures LineEnd(src', pos) == LineEnd(src, pos)
    decreases |src| - pos
  {
    var e := LineEnd(src, pos);
    assert src'[pos] == src'[..e][pos];
    if src[pos] != Newline {
      assert src'[..LineEnd(src, pos + 1)] == src[..LineEnd(src, pos + 1)];
      LineEndOnPrefix(src, src', pos + 1);
    }
  }

  /** The loop stops at the DATA line without looking further: any input
      that agrees up to the end of a newline-terminated DATA line parses the
      same. */
  lemma {:induction false} LoopIgnoresBody(src: seq<byte>, src': seq<byte>, pos: nat, h: PcdHeader,
                                           lineNum: nat, step: LineStep)
    requires pos <= |src| && ParseLoop(src, pos, h, lineNum, step).Ok?
    requires var end := ParseLoop(src, pos, h, lineNum, step).value.bodyStart;
      src[end - 1] == Newline && end <= |src'| && src'[..end] == src[..end]
    ensures pos <= |src'|
    ensures ParseLoop(src', pos, h, lineNum, step) == ParseLoop(src, pos, h, lineNum, step)
    decreases |src| - pos
  {
    var end := ParseLoop(src, pos, h, lineNum, step).value.bodyStart;
    var e := LineEnd(src, pos);
    assert e <= end;
    assert src'[..e] == src[..e] by {
      assert src'[..e] == src'[..end][..e];
      assert src[..e] == src[..end][..e];
    }
    assert src[e - 1] == Newline;
    LineEndOnPrefix(src, src', pos);
    assert src'[pos..e] == src[pos..e] by {
      assert src'[pos..e] == src'[..e][pos..];
      assert src[pos..e] == src[..e][pos..];
    }
    var s := step(h, Latin1(src[pos..e]), lineNum + 1);
    if s.Continue? {
      LoopIgnoresBody(src, src', e, s.header, lineNum + 1, step);
    }
  }

  /** `parse_header` consumes no byte past the DATA line: the body does not
      affect the header. */
  lemma {:induction false} HeaderIgnoresBody(src: seq<byte>, body: seq<byte>, ft: FloatText)
    requires ParseFrom(src, 0, InitialHeader, 0, ft).Ok?
    requires var end := ParseFrom(src, 0, InitialHeader, 0, ft).value.bodyStart;
      end == |src| && src[end - 1] == Newline
    ensures ParseFrom(src + body, 0, InitialHeader, 0, ft) == ParseFrom(src, 0, InitialHeader, 0, ft)
  {
    assert (src + body)[..|src|] == src[..|src|];
    LoopIgnoresBody(src, src + body, 0, InitialHeader, 0, HeaderStep(ft));
  }
}

/** Text handling the header and ASCII codecs rely on: Unicode whitespace as
    Rust's `char::is_whitespace` defines it, `str::trim`,
    `str::split_whitespace`, joining with a separator, decimal formatting of
    integers, Rust's `str::parse` for integer types, and the conversions
    between bytes and characters. */
module Text {
  import opened Errors
  import opened Bytes

  /** Rust's `char::is_whitespace`: the Unicode White_Space property. */
  predicate IsWhitespace(c: char)
  {
    var n := c as int;
    (0x09 <= n <= 0x0D) || n == 0x20 || n == 0x85 || n == 0xA0 || n == 0x1680
    || (0x2000 <= n <= 0x200A) || n == 0x2028 || n == 0x2029 || n == 0x202F
    || n == 0x205F || n == 0x3000
  }

  predicate NoWhitespace(s: string)
  {
    forall i :: 0 <= i < |s| ==> !IsWhitespace(s[i])
  }

  predicate AllWhitespace(s: string)
  {
    forall i :: 0 <= i < |s| ==> IsWhitespace(s[i])
  }

  /** `str::trim_start`: the suffix left after dropping leading whitespace. */
  function TrimStart(s: string): (r: string)
    ensures |r| <= |s| && r == s[|s| - |r|..]
    ensures AllWhitespace(s[..|s| - |r|])
    ensures r == [] || !IsWhitespace(r[0])
  {
    if |s| > 0 && IsWhitespace(s[0]) then
      var r := TrimStart(s[1..]);
      assert s[..|s| - |r|] == [s[0]] + s[1..][..|s| - 1 - |r|];
      r
    else s
  }

  /** `str::trim_end`: the prefix left after dropping trailing whitespace. */
  function TrimEnd(s: string): (r: string)
    ensures |r| <= |s| && r == s[..|r|]
    ensures AllWhitespace(s[|r|..])
    ensures r == [] || !IsWhitespace(r[|r| - 1])
  {
    if |s| > 0 && IsWhitespace(s[|s| - 1]) then
      var r := TrimEnd(s[..|s| - 1]);
      assert s[|r|..] == s[..|s| - 1][|r|..] + [s[|s| - 1]];
      r
    else s
  }

  /** `str::trim`: whitespace removed at both ends; empty exactly when the
      line holds only whitespace. */
  function Trim(s: string): (r: string)
    ensures r == [] <==> AllWhitespace(s)
    ensures r != [] ==> !IsWhitespace(r[0]) && !IsWhitespace(r[|r| - 1])
  {
    var a := TrimStart(s);
    var r := TrimEnd(a);
    assert r == [] ==> AllWhitespace(s) by {
      if r == [] {
        assert a[|r|..] == a;
        WhitespaceJoin(s, |s| - |a|);
      }
    }
    assert r != [] ==> r[0] == a[0];
    r
  }

  /** A string whose two halves are whitespace is whitespace. */
  lemma {:induction false} WhitespaceJoin(s: string, k: nat)
    requires k <= |s| && AllWhitespace(s[..k]) && AllWhitespace(s[k..])
    ensures AllWhitespace(s)
  {
    forall i | 0 <= i < |s|
      ensures IsWhitespace(s[i])
    {
      if i < k {
        assert s[..k][i] == s[i];
      } else {
        assert s[k..][i - k] == s[i];
      }
    }
  }

  /** Length of the run of non-whitespace characters at the start of s. */
  function TokenLen(s: string): (n: nat)
    ensures n <= |s| && NoWhitespace(s[..n])
    ensures n < |s| ==> IsWhitespace(s[n])
  {
    if |s| == 0 || IsWhitespace(s[0]) then 0
    else
      var n := TokenLen(s[1..]);
      assert s[..n + 1] == [s[0]] + s[1..][..n];
      n + 1
  }

  /** `str::split_whitespace`: the maximal runs of non-whitespace characters, in order. */
  function SplitWhitespace(s: string): (r: seq<string>)
    ensures forall t :: t in r ==> t != [] && NoWhitespace(t)
    decreases |s|
  {
    if |s| == 0 then []
    else if IsWhitespace(s[0]) then SplitWhitespace(s[1..])
    else
      var n := TokenLen(s);
      [s[..n]] + SplitWhitespace(s[n..])
  }

  /** `[String]::join(sep)`. */
  function Join(ts: seq<string>, sep: string): string
  {
    if |ts| == 0 then ""
    else if |ts| == 1 then ts[0]
    else ts[0] + sep + Join(ts[1..], sep)
  }

  lemma {:induction false} SplitAllWhitespace(s: string)
    requires AllWhitespace(s)
    ensures SplitWhitespace(s) == []
    decreases |s|
  {
    if |s| > 0 {
      SplitAllWhitespace(s[1..]);
    }
  }

  lemma {:induction false} TokenLenOfToken(t: string, u: string)
    requires NoWhitespace(t)
    requires u == [] || IsWhitespace(u[0])
    ensures TokenLen(t + u) == |t|
    decreases |t|
  {
    if |t| > 0 {
      assert (t + u)[1..] == t[1..] + u;
      TokenLenOfToken(t[1..], u);
    }
  }

  lemma {:induction false} SplitLeadingToken(t: string, u: string)
    requires t != [] && NoWhitespace(t)
    requires u == [] || IsWhitespace(u[0])
    ensures SplitWhitespace(t + u) == [t] + SplitWhitespace(u)
  {
    TokenLenOfToken(t, u);
    assert (t + u)[..|t|] == t;
    assert (t + u)[|t|..] == u;
  }

  /** Splitting a space-joined list of tokens, followed by any whitespace
      (a line terminator), gives the tokens back. */
  lemma {:induction false} SplitJoin(ts: seq<string>, tail: string)
    requires forall i :: 0 <= i < |ts| ==> ts[i] != [] && NoWhitespace(ts[i])
    requires AllWhitespace(tail)
    ensures SplitWhitespace(Join(ts, " ") + tail) == ts
    decreases |ts|
  {
    if |ts| == 0 {
      assert Join(ts, " ") + tail == tail;
      SplitAllWhitespace(tail);
    } else if |ts| == 1 {
      assert Join(ts, " ") + tail == ts[0] + tail;
      SplitLeadingToken(ts[0], tail);
      SplitAllWhitespace(tail);
    } else {
      var rest := Join(ts[1..], " ") + tail;
      JoinFirst(ts, tail);
      SplitLeadingToken(ts[0], " " + rest);
      SplitJoin(ts[1..], tail);
      assert ts == [ts[0]] + ts[1..];
    }
  }

  /** A space-joined list of two or more tokens is the first token, a space
      and the rest joined; splitting skips that space. */
  lemma {:induction false} JoinFirst(ts: seq<string>, tail: string)
    requires |ts| >= 2
    ensures Join(ts, " ") + tail == ts[0] + (" " + (Join(ts[1..], " ") + tail))
    ensures SplitWhitespace(" " + (Join(ts[1..], " ") + tail)) == SplitWhitespace(Join(ts[1..], " ") + tail)
  {
    var rest := Join(ts[1..], " ") + tail;
    assert (" " + rest)[1..] == rest;
  }

  /** Whitespace after the last token adds no token. */
  lemma {:induction false} SplitTrailingWhitespace(s: string, w: string)
    requires AllWhitespace(w)
    ensures SplitWhitespace(s + w) == SplitWhitespace(s)
    decreases |s|
  {
    if |s| == 0 {
      assert s + w == w;
      SplitAllWhitespace(w);
    } else if IsWhitespace(s[0]) {
      assert (s + w)[1..] == s[1..] + w;
      SplitTrailingWhitespace(s[1..], w);
    } else {
      var n := TokenLen(s);
      var t, u := s[..n], s[n..];
      assert s + w == t + (u + w);
      TokenLenOfToken(t, u + w);
      assert (s + w)[..n] == t && (s + w)[n..] == u + w;
      SplitTrailingWhitespace(u, w);
    }
  }

  /** A line that starts with a visible character: trimming keeps that
      character first and does not change the tokens. */
  lemma {:induction false} SplitTrimmed(s: string)
    requires s != [] && !IsWhitespace(s[0])
    ensures Trim(s) != [] && Trim(s)[0] == s[0]
    ensures SplitWhitespace(Trim(s)) == SplitWhitespace(s)
  {
    assert TrimStart(s) == s;
    var r := TrimEnd(s);
    assert s == r + s[|r|..];
    SplitTrailingWhitespace(r, s[|r|..]);
  }

  // ----- decimal integers -----

  predicate IsDigit(c: char) { '0' <= c <= '9' }

  predicate AllDigits(s: string)
  {
    forall i :: 0 <= i < |s| ==> IsDigit(s[i])
  }

  function DigitChar(d: nat): (c: char)
    requires d < 10
    ensures IsDigit(c)
  {
    (('0' as int) + d) as char
  }

  function DigitValue(c: char): nat
    requires IsDigit(c)
  {
    (c as int) - ('0' as int)
  }

  /** The value of a string of decimal digits (leading zeros allowed). */
  function DigitsValue(s: string): nat
    requires AllDigits(s)
    decreases |s|
  {
    if |s| == 0 then 0 else 10 * DigitsValue(s[..|s| - 1]) + DigitValue(s[|s| - 1])
  }

  /** Rust's `to_string` of an unsigned integer: one or more decimal digits. */
  function NatToDecimal(n: nat): (s: string)
    ensures |s| >= 1 && AllDigits(s)
    decreases n
  {
    if n < 10 then [DigitChar(n)] else NatToDecimal(n / 10) + [DigitChar(n % 10)]
  }

  /** The digits of `to_string` spell the number, with no leading zero. */
  lemma {:induction false} NatToDecimalValue(n: nat)
    ensures DigitsValue(NatToDecimal(n)) == n
    ensures |NatToDecimal(n)| > 1 ==> NatToDecimal(n)[0] != '0'
    decreases n
  {
    if n >= 10 {
      NatToDecimalValue(n / 10);
      var s := NatToDecimal(n);
      assert s[..|s| - 1] == NatToDecimal(n / 10);
    }
  }

  /** Rust's `Display` of a signed integer. */
  function IntToDecimal(x: int): (s: string)
    ensures |s| >= 1 && NoWhitespace(s)
  {
    if x < 0 then "-" + NatToDecimal(-x) else NatToDecimal(x)
  }

  /** Rust's `str::parse` for an integer type whose values are lo..hi:
      an optional `+` (or `-` when signed), then one or more decimal digits,
      and the value must fit the type. */
  function ParseInteger(s: string, signed: bool, lo: int, hi: int): (r: Option<int>)
    ensures r.Some? ==> lo <= r.value <= hi
    ensures s == [] ==> r.None?
    ensures !signed && |s| > 0 && s[0] == '-' ==> r.None?
  {
    if |s| == 0 then None
    else if (s[0] == '+' || s[0] == '-') && |s| == 1 then None
    else
      var neg := s[0] == '-' && signed;
      var digits := if s[0] == '+' || neg then s[1..] else s;
      if !AllDigits(digits) then None
      else
        var v: int := if neg then -(DigitsValue(digits) as int) else DigitsValue(digits);
        if lo <= v <= hi then Some(v) else None
  }

  /** Parsing reverses formatting for every value of the type. */
  lemma {:induction false} ParseIntegerOfDecimal(x: int, signed: bool, lo: int, hi: int)
    requires lo <= x <= hi
    requires x < 0 ==> signed
    ensures ParseInteger(IntToDecimal(x), signed, lo, hi) == Some(x)
  {
    var s := IntToDecimal(x);
    NatToDecimalValue(if x < 0 then -x else x);
    if x < 0 {
      assert s[1..] == NatToDecimal(-x);
    } else {
      assert IsDigit(s[0]);
    }
  }

  // ----- bytes and characters -----

  /** Each byte read as the character with that code (the model's reading of
      header and ASCII-body lines). */
  function Latin1(bs: seq<byte>): (s: string)
    ensures |s| == |bs|
    ensures forall i :: 0 <= i < |bs| ==> s[i] as int == bs[i]
  {
    seq(|bs|, i requires 0 <= i < |bs| => (bs[i] as int) as char)
  }

  predicate IsAscii(s: string)
  {
    forall i :: 0 <= i < |s| ==> (s[i] as int) < 0x80
  }

  /** The UTF-8 encoding of one character. */
  function CharUtf8(c: char): (bs: seq<byte>)
    ensures 1 <= |bs| <= 4
    ensures (c as int) < 0x80 ==> bs == [c as int]
  {
    var n := c as int;
    if n < 0x80 then [n]
    else if n < 0x800 then [0xC0 + n / 0x40, 0x80 + n % 0x40]
    else if n < 0x1_0000 then [0xE0 + n / 0x1000, 0x80 + (n / 0x40) % 0x40, 0x80 + n % 0x40]
    else [0xF0 + n / 0x4_0000, 0x80 + (n / 0x1000) % 0x40, 0x80 + (n / 0x40) % 0x40, 0x80 + n % 0x40]
  }

  /** The UTF-8 encoding of a string, as `write!` emits it. */
  function Utf8(s: string): seq<byte>
    decreases |s|
  {
    if s == [] then [] else CharUtf8(s[0]) + Utf8(s[1..])
  }

  /** ASCII text written as UTF-8 reads back unchanged. */
  lemma {:induction false} Latin1OfUtf8(s: string)
    requires IsAscii(s)
    ensures |Utf8(s)| == |s|
    ensures Latin1(Utf8(s)) == s
    decreases |s|
  {
    if s != [] {
      Latin1OfUtf8(s[1..]);
      assert Utf8(s) == [s[0] as int] + Utf8(s[1..]);
    }
  }

  lemma {:induction false} Utf8Append(a: string, b: string)
    ensures Utf8(a + b) == Utf8(a) + Utf8(b)
    decreases |a|
  {
    if a != [] {
      assert (a + b)[1..] == a[1..] + b;
      Utf8Append(a[1..], b);
    } else {
      assert a + b == b;
    }
  }
}

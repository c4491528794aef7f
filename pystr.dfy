/**
 * The Python `str` operations the ingest path relies on: `isspace`, `strip`,
 * `split(",")`, `splitlines`, the `lower() == "nan"` test and the decimal
 * subset of `float()`.
 */
module PyStr {
  import opened Wrappers

  /** `c.isspace()`: the characters Python treats as whitespace (also `\s` in `re`). */
  predicate IsSpace(c: char) {
    ('\t' <= c <= '\r') || ('\U{1C}' <= c <= ' ') || c == '\U{85}' || c == '\U{A0}'
    || c == '\U{1680}' || ('\U{2000}' <= c <= '\U{200A}') || c == '\U{2028}' || c == '\U{2029}'
    || c == '\U{202F}' || c == '\U{205F}' || c == '\U{3000}'
  }

  predicate IsAsciiDigit(c: char) {
    '0' <= c <= '9'
  }

  predicate AllSpace(s: string) {
    forall k :: 0 <= k < |s| ==> IsSpace(s[k])
  }

  predicate AllDigits(s: string) {
    forall k :: 0 <= k < |s| ==> IsAsciiDigit(s[k])
  }

  lemma AllSpaceCons(c: char, t: string)
    requires IsSpace(c) && AllSpace(t)
    ensures AllSpace([c] + t)
  {
    assert forall k :: 1 <= k <= |t| ==> ([c] + t)[k] == t[k - 1];
  }

  lemma AllSpaceSnoc(t: string, c: char)
    requires AllSpace(t) && IsSpace(c)
    ensures AllSpace(t + [c])
  {
    assert forall k :: 0 <= k < |t| ==> (t + [c])[k] == t[k];
  }

  /** `s.lstrip()`: the suffix left after dropping leading whitespace. */
  function TrimLeft(s: string): (r: string)
    ensures |r| <= |s| && r == s[|s| - |r|..]
    ensures AllSpace(s[..|s| - |r|])
    ensures r == [] || !IsSpace(r[0])
  {
    if s != [] && IsSpace(s[0]) then
      var r := TrimLeft(s[1..]);
      assert s[..|s| - |r|] == [s[0]] + s[1..][..|s[1..]| - |r|];
      AllSpaceCons(s[0], s[1..][..|s[1..]| - |r|]);
      r
    else s
  }

  /** `s.rstrip()`: the prefix left after dropping trailing whitespace. */
  function TrimRight(s: string): (r: string)
    ensures |r| <= |s| && r == s[..|r|]
    ensures AllSpace(s[|r|..])
    ensures r == [] || !IsSpace(r[|r| - 1])
  {
    if s != [] && IsSpace(s[|s| - 1]) then
      var r := TrimRight(s[..|s| - 1]);
      assert s[|r|..] == s[..|s| - 1][|r|..] + [s[|s| - 1]];
      AllSpaceSnoc(s[..|s| - 1][|r|..], s[|s| - 1]);
      r
    else s
  }

  /** `s.strip()`: `s` without its leading and trailing whitespace. */
  function Strip(s: string): (r: string)
    ensures r == [] <==> AllSpace(s)
    ensures r == [] || (!IsSpace(r[0]) && !IsSpace(r[|r| - 1]))
  {
    var l := TrimLeft(s);
    assert l == [] ==> AllSpace(s) by {
      if l == [] {
        assert s[..|s|] == s;
      }
    }
    TrimRight(l)
  }

  /**
   * `strip` removes only whitespace, and only at the ends: its result is a slice of
   * the input with whitespace before and after it. With the non-space ends that
   * `Strip` ensures, this fixes the result.
   */
  lemma StripIsSlice(s: string)
    ensures exists a, b :: 0 <= a <= b <= |s| && AllSpace(s[..a]) && AllSpace(s[b..]) && Strip(s) == s[a..b]
  {
    var l := TrimLeft(s);
    var r := TrimRight(l);
    var a := |s| - |l|;
    assert s[a..a + |r|] == r && s[a + |r|..] == l[|r|..];
  }

  /** A string with no whitespace at either end is left alone by `strip`. */
  lemma StripUnchanged(s: string)
    requires s == [] || (!IsSpace(s[0]) && !IsSpace(s[|s| - 1]))
    ensures Strip(s) == s
  {
  }

  /** Stripping twice is stripping once. */
  lemma StripIdempotent(s: string)
    ensures Strip(Strip(s)) == Strip(s)
  {
    StripUnchanged(Strip(s));
  }

  /** Whitespace on either side of a word without whitespace at its ends is exactly what `strip` removes. */
  lemma StripPadded(lead: string, t: string, trail: string)
    requires AllSpace(lead) && AllSpace(trail) && t != [] && !IsSpace(t[0]) && !IsSpace(t[|t| - 1])
    ensures Strip(lead + t + trail) == t
  {
    TrimLeftPadded(lead, t + trail);
    assert lead + t + trail == lead + (t + trail);
    TrimRightPadded(t, trail);
  }

  lemma {:induction false} TrimLeftPadded(pad: string, u: string)
    requires AllSpace(pad) && u != [] && !IsSpace(u[0])
    ensures TrimLeft(pad + u) == u
    decreases |pad|
  {
    if pad == [] {
      assert pad + u == u;
    } else {
      assert (pad + u)[0] == pad[0];
      assert (pad + u)[1..] == pad[1..] + u;
      TrimLeftPadded(pad[1..], u);
    }
  }

  lemma {:induction false} TrimRightPadded(t: string, pad: string)
    requires AllSpace(pad) && t != [] && !IsSpace(t[|t| - 1])
    ensures TrimRight(t + pad) == t
    decreases |pad|
  {
    if pad == [] {
      assert t + pad == t;
    } else {
      var last := |t + pad| - 1;
      assert (t + pad)[last] == pad[|pad| - 1];
      assert (t + pad)[..last] == t + pad[..|pad| - 1];
      TrimRightPadded(t, pad[..|pad| - 1]);
    }
  }

  /** Python's `sep.join(parts)` for a one-character separator. */
  function Join(parts: seq<string>, sep: char): string
    requires |parts| >= 1
  {
    if |parts| == 1 then parts[0] else parts[0] + [sep] + Join(parts[1..], sep)
  }

  /** `s.split(sep)` for a one-character separator: the empty string gives `[""]`. */
  function Split(s: string, sep: char): (parts: seq<string>)
    ensures |parts| >= 1
    ensures forall i :: 0 <= i < |parts| ==> sep !in parts[i]
    ensures Join(parts, sep) == s
  {
    if s == [] then [[]]
    else
      var rest := Split(s[1..], sep);
      if s[0] == sep then [[]] + rest
      else
        var parts := [[s[0]] + rest[0]] + rest[1..];
        assert parts[1..] == rest[1..];
        parts
  }

  /** Splitting a join of separator-free pieces gives the pieces back. */
  lemma {:induction false} SplitJoin(parts: seq<string>, sep: char)
    requires |parts| >= 1
    requires forall i :: 0 <= i < |parts| ==> sep !in parts[i]
    ensures Split(Join(parts, sep), sep) == parts
  {
    var p := parts[0];
    if |parts| == 1 {
      SplitPiece(p, [], sep);
      assert p + [] == p;
    } else {
      SplitJoin(parts[1..], sep);
      var tail := Join(parts[1..], sep);
      assert Join(parts, sep) == p + ([sep] + tail);
      assert ([sep] + tail)[0] == sep && ([sep] + tail)[1..] == tail;
      assert Split([sep] + tail, sep) == [[]] + parts[1..];
      SplitPiece(p, [sep] + tail, sep);
      assert p + [] == p;
      assert [p] + parts[1..] == parts;
    }
  }

  /** A separator-free prefix is glued to the first piece of what follows it. */
  lemma {:induction false} SplitPiece(p: string, s: string, sep: char)
    requires sep !in p
    ensures var rest := Split(s, sep);
      Split(p + s, sep) == [p + rest[0]] + rest[1..]
  {
    var rest := Split(s, sep);
    if p == [] {
      assert p + s == s;
      assert p + rest[0] == rest[0];
      assert [rest[0]] + rest[1..] == rest;
    } else {
      var q := p[1..];
      var rest' := Split(q + s, sep);
      calc {
        Split(p + s, sep);
        { assert p + s != [] && (p + s)[0] == p[0] && p[0] != sep && (p + s)[1..] == q + s; }
        [[p[0]] + rest'[0]] + rest'[1..];
        { SplitPiece(q, s, sep); }
        [[p[0]] + (q + rest[0])] + rest[1..];
        { assert [p[0]] + (q + rest[0]) == p + rest[0]; }
        [p + rest[0]] + rest[1..];
      }
    }
  }

  /** The characters `str.splitlines` breaks on. */
  predicate IsLineBreak(c: char) {
    ('\n' <= c <= '\r') || ('\U{1C}' <= c <= '\U{1E}') || c == '\U{85}'
    || c == '\U{2028}' || c == '\U{2029}'
  }

  predicate HasNoBreak(s: string) {
    forall k :: 0 <= k < |s| ==> !IsLineBreak(s[k])
  }

  /** `s` with every line-break character removed. */
  function RemoveBreaks(s: string): string {
    if s == [] then []
    else (if IsLineBreak(s[0]) then [] else [s[0]]) + RemoveBreaks(s[1..])
  }

  function Concat(lines: seq<string>): string {
    if lines == [] then [] else lines[0] + Concat(lines[1..])
  }

  lemma ConcatCons(line: string, rest: seq<string>)
    ensures Concat([line] + rest) == line + Concat(rest)
  {
    assert ([line] + rest)[1..] == rest;
  }

  lemma ConsNoBreak(line: string, rest: seq<string>)
    requires HasNoBreak(line) && forall i :: 0 <= i < |rest| ==> HasNoBreak(rest[i])
    ensures forall i :: 0 <= i < |[line] + rest| ==> HasNoBreak(([line] + rest)[i])
  {
    assert forall i :: 1 <= i < |[line] + rest| ==> ([line] + rest)[i] == rest[i - 1];
  }

  lemma NoBreakSnoc(cur: string, c: char)
    requires HasNoBreak(cur) && !IsLineBreak(c)
    ensures HasNoBreak(cur + [c])
  {
    assert forall k :: 0 <= k < |cur| ==> (cur + [c])[k] == cur[k];
  }

  /**
   * `s.splitlines()` continued from a partial line `cur`: each break ends a line,
   * `\r\n` counts as one break, and a last line without a break is kept only when non-empty.
   */
  function SplitLinesFrom(s: string, cur: string): (lines: seq<string>)
    requires HasNoBreak(cur)
    decreases |s|
  {
    if s == [] then
      if cur == [] then [] else [cur]
    else if IsLineBreak(s[0]) then
      [cur] + SplitLinesFrom(s[BreakLength(s)..], [])
    else
      NoBreakSnoc(cur, s[0]);
      SplitLinesFrom(s[1..], cur + [s[0]])
  }

  /** The length of the break at the head of `s`: 2 for `\r\n`, otherwise 1. */
  function BreakLength(s: string): (n: nat)
    requires s != [] && IsLineBreak(s[0])
    ensures 1 <= n <= |s|
    ensures forall k :: 0 <= k < n ==> IsLineBreak(s[k])
  {
    if s[0] == '\r' && |s| > 1 && s[1] == '\n' then 2 else 1
  }

  lemma RemoveBreaksSkip(s: string, n: nat)
    requires n <= |s| && forall k :: 0 <= k < n ==> IsLineBreak(s[k])
    ensures RemoveBreaks(s) == RemoveBreaks(s[n..])
  {
    if n > 0 {
      RemoveBreaksSkip(s[1..], n - 1);
      assert s[1..][n - 1..] == s[n..];
    }
  }

  /** No line of `splitlines` holds a break character. */
  lemma {:induction false} SplitLinesFromNoBreak(s: string, cur: string)
    requires HasNoBreak(cur)
    ensures forall i :: 0 <= i < |SplitLinesFrom(s, cur)| ==> HasNoBreak(SplitLinesFrom(s, cur)[i])
    decreases |s|
  {
    if s == [] {
    } else if IsLineBreak(s[0]) {
      var n := BreakLength(s);
      var rest := SplitLinesFrom(s[n..], []);
      SplitLinesFromNoBreak(s[n..], []);
      assert SplitLinesFrom(s, cur) == [cur] + rest;
      ConsNoBreak(cur, rest);
    } else {
      NoBreakSnoc(cur, s[0]);
      SplitLinesFromNoBreak(s[1..], cur + [s[0]]);
      assert SplitLinesFrom(s, cur) == SplitLinesFrom(s[1..], cur + [s[0]]);
    }
  }

  /** Joining the lines of `splitlines` gives the text back with exactly its breaks removed. */
  lemma {:induction false} SplitLinesFromConcat(s: string, cur: string)
    requires HasNoBreak(cur)
    ensures Concat(SplitLinesFrom(s, cur)) == cur + RemoveBreaks(s)
    decreases |s|
  {
    if s == [] {
      assert cur + RemoveBreaks(s) == cur;
    } else if IsLineBreak(s[0]) {
      var n := BreakLength(s);
      var rest := SplitLinesFrom(s[n..], []);
      SplitLinesFromConcat(s[n..], []);
      RemoveBreaksSkip(s, n);
      assert SplitLinesFrom(s, cur) == [cur] + rest;
      ConcatCons(cur, rest);
    } else {
      NoBreakSnoc(cur, s[0]);
      SplitLinesFromConcat(s[1..], cur + [s[0]]);
      assert SplitLinesFrom(s, cur) == SplitLinesFrom(s[1..], cur + [s[0]]);
      assert RemoveBreaks(s) == [s[0]] + RemoveBreaks(s[1..]);
      assert cur + RemoveBreaks(s) == (cur + [s[0]]) + RemoveBreaks(s[1..]);
    }
  }

  /** `s.splitlines()`: no line holds a break, and only the breaks are lost. */
  function SplitLines(s: string): (lines: seq<string>)
    ensures forall i :: 0 <= i < |lines| ==> HasNoBreak(lines[i])
    ensures Concat(lines) == RemoveBreaks(s)
  {
    SplitLinesFromNoBreak(s, []);
    SplitLinesFromConcat(s, []);
    SplitLinesFrom(s, [])
  }

  /** A line terminator `splitlines` recognises: `\r\n` or any single break character. */
  predicate IsTerminator(brk: string) {
    brk == "\r\n" || (|brk| == 1 && IsLineBreak(brk[0]))
  }

  /** Lines written out one after another, each ended by the terminator `brk`. */
  function JoinLines(lines: seq<string>, brk: string): string {
    if lines == [] then [] else lines[0] + brk + JoinLines(lines[1..], brk)
  }

  /** A break-free prefix of the text only extends the partial line. */
  lemma {:induction false} SplitLinesFromGlue(p: string, s: string, cur: string)
    requires HasNoBreak(cur) && HasNoBreak(p)
    ensures HasNoBreak(cur + p)
    ensures SplitLinesFrom(p + s, cur) == SplitLinesFrom(s, cur + p)
    decreases |p|
  {
    if p == [] {
      assert p + s == s && cur + p == cur;
    } else {
      assert (p + s)[0] == p[0] && (p + s)[1..] == p[1..] + s;
      NoBreakSnoc(cur, p[0]);
      SplitLinesFromGlue(p[1..], s, cur + [p[0]]);
      assert (cur + [p[0]]) + p[1..] == cur + p;
    }
  }

  /**
   * Every break character ends the line before it and starts a new one: `\n`,
   * `\v`, `\f`, `\x1c`-`\x1e`, `\x85`, U+2028, U+2029, and `\r` when no `\n`
   * follows it.
   */
  lemma SplitLinesBreak(l: string, c: char, r: string)
    requires HasNoBreak(l) && IsLineBreak(c)
    requires c == '\r' ==> r == [] || r[0] != '\n'
    ensures SplitLines(l + [c] + r) == [l] + SplitLines(r)
  {
    var x := [c] + r;
    calc {
      SplitLines(l + [c] + r);
      { assert l + [c] + r == l + x; }
      SplitLinesFrom(l + x, []);
      { SplitLinesFromGlue(l, x, []); assert [] + l == l; }
      SplitLinesFrom(x, l);
      { assert x[0] == c && BreakLength(x) == 1 && x[1..] == r; }
      [l] + SplitLinesFrom(r, []);
    }
  }

  /** `\r\n` is one break: it ends the line before it and yields no empty line. */
  lemma SplitLinesCrLf(l: string, r: string)
    requires HasNoBreak(l)
    ensures SplitLines(l + "\r\n" + r) == [l] + SplitLines(r)
  {
    var x := "\r\n" + r;
    calc {
      SplitLines(l + "\r\n" + r);
      { assert l + "\r\n" + r == l + x; }
      SplitLinesFrom(l + x, []);
      { SplitLinesFromGlue(l, x, []); assert [] + l == l; }
      SplitLinesFrom(x, l);
      { assert x[0] == '\r' && x[1] == '\n' && BreakLength(x) == 2 && x[2..] == r; }
      [l] + SplitLinesFrom(r, []);
    }
  }

  /** A line ended by a terminator is split off, unless a lone `\r` would run into a `\n`. */
  lemma SplitLinesTerminated(l: string, brk: string, r: string)
    requires HasNoBreak(l) && IsTerminator(brk)
    requires brk == "\r" ==> r == [] || r[0] != '\n'
    ensures SplitLines(l + brk + r) == [l] + SplitLines(r)
  {
    if brk == "\r\n" {
      SplitLinesCrLf(l, r);
    } else {
      assert brk == [brk[0]];
      SplitLinesBreak(l, brk[0], r);
    }
  }

  lemma JoinLinesCons(lines: seq<string>, brk: string, last: string)
    requires lines != []
    ensures JoinLines(lines, brk) + last == lines[0] + brk + (JoinLines(lines[1..], brk) + last)
  {
  }

  /** Lines joined by a lone `\r` never start with `\n`, so no `\r\n` forms at a seam. */
  lemma JoinLinesStart(lines: seq<string>, last: string)
    requires forall i :: 0 <= i < |lines| ==> HasNoBreak(lines[i])
    requires HasNoBreak(last)
    ensures JoinLines(lines, "\r") + last == [] || (JoinLines(lines, "\r") + last)[0] != '\n'
  {
    if lines == [] {
      assert JoinLines(lines, "\r") + last == last;
    } else {
      var l := lines[0];
      assert HasNoBreak(l);
      SeamStart(l, JoinLines(lines[1..], "\r") + last);
      JoinLinesCons(lines, "\r", last);
    }
  }

  /** A break-free line followed by `\r` does not start with `\n`. */
  lemma SeamStart(l: string, y: string)
    requires HasNoBreak(l)
    ensures (l + "\r" + y)[0] != '\n'
  {
    if l != [] {
      assert (l + "\r" + y)[0] == l[0];
    }
  }

  /**
   * `splitlines` gives back break-free lines written one per terminator, followed
   * by a last line without a break when that line is non-empty.
   */
  lemma {:induction false} SplitLinesJoin(lines: seq<string>, brk: string, last: string)
    requires forall i :: 0 <= i < |lines| ==> HasNoBreak(lines[i])
    requires HasNoBreak(last) && IsTerminator(brk)
    ensures SplitLines(JoinLines(lines, brk) + last) == lines + (if last == [] then [] else [last])
    decreases |lines|
  {
    if lines == [] {
      assert JoinLines(lines, brk) + last == last;
      if last != [] {
        SplitLinesSingle(last, []);
        assert [] + last == last;
      }
    } else {
      var l, rest := lines[0], lines[1..];
      var x := JoinLines(rest, brk) + last;
      if brk == "\r" {
        JoinLinesStart(rest, last);
      }
      calc {
        SplitLines(JoinLines(lines, brk) + last);
        { JoinLinesCons(lines, brk, last); }
        SplitLines(l + brk + x);
        { SplitLinesTerminated(l, brk, x); }
        [l] + SplitLines(x);
        { SplitLinesJoin(rest, brk, last); }
        [l] + (rest + (if last == [] then [] else [last]));
        { assert lines == [l] + rest; }
        lines + (if last == [] then [] else [last]);
      }
    }
  }

  /** A non-empty text without breaks is a single line. */
  lemma {:induction false} SplitLinesSingle(s: string, cur: string)
    requires HasNoBreak(cur) && HasNoBreak(s) && cur + s != []
    ensures SplitLinesFrom(s, cur) == [cur + s]
    decreases |s|
  {
    if s == [] {
      assert cur + s == cur;
    } else {
      assert !IsLineBreak(s[0]);
      NoBreakSnoc(cur, s[0]);
      SplitLinesSingle(s[1..], cur + [s[0]]);
      assert (cur + [s[0]]) + s[1..] == cur + s;
    }
  }

  /** `t.lower() == "nan"`: only ASCII `n`/`N` and `a`/`A` lower-case to these letters. */
  predicate IsNanWord(t: string) {
    |t| == 3 && (t[0] == 'n' || t[0] == 'N') && (t[1] == 'a' || t[1] == 'A')
    && (t[2] == 'n' || t[2] == 'N')
  }

  function DigitValue(c: char): nat
    requires IsAsciiDigit(c)
  {
    c as nat - '0' as nat
  }

  /** The value of a string of decimal digits (0 for the empty string). */
  function DigitsValue(s: string): nat
    requires AllDigits(s)
  {
    if s == [] then 0 else 10 * DigitsValue(s[..|s| - 1]) + DigitValue(s[|s| - 1])
  }

  function Pow10(n: nat): (r: nat)
    ensures r >= 1
  {
    if n == 0 then 1 else 10 * Pow10(n - 1)
  }

  /** The shortest decimal spelling of `n`, as `str(n)` gives it. */
  function NatDigits(n: nat): (s: string)
    ensures |s| >= 1 && AllDigits(s)
  {
    var d := ['0' + (n % 10) as char];
    if n < 10 then d else NatDigits(n / 10) + d
  }

  /** Reading back the decimal spelling of a natural number gives the number. */
  lemma {:induction false} DigitsValueOfNatDigits(n: nat)
    ensures DigitsValue(NatDigits(n)) == n
  {
    var s := NatDigits(n);
    assert s[|s| - 1] == '0' + (n % 10) as char;
    if n >= 10 {
      assert s[..|s| - 1] == NatDigits(n / 10);
      DigitsValueOfNatDigits(n / 10);
    }
  }

  function IndexOf(s: string, c: char): (i: nat)
    ensures i <= |s| && c !in s[..i]
    ensures i < |s| ==> s[i] == c
  {
    if s == [] then 0
    else if s[0] == c then 0
    else
      var i := 1 + IndexOf(s[1..], c);
      assert s[..i] == [s[0]] + s[1..][..i - 1];
      i
  }

  predicate IsDecimalChar(c: char) {
    c == '+' || c == '-' || c == '.' || IsAsciiDigit(c)
  }

  /** The value of the digits after a decimal point: `frac / 10^|frac|`. */
  function FractionValue(frac: string): real
    requires AllDigits(frac)
  {
    DigitsValue(frac) as real / Pow10(|frac|) as real
  }

  /** The value of the decimal `whole.frac`. */
  function DecimalValue(whole: string, frac: string): real
    requires AllDigits(whole) && AllDigits(frac)
  {
    DigitsValue(whole) as real + FractionValue(frac)
  }

  /** The magnitude of an unsigned decimal: digits with at most one `.` and at least one digit. */
  function UnsignedDecimal(u: string): (r: Option<real>)
    ensures r.Some? ==> |u| >= 1 && forall k :: 0 <= k < |u| ==> u[k] == '.' || IsAsciiDigit(u[k])
  {
    var dot := IndexOf(u, '.');
    var whole := u[..dot];
    var frac := if dot < |u| then u[dot + 1..] else [];
    if AllDigits(whole) && AllDigits(frac) && |whole| + |frac| > 0 then
      assert forall k :: 0 <= k < |u| ==> u[k] == '.' || IsAsciiDigit(u[k]) by {
        forall k | 0 <= k < |u| ensures u[k] == '.' || IsAsciiDigit(u[k]) {
          if k < dot { assert u[k] == whole[k]; }
          else if k > dot { assert u[k] == frac[k - dot - 1]; }
        }
      }
      Some(DecimalValue(whole, frac))
    else
      None
  }

  /**
   * `float(t)` restricted to plain decimals: an optional sign, then digits with at
   * most one `.`, and at least one digit. Anything else is a `ValueError` (`None`).
   */
  function ParseDecimal(t: string): (r: Option<real>)
    ensures r.Some? ==> |t| >= 1 && forall k :: 0 <= k < |t| ==> IsDecimalChar(t[k])
  {
    if |t| > 0 && (t[0] == '+' || t[0] == '-') then
      match UnsignedDecimal(t[1..])
      case None => None
      case Some(mag) =>
        assert forall k :: 1 <= k < |t| ==> t[k] == t[1..][k - 1];
        Some(if t[0] == '-' then -mag else mag)
    else
      UnsignedDecimal(t)
  }

  /**
   * The unsigned shape `float` accepts here, written without reference to the parser:
   * only digits and dots, at most one dot, and at least one digit.
   */
  predicate UnsignedLiteral(u: string) {
    (forall k :: 0 <= k < |u| ==> u[k] == '.' || IsAsciiDigit(u[k]))
    && (forall i, j :: 0 <= i < j < |u| && u[i] == '.' ==> u[j] != '.')
    && (exists k :: 0 <= k < |u| && IsAsciiDigit(u[k]))
  }

  /** A decimal literal: an optional `+` or `-`, then an unsigned literal. */
  predicate DecimalLiteral(t: string) {
    if |t| > 0 && (t[0] == '+' || t[0] == '-') then UnsignedLiteral(t[1..])
    else UnsignedLiteral(t)
  }

  /** The unsigned reader succeeds exactly on unsigned literals. */
  lemma UnsignedDecimalSomeIff(u: string)
    ensures UnsignedDecimal(u).Some? <==> UnsignedLiteral(u)
  {
    var dot := IndexOf(u, '.');
    var whole := u[..dot];
    var frac := if dot < |u| then u[dot + 1..] else [];
    if UnsignedDecimal(u).Some? {
      forall k | 0 <= k < |u| && k != dot
        ensures IsAsciiDigit(u[k])
      {
        if k < dot { assert u[k] == whole[k]; } else { assert u[k] == frac[k - dot - 1]; }
      }
      if |whole| > 0 {
        assert u[0] == whole[0];
      } else {
        assert u[dot + 1] == frac[0];
      }
    }
    if UnsignedLiteral(u) {
      forall k | 0 <= k < |whole|
        ensures IsAsciiDigit(whole[k])
      {
        assert whole[k] == u[k] && whole[k] in whole;
      }
      if dot < |u| {
        forall k | 0 <= k < |frac|
          ensures IsAsciiDigit(frac[k])
        {
          assert frac[k] == u[dot + 1 + k] && u[dot] == '.';
        }
      }
      var k :| 0 <= k < |u| && IsAsciiDigit(u[k]);
      if k >= dot {
        assert u[dot] == '.' && k != dot;
      }
    }
  }

  /** `float` reads a value exactly from a decimal literal; everything else is absent. */
  lemma ParseDecimalSomeIff(t: string)
    ensures ParseDecimal(t).Some? <==> DecimalLiteral(t)
  {
    if |t| > 0 && (t[0] == '+' || t[0] == '-') {
      UnsignedDecimalSomeIff(t[1..]);
    } else {
      UnsignedDecimalSomeIff(t);
    }
  }

  /** The sign prefixes `float` accepts: none, `+` or `-`. */
  predicate IsSign(sign: string) {
    sign == [] || sign == "+" || sign == "-"
  }

  /** A magnitude under a sign prefix. */
  function Signed(sign: string, mag: real): real {
    if sign == "-" then -mag else mag
  }

  /** A sign prefix applies to the magnitude the unsigned reader gives. */
  lemma ParseDecimalOfSigned(sign: string, u: string, mag: real)
    requires IsSign(sign) && UnsignedDecimal(u) == Some(mag)
    ensures ParseDecimal(sign + u) == Some(Signed(sign, mag))
  {
    var t := sign + u;
    if sign == [] {
      assert t == u && (u[0] == '.' || IsAsciiDigit(u[0]));
    } else {
      assert t[0] == sign[0] && t[1..] == u;
    }
  }

  /** A string of digits without a dot reads back as its value. */
  lemma UnsignedDecimalOfWhole(whole: string)
    requires AllDigits(whole) && |whole| >= 1
    ensures UnsignedDecimal(whole) == Some(DigitsValue(whole) as real)
  {
    var none: string := [];
    assert '.' !in whole by {
      assert forall k :: 0 <= k < |whole| ==> whole[k] != '.';
    }
    IndexOfAbsent(whole, '.');
    assert whole[..|whole|] == whole;
    assert FractionValue(none) == 0.0 by {
      assert DigitsValue(none) == 0 && Pow10(|none|) == 1;
    }
    assert DecimalValue(whole, none) == DigitsValue(whole) as real;
  }

  /** A character that does not occur is found at the end. */
  lemma IndexOfAbsent(s: string, c: char)
    requires c !in s
    ensures IndexOf(s, c) == |s|
  {
  }

  /** Any sign and any digits with no dot read as the signed value: `+5`, `007`, `-12`. */
  lemma ParseDecimalOfWhole(sign: string, whole: string)
    requires IsSign(sign) && AllDigits(whole) && |whole| >= 1
    ensures ParseDecimal(sign + whole) == Some(Signed(sign, DigitsValue(whole) as real))
  {
    UnsignedDecimalOfWhole(whole);
    ParseDecimalOfSigned(sign, whole, DigitsValue(whole) as real);
  }

  /**
   * Any sign, digits, a dot and digits, with a digit on at least one side, read as
   * the signed decimal value: `.5`, `-.5`, `5.`, `+007.25`.
   */
  lemma ParseDecimalOfDigits(sign: string, whole: string, frac: string)
    requires IsSign(sign) && AllDigits(whole) && AllDigits(frac) && |whole| + |frac| >= 1
    ensures ParseDecimal(sign + (whole + "." + frac)) == Some(Signed(sign, DecimalValue(whole, frac)))
  {
    UnsignedDecimalOfDigits(whole, frac);
    ParseDecimalOfSigned(sign, whole + "." + frac, DecimalValue(whole, frac));
  }

  /** A natural number's decimal spelling holds no `.`. */
  lemma NoDotInNatDigits(n: nat)
    ensures IndexOf(NatDigits(n), '.') == |NatDigits(n)|
  {
  }

  /** The unsigned reading of a natural number's decimal spelling is the number. */
  lemma UnsignedDecimalOfNat(n: nat)
    ensures UnsignedDecimal(NatDigits(n)) == Some(n as real)
  {
    var s := NatDigits(n);
    DigitsValueOfNatDigits(n);
    NoDotInNatDigits(n);
    var frac: string := [];
    assert s[..|s|] == s;
    assert AllDigits(frac) && DigitsValue(frac) == 0 && Pow10(|frac|) == 1;
  }

  /** The decimal spelling of a natural number reads back exactly. */
  lemma ParseDecimalOfNat(n: nat)
    ensures ParseDecimal(NatDigits(n)) == Some(n as real)
  {
    UnsignedDecimalOfNat(n);
    assert IsAsciiDigit(NatDigits(n)[0]);
  }

  /** With a leading minus sign it reads back as the negated number. */
  lemma ParseDecimalOfNegNat(n: nat)
    ensures ParseDecimal("-" + NatDigits(n)) == Some(-(n as real))
  {
    var t := "-" + NatDigits(n);
    UnsignedDecimalOfNat(n);
    assert t[0] == '-' && t[1..] == NatDigits(n);
  }

  /** The first occurrence of `c` is the position `IndexOf` finds. */
  lemma IndexOfFirst(s: string, c: char, j: nat)
    requires j < |s| && s[j] == c && c !in s[..j]
    ensures IndexOf(s, c) == j
  {
  }

  /** Digits, a `.` and more digits read back as their decimal value. */
  lemma UnsignedDecimalOfDigits(whole: string, frac: string)
    requires AllDigits(whole) && AllDigits(frac) && |whole| + |frac| >= 1
    ensures UnsignedDecimal(whole + "." + frac) == Some(DecimalValue(whole, frac))
  {
    var u := whole + "." + frac;
    assert u[..|whole|] == whole;
    IndexOfFirst(u, '.', |whole|);
    assert u[|whole| + 1..] == frac;
  }

  /** A whole number, a `.` and a fractional part read back as their decimal value. */
  lemma UnsignedDecimalOfFraction(w: nat, frac: string)
    requires AllDigits(frac)
    ensures UnsignedDecimal(NatDigits(w) + "." + frac)
         == Some(w as real + FractionValue(frac))
  {
    UnsignedDecimalOfDigits(NatDigits(w), frac);
    DigitsValueOfNatDigits(w);
  }

  /** `float` reads `w.frac` as `w + frac / 10^|frac|`. */
  lemma ParseDecimalOfFraction(w: nat, frac: string)
    requires AllDigits(frac)
    ensures ParseDecimal(NatDigits(w) + "." + frac)
         == Some(w as real + FractionValue(frac))
  {
    UnsignedDecimalOfFraction(w, frac);
    assert IsAsciiDigit(NatDigits(w)[0]);
  }

  /** With a leading minus sign, `-w.frac` reads as the negated value. */
  lemma ParseDecimalOfNegFraction(w: nat, frac: string)
    requires AllDigits(frac)
    ensures ParseDecimal("-" + (NatDigits(w) + "." + frac))
         == Some(-(w as real + FractionValue(frac)))
  {
    var t := "-" + (NatDigits(w) + "." + frac);
    UnsignedDecimalOfFraction(w, frac);
    assert t[0] == '-' && t[1..] == NatDigits(w) + "." + frac;
  }
}

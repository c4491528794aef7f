/**
 * The raw-telemetry line pattern, searched case-insensitively:
 *
 *   tid \s* : \s* (?P<tid>\d+) .*? range \s* : \s* \( (?P<rng>[^)]*) \)
 *
 * `Match` says declaratively when a span of a line is a match of the pattern.
 * `Search` computes the match Python's `re.search` returns: the leftmost start,
 * and at that start the backtracking preference (greedy `\d+`, then lazy `.*?`).
 */
module LineGrammar {
  import opened Wrappers
  import opened PyStr

  /** The upper-case form of a lower-case ASCII letter; other characters are unchanged. */
  function AsciiUpper(c: char): char {
    if 'a' <= c <= 'z' then (c as int - 32) as char else c
  }

  /** Whether `c` matches the lower-case ASCII letter `letter` under `re.IGNORECASE`. */
  predicate FoldsTo(c: char, letter: char) {
    c == letter || c == AsciiUpper(letter)
    || (letter == 'i' && (c == '\U{130}' || c == '\U{131}'))
  }

  /** The case-insensitive label `word` (lower-case ASCII letters) starts at `line[i]`. */
  predicate LabelAt(line: string, i: nat, word: string) {
    i + |word| <= |line| && forall k :: 0 <= k < |word| ==> FoldsTo(line[i + k], word[k])
  }

  /** The character classes the pattern repeats: `\s`, `\d`, `.` and `[^)]`. */
  datatype CharClass = Space | Digit | NotNewline | NotCloseParen

  predicate InClass(c: char, cl: CharClass) {
    match cl
    case Space => IsSpace(c)
    case Digit => IsAsciiDigit(c)
    case NotNewline => c != '\n'
    case NotCloseParen => c != ')'
  }

  /** `line[i..j]` is a run of characters of class `cl`. */
  predicate Run(line: string, i: nat, j: nat, cl: CharClass) {
    i <= j <= |line| && forall k :: i <= k < j ==> InClass(line[k], cl)
  }

  /** The end of the longest run of class `cl` starting at `i` (a greedy `cl*`). */
  function RunEnd(line: string, i: nat, cl: CharClass): (j: nat)
    requires i <= |line|
    ensures Run(line, i, j, cl)
    ensures j == |line| || !InClass(line[j], cl)
    decreases |line| - i
  {
    if i < |line| && InClass(line[i], cl) then RunEnd(line, i + 1, cl) else i
  }

  /** A run of class `cl` that cannot be extended ends where the greedy `RunEnd` does. */
  lemma {:induction false} RunEndUnique(line: string, i: nat, j: nat, cl: CharClass)
    requires Run(line, i, j, cl) && (j == |line| || !InClass(line[j], cl))
    ensures RunEnd(line, i, cl) == j
    decreases j - i
  {
    if i < j {
      assert InClass(line[i], cl);
      RunEndUnique(line, i + 1, j, cl);
    }
  }

  /** Positions of a match of the part `range\s*:\s*\([^)]*\)`: label, colon, `(` and `)`. */
  datatype Tail = Tail(range: nat, colon: nat, open: nat, close: nat)

  /** Positions of a whole match: the `tid` label, its colon, the digits and the tail. */
  datatype Span = Span(start: nat, colon: nat, tidStart: nat, tidEnd: nat, tail: Tail)

  predicate TailMatch(line: string, t: Tail) {
    LabelAt(line, t.range, "range")
    && Run(line, t.range + 5, t.colon, Space) && t.colon < |line| && line[t.colon] == ':'
    && Run(line, t.colon + 1, t.open, Space) && t.open < |line| && line[t.open] == '('
    && Run(line, t.open + 1, t.close, NotCloseParen) && t.close < |line| && line[t.close] == ')'
  }

  predicate Match(line: string, m: Span) {
    LabelAt(line, m.start, "tid")
    && Run(line, m.start + 3, m.colon, Space) && m.colon < |line| && line[m.colon] == ':'
    && Run(line, m.colon + 1, m.tidStart, Space)
    && m.tidStart < m.tidEnd && Run(line, m.tidStart, m.tidEnd, Digit)
    && Run(line, m.tidEnd, m.tail.range, NotNewline)
    && TailMatch(line, m.tail)
  }

  /**
   * Among matches at one start, the one `re` reports is the greatest in this order:
   * longer `\d+` first, then shorter `.*?`; equal on both means the same match.
   */
  predicate Preferred(chosen: Span, other: Span) {
    chosen.tidEnd > other.tidEnd
    || (chosen.tidEnd == other.tidEnd
        && (chosen.tail.range < other.tail.range || chosen == other))
  }

  /** The first index at or after `s` holding a value, if any. */
  function FirstSome<T>(xs: seq<Option<T>>, s: nat): (r: Option<nat>)
    requires s <= |xs|
    ensures r.Some? ==> s <= r.value < |xs| && xs[r.value].Some?
    ensures r.Some? ==> forall k :: s <= k < r.value ==> xs[k].None?
    decreases |xs| - s
  {
    if s == |xs| then None
    else if xs[s].Some? then Some(s)
    else FirstSome(xs, s + 1)
  }

  /** If a value sits at `t`, the first one at or after `s <= t` is no later than `t`. */
  lemma {:induction false} FirstSomeReaches<T>(xs: seq<Option<T>>, s: nat, t: nat)
    requires s <= t < |xs| && xs[t].Some?
    ensures FirstSome(xs, s).Some? && FirstSome(xs, s).value <= t
    decreases t - s
  {
    if s < t && xs[s].None? {
      FirstSomeReaches(xs, s + 1, t);
    }
  }

  /** The tail of the pattern matched at `q`, if it matches there. */
  function TailAt(line: string, q: nat): (r: Option<Tail>)
    requires q <= |line|
    ensures r.Some? ==> r.value.range == q && TailMatch(line, r.value)
  {
    if LabelAt(line, q, "range") then
      var c := RunEnd(line, q + 5, Space);
      if c < |line| && line[c] == ':' then
        var o := RunEnd(line, c + 1, Space);
        if o < |line| && line[o] == '(' then
          var e := RunEnd(line, o + 1, NotCloseParen);
          if e < |line| then Some(Tail(q, c, o, e)) else None
        else None
      else None
    else None
  }

  /** A tail that matches at `t.range` is the one `TailAt` finds there: it is unique. */
  lemma TailAtUnique(line: string, t: Tail)
    requires TailMatch(line, t)
    ensures TailAt(line, t.range) == Some(t)
  {
    RunEndUnique(line, t.range + 5, t.colon, Space);
    RunEndUnique(line, t.colon + 1, t.open, Space);
    RunEndUnique(line, t.open + 1, t.close, NotCloseParen);
  }

  /** What `TailAt` finds at each of the positions `0..n-1`. */
  function TailAttempts(line: string, n: nat): (xs: seq<Option<Tail>>)
    requires n <= |line| + 1
    ensures |xs| == n
  {
    if n == 0 then [] else TailAttempts(line, n - 1) + [TailAt(line, n - 1)]
  }

  /** Position `q` of the attempts holds what `TailAt` finds at `q`. */
  lemma {:induction false} TailAttemptsAt(line: string, n: nat, q: nat)
    requires q < n <= |line| + 1
    ensures TailAttempts(line, n)[q] == TailAt(line, q)
  {
    if q < n - 1 {
      TailAttemptsAt(line, n - 1, q);
    }
  }

  /**
   * The lazy `.*?` over precomputed attempts `xs`: the nearest position from `q` holding a
   * value, provided the gap up to it holds no newline (`.` does not match one).
   */
  function LazyIndex<T>(xs: seq<Option<T>>, line: string, q: nat): (r: Option<nat>)
    requires |xs| == |line| + 1 && q <= |line|
    ensures r.Some? ==> q <= r.value <= |line| && xs[r.value].Some? && Run(line, q, r.value, NotNewline)
    decreases |line| - q
  {
    if xs[q].Some? then Some(q)
    else if q < |line| && line[q] != '\n' then LazyIndex(xs, line, q + 1)
    else None
  }

  /** A value reachable from `q` without crossing a newline bounds where the lazy gap stops. */
  lemma {:induction false} LazyIndexReaches<T>(xs: seq<Option<T>>, line: string, q: nat, p: nat)
    requires |xs| == |line| + 1 && q <= p <= |line| && xs[p].Some? && Run(line, q, p, NotNewline)
    ensures LazyIndex(xs, line, q).Some? && LazyIndex(xs, line, q).value <= p
    decreases p - q
  {
    if q < p && xs[q].None? {
      assert InClass(line[q], NotNewline);
      LazyIndexReaches(xs, line, q + 1, p);
    }
  }

  /** The lazy `.*?` from `q` followed by the tail: the nearest tail reachable on this line. */
  function LazyTail(line: string, q: nat): (r: Option<Tail>)
    requires q <= |line|
    ensures r.Some? ==> TailMatch(line, r.value) && Run(line, q, r.value.range, NotNewline)
  {
    var xs := TailAttempts(line, |line| + 1);
    match LazyIndex(xs, line, q)
    case Some(p) => TailAttemptsAt(line, |line| + 1, p); xs[p]
    case None => None
  }

  /**
   * If a tail matches at `p`, reachable from `q` without crossing a newline, the lazy gap
   * from `q` stops at `p` or nearer, and if at `p` then on the tail found there.
   */
  lemma LazyTailReaches(line: string, q: nat, p: nat)
    requires q <= p <= |line| && TailAt(line, p).Some? && Run(line, q, p, NotNewline)
    ensures LazyTail(line, q).Some? && LazyTail(line, q).value.range <= p
    ensures LazyTail(line, q).value.range == p ==> LazyTail(line, q) == TailAt(line, p)
  {
    var xs := TailAttempts(line, |line| + 1);
    TailAttemptsAt(line, |line| + 1, p);
    LazyIndexReaches(xs, line, q, p);
    TailAttemptsAt(line, |line| + 1, LazyIndex(xs, line, q).value);
  }

  /** The match `re` tries first at start `s`, if any match starts there. */
  function MatchAt(line: string, s: nat): (r: Option<Span>)
    requires s <= |line|
    ensures r.Some? ==> r.value.start == s && Match(line, r.value)
  {
    if LabelAt(line, s, "tid") then
      var c := RunEnd(line, s + 3, Space);
      if c < |line| && line[c] == ':' then
        var a := RunEnd(line, c + 1, Space);
        var b := RunEnd(line, a, Digit);
        if a < b then
          match LazyTail(line, b)
          case Some(t) => Some(Span(s, c, a, b, t))
          case None => None
        else None
      else None
    else None
  }

  /** `MatchAt` in terms of the positions its greedy runs reach. */
  lemma MatchAtFound(line: string, s: nat, c: nat, a: nat, b: nat)
    requires s <= |line| && LabelAt(line, s, "tid")
    requires c == RunEnd(line, s + 3, Space) && c < |line| && line[c] == ':'
    requires a == RunEnd(line, c + 1, Space) && b == RunEnd(line, a, Digit) && a < b
    ensures LazyTail(line, b).Some? ==> MatchAt(line, s) == Some(Span(s, c, a, b, LazyTail(line, b).value))
  {
  }

  /** Whenever some match starts at `m.start`, `MatchAt` finds the one `re` prefers. */
  lemma MatchAtComplete(line: string, m: Span)
    requires Match(line, m)
    ensures MatchAt(line, m.start).Some? && Preferred(MatchAt(line, m.start).value, m)
  {
    MatchAtParts(line, m);
    var b := RunEnd(line, m.tidStart, Digit);
    TailAtUnique(line, m.tail);
    LazyTailReaches(line, b, m.tail.range);
    MatchAtFound(line, m.start, m.colon, m.tidStart, b);
  }

  /**
   * Every match fixes its colon and digit start (whitespace runs are maximal), and the
   * lazy gap of any match starts at or after the end of the longest digit run.
   */
  lemma MatchAtParts(line: string, m: Span)
    requires Match(line, m)
    ensures m.colon == RunEnd(line, m.start + 3, Space)
    ensures m.tidStart == RunEnd(line, m.colon + 1, Space)
    ensures m.tidEnd <= RunEnd(line, m.tidStart, Digit) <= m.tail.range
    ensures Run(line, RunEnd(line, m.tidStart, Digit), m.tail.range, NotNewline)
  {
    RunEndUnique(line, m.start + 3, m.colon, Space);
    RunEndUnique(line, m.colon + 1, m.tidStart, Space);
    assert IsAsciiDigit(line[m.tidStart]);
    assert FoldsTo(line[m.tail.range + 0], "range"[0]);
  }

  /** What `MatchAt` finds at each start `0..|line|`, in the order `re.search` tries them. */
  function Attempts(line: string): (xs: seq<Option<Span>>)
    ensures |xs| == |line| + 1
    ensures forall s :: 0 <= s <= |line| ==> xs[s] == MatchAt(line, s)
  {
    seq(|line| + 1, s requires 0 <= s <= |line| => MatchAt(line, s))
  }

  /** `RE_LINE.search(line)`: the match found at the first start where one begins. */
  function FirstMatch(line: string): (r: Option<Span>)
    ensures r.Some? ==> Match(line, r.value)
  {
    var xs := Attempts(line);
    match FirstSome(xs, 0)
    case Some(i) => xs[i]
    case None => None
  }

  /** `r` beats the match `m`: it is a match no later, and preferred at the same start. */
  predicate Beats(r: Option<Span>, m: Span) {
    r.Some? && (r.value.start < m.start || (r.value.start == m.start && Preferred(r.value, m)))
  }

  /** The search reports a match no later than any match, and the preferred one at its start. */
  lemma SearchLeftmost(line: string, m: Span)
    requires Match(line, m)
    ensures Beats(FirstMatch(line), m)
  {
    var xs := Attempts(line);
    MatchAtComplete(line, m);
    FirstSomeReaches(xs, 0, m.start);
  }

  /**
   * The search reports nothing exactly when the line holds no match; otherwise the
   * leftmost match, and among matches at that start the one `re` prefers.
   */
  lemma FirstMatchSpec(line: string)
    ensures FirstMatch(line).None? <==> forall m :: !Match(line, m)
    ensures forall m :: Match(line, m) ==> Beats(FirstMatch(line), m)
  {
    forall m | Match(line, m)
      ensures Beats(FirstMatch(line), m)
    {
      SearchLeftmost(line, m);
    }
  }

  /** The `tid` group of a match. */
  function TidGroup(line: string, m: Span): string
    requires Match(line, m)
  {
    line[m.tidStart..m.tidEnd]
  }

  /** The `rng` group of a match: the text between the parentheses. */
  function RangeGroup(line: string, m: Span): string
    requires Match(line, m)
  {
    line[m.tail.open + 1..m.tail.close]
  }
}

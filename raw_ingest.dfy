/**
 * The raw-ingest route: turning telemetry lines into rows of eight optional
 * distances (`_to_float_or_none`, `parse_line`) and counting a batch of lines
 * into saved and skipped ones (`ingest_dados_crus`). The rows that the route
 * hands to storage are returned as a sequence.
 */
module RawIngest {
  import opened Wrappers
  import opened PyStr
  import opened LineGrammar

  /** Number of distance slots in a reading: anchors A0..A7. */
  const Slots: nat := 8

  /** A parsed line: the tag id and exactly `Slots` optional distances. */
  datatype Reading = Reading(tag: string, distances: seq<Option<real>>)

  /** A `distancias_uwb` row: the tag, `da0..da7`, and the spans, which this route leaves unset. */
  datatype RawRow = RawRow(tag: string, da: seq<Option<real>>, kx: Option<real>, ky: Option<real>)

  /** One slot's value: absent when the stripped token is empty, `nan` or not a number. */
  function ToFloatOrNone(x: string): (r: Option<real>)
    ensures AllSpace(x) ==> r == None
    ensures IsNanWord(Strip(x)) ==> r == None
    ensures !AllSpace(x) && !IsNanWord(Strip(x)) ==> r == ParseDecimal(Strip(x))
  {
    var t := Strip(x);
    if t == [] || IsNanWord(t) then None else ParseDecimal(t)
  }

  /** `parse_line` strips each token before `_to_float_or_none` strips it again: no effect. */
  lemma StrippedTwice(x: string)
    ensures ToFloatOrNone(Strip(x)) == ToFloatOrNone(x)
  {
    StripIdempotent(x);
  }

  /** A word other than `nan`, with whitespace on either side, is read as `float` reads the word. */
  lemma SlotReadsWord(lead: string, t: string, trail: string)
    requires AllSpace(lead) && AllSpace(trail)
    requires t != [] && !IsSpace(t[0]) && !IsSpace(t[|t| - 1]) && !IsNanWord(t)
    ensures ToFloatOrNone(lead + t + trail) == ParseDecimal(t)
  {
    StripPadded(lead, t, trail);
  }

  /**
   * A padded word other than `nan` gives a slot value exactly when it is a decimal
   * literal: `-`, `.`, `1.2.3`, `--5` or `5-` leave the slot absent, never 0.
   */
  lemma SlotPresentIff(lead: string, t: string, trail: string)
    requires AllSpace(lead) && AllSpace(trail)
    requires t != [] && !IsSpace(t[0]) && !IsSpace(t[|t| - 1]) && !IsNanWord(t)
    ensures ToFloatOrNone(lead + t + trail).Some? <==> DecimalLiteral(t)
  {
    SlotReadsWord(lead, t, trail);
    ParseDecimalSomeIff(t);
  }

  /** A slot written as a whole number, with any surrounding whitespace, reads back as that number. */
  lemma SlotRoundTrip(n: nat, lead: string, trail: string)
    requires AllSpace(lead) && AllSpace(trail)
    ensures ToFloatOrNone(lead + NatDigits(n) + trail) == Some(n as real)
  {
    var d := NatDigits(n);
    assert IsAsciiDigit(d[0]) && IsAsciiDigit(d[|d| - 1]);
    SlotReadsWord(lead, d, trail);
    ParseDecimalOfNat(n);
  }

  /** The same for a negative whole number. */
  lemma SlotRoundTripNegative(n: nat, lead: string, trail: string)
    requires AllSpace(lead) && AllSpace(trail)
    ensures ToFloatOrNone(lead + ("-" + NatDigits(n)) + trail) == Some(-(n as real))
  {
    var d := NatDigits(n);
    var t := "-" + d;
    assert IsAsciiDigit(d[|d| - 1]) && t[|t| - 1] == d[|d| - 1];
    SlotReadsWord(lead, t, trail);
    ParseDecimalOfNegNat(n);
  }

  /** A slot written as `w.frac`, with any surrounding whitespace, reads back as its value. */
  lemma SlotRoundTripFraction(w: nat, frac: string, lead: string, trail: string)
    requires AllSpace(lead) && AllSpace(trail) && AllDigits(frac)
    ensures ToFloatOrNone(lead + (NatDigits(w) + "." + frac) + trail)
         == Some(w as real + FractionValue(frac))
  {
    var d := NatDigits(w);
    var t := d + "." + frac;
    assert t[0] == d[0] && IsAsciiDigit(d[0]);
    assert frac == [] ==> t[|t| - 1] == '.';
    assert frac != [] ==> t[|t| - 1] == frac[|frac| - 1] && IsAsciiDigit(frac[|frac| - 1]);
    SlotReadsWord(lead, t, trail);
    ParseDecimalOfFraction(w, frac);
  }

  /** The same for `-w.frac`. */
  lemma SlotRoundTripNegativeFraction(w: nat, frac: string, lead: string, trail: string)
    requires AllSpace(lead) && AllSpace(trail) && AllDigits(frac)
    ensures ToFloatOrNone(lead + ("-" + (NatDigits(w) + "." + frac)) + trail)
         == Some(-(w as real + FractionValue(frac)))
  {
    var t := "-" + (NatDigits(w) + "." + frac);
    assert frac == [] ==> t[|t| - 1] == '.';
    assert frac != [] ==> t[|t| - 1] == frac[|frac| - 1] && IsAsciiDigit(frac[|frac| - 1]);
    SlotReadsWord(lead, t, trail);
    ParseDecimalOfNegFraction(w, frac);
  }

  /** A token such as `-79.31` reads back exactly. */
  lemma SlotReadsExampleValue()
    ensures ToFloatOrNone("-79.31") == Some(-79.31)
  {
    ExampleSpelling();
    ExampleFraction();
    SlotRoundTripNegativeFraction(79, "31", [], []);
  }

  lemma ExampleSpelling()
    ensures "-79.31" == [] + ("-" + (NatDigits(79) + "." + "31")) + []
  {
    assert NatDigits(7) == "7";
  }

  lemma ExampleFraction()
    ensures FractionValue("31") == 0.31
  {
    var frac := "31";
    assert frac[..1] == "3";
    assert DigitsValue(frac) == 31;
    assert Pow10(|frac|) == 100;
  }

  /** `(parts + [""] * 8)[:8]`: the list cut or padded with empty tokens to exactly eight. */
  function FitSlots(parts: seq<string>): (vals: seq<string>)
    ensures |vals| == Slots
    ensures forall k :: 0 <= k < Slots ==> vals[k] == (if k < |parts| then parts[k] else "")
  {
    (parts + seq(Slots, _ => ""))[..Slots]
  }

  /** The comma-separated tokens of a range list, each stripped. */
  function Tokens(rng: string): (parts: seq<string>)
    ensures |parts| == |Split(rng, ',')|
    ensures forall k :: 0 <= k < |parts| ==> parts[k] == Strip(Split(rng, ',')[k])
  {
    var raw := Split(rng, ',');
    seq(|raw|, k requires 0 <= k < |raw| => Strip(raw[k]))
  }

  /** `[_to_float_or_none(v) for v in vals]` over the fitted, stripped tokens of a range list. */
  function SlotValues(rng: string): (ds: seq<Option<real>>)
    ensures |ds| == Slots
  {
    var vals := FitSlots(Tokens(rng));
    seq(Slots, k requires 0 <= k < Slots => ToFloatOrNone(vals[k]))
  }

  /**
   * Slot `k` of a range list is its `k`-th comma-separated token read as a number;
   * tokens past the eighth are dropped, and slots with no token are absent (never zero).
   */
  lemma SlotValueAt(rng: string, k: nat)
    requires k < Slots
    ensures var toks := Split(rng, ',');
      SlotValues(rng)[k] == (if k < |toks| then ToFloatOrNone(toks[k]) else None)
  {
    var toks := Split(rng, ',');
    var vals := FitSlots(Tokens(rng));
    assert vals[k] == (if k < |toks| then Strip(toks[k]) else "");
    SlotOfToken(vals[k], toks, k);
  }

  /** The fitted token of slot `k` reads as the raw piece it was stripped from, or as absent. */
  lemma SlotOfToken(v: string, toks: seq<string>, k: nat)
    requires v == (if k < |toks| then Strip(toks[k]) else "")
    ensures ToFloatOrNone(v) == (if k < |toks| then ToFloatOrNone(toks[k]) else None)
  {
    if k < |toks| {
      StrippedTwice(toks[k]);
    } else {
      assert AllSpace(v);
    }
  }

  /** The tag id: `tid.strip()` of the digit group, which leaves it unchanged. */
  function TagOf(digits: string): (tag: string)
    requires digits != [] && AllDigits(digits)
    ensures tag == digits
  {
    assert IsAsciiDigit(digits[0]) && IsAsciiDigit(digits[|digits| - 1]);
    StripUnchanged(digits);
    Strip(digits)
  }

  /**
   * `parse_line`: `None` exactly when the line holds no match of the line pattern;
   * otherwise the tag is the matched digits and there are exactly eight slots.
   */
  function ParseLine(line: string): (r: Option<Reading>)
    ensures r.None? <==> FirstMatch(line).None?
    ensures r.Some? ==> |r.value.distances| == Slots
    ensures r.Some? ==> r.value.tag != [] && AllDigits(r.value.tag)
  {
    match FirstMatch(line)
    case None => None
    case Some(m) => Some(Reading(TagOf(TidGroup(line, m)), SlotValues(RangeGroup(line, m))))
  }

  /** `parse_line` gives `None` exactly when no part of the line matches the pattern. */
  lemma ParseLineNoneIff(line: string)
    ensures ParseLine(line).None? <==> forall m :: !Match(line, m)
  {
    FirstMatchSpec(line);
  }

  /** A successful parse carries the groups of the match `re.search` reports. */
  lemma ParseLineGroups(line: string)
    requires FirstMatch(line).Some?
    ensures var m := FirstMatch(line).value;
      ParseLine(line) == Some(Reading(TidGroup(line, m), SlotValues(RangeGroup(line, m))))
  {
  }

  /** One element of a list payload: a string, or any other JSON value. */
  datatype PayloadItem = Line(text: string) | NotAString

  /** The request's `payload`: one string of lines, or a list of them. */
  datatype Payload = Text(text: string) | Items(items: seq<PayloadItem>)

  /** The route's answer: `{"saved", "skipped", "received_lines"}`. */
  datatype IngestSummary = IngestSummary(saved: nat, skipped: nat, receivedLines: nat)

  /** The line holds a non-whitespace character, which is when `ln.strip()` is truthy. */
  predicate NonBlank(ln: string) {
    !AllSpace(ln)
  }

  /** `NonBlank` is the truthiness of `ln.strip()`. */
  lemma NonBlankIsStripTruthy(ln: string)
    ensures NonBlank(ln) <==> Strip(ln) != []
  {
  }

  /** The non-blank lines of `ls`, in order. */
  function NonBlankLines(ls: seq<string>): (r: seq<string>)
    ensures |r| <= |ls|
    ensures forall l :: l in r <==> l in ls && !AllSpace(l)
  {
    if ls == [] then []
    else
      var rest := NonBlankLines(ls[1..]);
      assert forall l :: l in ls <==> l == ls[0] || l in ls[1..];
      (if NonBlank(ls[0]) then [ls[0]] else []) + rest
  }

  /** The string elements of a list payload, in order; other values are dropped. */
  function StringItems(items: seq<PayloadItem>): (r: seq<string>)
    ensures |r| <= |items|
    ensures forall l :: l in r <==> Line(l) in items
  {
    if items == [] then []
    else
      var rest := StringItems(items[1..]);
      assert forall x :: x in items <==> x == items[0] || x in items[1..];
      (if items[0].Line? then [items[0].text] else []) + rest
  }

  /** The filter keeps order and duplicates: filtering a concatenation concatenates the kept lines. */
  lemma {:induction false} NonBlankLinesAppend(a: seq<string>, b: seq<string>)
    ensures NonBlankLines(a + b) == NonBlankLines(a) + NonBlankLines(b)
    decreases |a|
  {
    if a == [] {
      assert a + b == b;
    } else {
      var x, a' := a[0], a[1..];
      calc {
        NonBlankLines(a + b);
        { assert a + b == [x] + (a' + b); }
        NonBlankLines([x] + (a' + b));
        { NonBlankLinesCons(x, a' + b); }
        NonBlankLines([x]) + NonBlankLines(a' + b);
        { NonBlankLinesAppend(a', b); }
        NonBlankLines([x]) + (NonBlankLines(a') + NonBlankLines(b));
        (NonBlankLines([x]) + NonBlankLines(a')) + NonBlankLines(b);
        { NonBlankLinesCons(x, a'); assert a == [x] + a'; }
        NonBlankLines(a) + NonBlankLines(b);
      }
    }
  }

  lemma NonBlankLinesCons(x: string, rest: seq<string>)
    ensures NonBlankLines([x] + rest) == NonBlankLines([x]) + NonBlankLines(rest)
  {
    assert ([x] + rest)[0] == x && ([x] + rest)[1..] == rest;
    assert [x][1..] == [];
  }

  /** One line is kept exactly when it is not whitespace-only. */
  lemma NonBlankLinesOne(l: string)
    ensures NonBlankLines([l]) == if AllSpace(l) then [] else [l]
  {
    assert [l][1..] == [];
  }

  /** Lines that are all non-blank are kept as they are, duplicates included. */
  lemma {:induction false} NonBlankLinesKeepsAll(ls: seq<string>)
    requires forall i :: 0 <= i < |ls| ==> !AllSpace(ls[i])
    ensures NonBlankLines(ls) == ls
  {
    if ls != [] {
      NonBlankLinesKeepsAll(ls[1..]);
      assert ls == [ls[0]] + ls[1..];
    }
  }

  /** The string elements keep their order and duplicates across a concatenation. */
  lemma {:induction false} StringItemsAppend(a: seq<PayloadItem>, b: seq<PayloadItem>)
    ensures StringItems(a + b) == StringItems(a) + StringItems(b)
    decreases |a|
  {
    if a == [] {
      assert a + b == b;
    } else {
      var x, a' := a[0], a[1..];
      calc {
        StringItems(a + b);
        { assert a + b == [x] + (a' + b); }
        StringItems([x] + (a' + b));
        { StringItemsCons(x, a' + b); }
        StringItems([x]) + StringItems(a' + b);
        { StringItemsAppend(a', b); }
        StringItems([x]) + (StringItems(a') + StringItems(b));
        (StringItems([x]) + StringItems(a')) + StringItems(b);
        { StringItemsCons(x, a'); assert a == [x] + a'; }
        StringItems(a) + StringItems(b);
      }
    }
  }

  lemma StringItemsCons(x: PayloadItem, rest: seq<PayloadItem>)
    ensures StringItems([x] + rest) == StringItems([x]) + StringItems(rest)
  {
    assert ([x] + rest)[0] == x && ([x] + rest)[1..] == rest;
    assert [x][1..] == [];
  }

  /** One element contributes its text when it is a string, and nothing otherwise. */
  lemma StringItemsOne(x: PayloadItem)
    ensures StringItems([x]) == if x.Line? then [x.text] else []
  {
    assert [x][1..] == [];
  }

  /** The list payload holding the strings `ls`. */
  function LineItems(ls: seq<string>): (xs: seq<PayloadItem>)
    ensures |xs| == |ls|
    ensures forall i :: 0 <= i < |ls| ==> xs[i] == Line(ls[i])
  {
    seq(|ls|, i requires 0 <= i < |ls| => Line(ls[i]))
  }

  /** A list made only of strings gives exactly those strings, in order. */
  lemma {:induction false} StringItemsOfLines(ls: seq<string>)
    ensures StringItems(LineItems(ls)) == ls
  {
    if ls != [] {
      StringItemsOfLines(ls[1..]);
      assert LineItems(ls)[1..] == LineItems(ls[1..]);
      assert ls == [ls[0]] + ls[1..];
    }
  }

  /**
   * The lines the route receives: for a string, its `splitlines()`; for a list, its
   * strings; in both cases only the lines that are not whitespace-only.
   */
  function ReceivedLines(p: Payload): (lines: seq<string>)
    ensures p.Text? ==> lines == NonBlankLines(SplitLines(p.text))
    ensures p.Items? ==> lines == NonBlankLines(StringItems(p.items))
    ensures forall l :: l in lines ==> !AllSpace(l)
    ensures p.Text? ==> forall l :: l in lines <==> l in SplitLines(p.text) && !AllSpace(l)
    ensures p.Text? ==> forall l :: l in lines ==> HasNoBreak(l)
    ensures p.Items? ==> forall l :: l in lines <==> Line(l) in p.items && !AllSpace(l)
  {
    match p
    case Text(t) =>
      var ls := SplitLines(t);
      assert forall l :: l in ls ==> HasNoBreak(l);
      NonBlankLines(ls)
    case Items(xs) => NonBlankLines(StringItems(xs))
  }

  /**
   * A text of non-blank, break-free lines, each ended by the same terminator
   * (`\n`, `\r\n` or another break) and the last with or without one, is received
   * as exactly those lines: `received_lines` is their number, duplicates included.
   */
  lemma ReceivedLinesOfText(ls: seq<string>, brk: string, last: string)
    requires forall i :: 0 <= i < |ls| ==> HasNoBreak(ls[i]) && !AllSpace(ls[i])
    requires HasNoBreak(last) && (last == [] || !AllSpace(last)) && IsTerminator(brk)
    ensures ReceivedLines(Text(JoinLines(ls, brk) + last)) == ls + (if last == [] then [] else [last])
    ensures |ReceivedLines(Text(JoinLines(ls, brk) + last))| == |ls| + (if last == [] then 0 else 1)
  {
    var all := ls + (if last == [] then [] else [last]);
    SplitLinesJoin(ls, brk, last);
    assert forall i :: 0 <= i < |all| ==> !AllSpace(all[i]) by {
      forall i | 0 <= i < |all|
        ensures !AllSpace(all[i])
      {
        if i < |ls| { assert all[i] == ls[i]; }
      }
    }
    NonBlankLinesKeepsAll(all);
  }

  /** A list of non-blank strings is received as exactly those strings. */
  lemma ReceivedLinesOfItems(ls: seq<string>)
    requires forall i :: 0 <= i < |ls| ==> !AllSpace(ls[i])
    ensures ReceivedLines(Items(LineItems(ls))) == ls
  {
    StringItemsOfLines(ls);
    NonBlankLinesKeepsAll(ls);
  }

  /** The `distancias_uwb` row for a parsed line; this route sets no spans. */
  function RowOf(rd: Reading): RawRow {
    RawRow(rd.tag, rd.distances, None, None)
  }

  /** The outcome of a line parser on each received line, in order. */
  function Outcomes(lines: seq<string>, parse: string -> Option<Reading>): (outs: seq<Option<Reading>>)
    ensures |outs| == |lines|
    ensures forall i :: 0 <= i < |lines| ==> outs[i] == parse(lines[i])
  {
    seq(|lines|, i requires 0 <= i < |lines| => parse(lines[i]))
  }

  /** The rows of the lines that parsed, in line order. */
  function Rows(outs: seq<Option<Reading>>): seq<RawRow> {
    if outs == [] then []
    else
      Rows(outs[..|outs| - 1])
        + (match outs[|outs| - 1] case Some(rd) => [RowOf(rd)] case None => [])
  }

  /** The number of lines that did not parse. */
  function Failures(outs: seq<Option<Reading>>): nat {
    if outs == [] then 0
    else Failures(outs[..|outs| - 1]) + (if outs[|outs| - 1].None? then 1 else 0)
  }

  /** Every line is either saved as a row or skipped, never both. */
  lemma {:induction false} SavedPlusSkipped(outs: seq<Option<Reading>>)
    ensures |Rows(outs)| + Failures(outs) == |outs|
  {
    if outs != [] {
      SavedPlusSkipped(outs[..|outs| - 1]);
    }
  }

  /** Counting one more line adds its row or one skip. */
  lemma CountOneMore(outs: seq<Option<Reading>>, o: Option<Reading>)
    ensures Rows(outs + [o]) == Rows(outs) + (if o.Some? then [RowOf(o.value)] else [])
    ensures Failures(outs + [o]) == Failures(outs) + (if o.None? then 1 else 0)
  {
    assert (outs + [o])[..|outs|] == outs;
  }

  /** Rows keep the order of their lines: the rows of a concatenation are concatenated. */
  lemma {:induction false} RowsAppend(a: seq<Option<Reading>>, b: seq<Option<Reading>>)
    ensures Rows(a + b) == Rows(a) + Rows(b)
    decreases |b|
  {
    if b != [] {
      var b' := b[..|b| - 1];
      RowsAppend(a, b');
      assert (a + b)[..|a + b| - 1] == a + b';
      assert (a + b)[|a + b| - 1] == b[|b| - 1];
    } else {
      assert a + b == a;
    }
  }

  /** Only the readings that parsed become rows, each with its own tag and slots. */
  lemma {:induction false} RowsAreReadings(outs: seq<Option<Reading>>)
    ensures forall r :: r in Rows(outs) ==> exists i :: 0 <= i < |outs| && outs[i] == Some(Reading(r.tag, r.da))
    ensures forall r :: r in Rows(outs) ==> r.kx.None? && r.ky.None?
  {
    if outs != [] {
      var init := outs[..|outs| - 1];
      RowsAreReadings(init);
      forall r | r in Rows(outs)
        ensures exists i :: 0 <= i < |outs| && outs[i] == Some(Reading(r.tag, r.da))
      {
        if r in Rows(init) {
          var i :| 0 <= i < |init| && init[i] == Some(Reading(r.tag, r.da));
          assert outs[i] == init[i];
        } else {
          assert outs[|outs| - 1] == Some(Reading(r.tag, r.da));
        }
      }
    }
  }

  /** Rows built from eight-slot readings have eight slots. */
  lemma RowsKeepSlots(outs: seq<Option<Reading>>)
    requires forall k :: 0 <= k < |outs| && outs[k].Some? ==> |outs[k].value.distances| == Slots
    ensures forall r :: r in Rows(outs) ==> |r.da| == Slots && r.kx.None? && r.ky.None?
  {
    RowsAreReadings(outs);
    forall r | r in Rows(outs)
      ensures |r.da| == Slots
    {
      var i :| 0 <= i < |outs| && outs[i] == Some(Reading(r.tag, r.da));
      assert |outs[i].value.distances| == Slots;
    }
  }

  /** Every row the route stores has exactly eight distance slots and no spans. */
  lemma RowsHaveEightSlots(lines: seq<string>)
    ensures forall r :: r in Rows(Outcomes(lines, ParseLine)) ==> |r.da| == Slots && r.kx.None? && r.ky.None?
  {
    var outs := Outcomes(lines, ParseLine);
    forall k | 0 <= k < |outs| && outs[k].Some?
      ensures |outs[k].value.distances| == Slots
    {
      assert outs[k] == ParseLine(lines[k]);
    }
    RowsKeepSlots(outs);
  }

  /**
   * The loop of `ingest_dados_crus`: parse each line in turn, keep the row of every
   * line that parses and count the others.
   */
  method ParseEach(lines: seq<string>, parse: string -> Option<Reading>)
    returns (rows: seq<RawRow>, skipped: nat)
    ensures rows == Rows(Outcomes(lines, parse))
    ensures skipped == Failures(Outcomes(lines, parse))
    ensures |rows| + skipped == |lines|
  {
    rows, skipped := [], 0;
    for i := 0 to |lines|
      invariant rows == Rows(Outcomes(lines, parse)[..i])
      invariant skipped == Failures(Outcomes(lines, parse)[..i])
    {
      var parsed := parse(lines[i]);
      PrefixSnoc(Outcomes(lines, parse), i);
      CountOneMore(Outcomes(lines, parse)[..i], parsed);
      match parsed
      case None => skipped := skipped + 1;
      case Some(rd) => rows := rows + [RowOf(rd)];
    }
    assert Outcomes(lines, parse)[..|lines|] == Outcomes(lines, parse);
    SavedPlusSkipped(Outcomes(lines, parse));
  }

  /**
   * `ingest_dados_crus`: take the received lines, parse them with `parse_line`, and
   * hand the rows of the lines that parse to storage in one batch (nothing is
   * stored when none do).
   */
  method IngestRaw(payload: Payload) returns (summary: IngestSummary, stored: seq<RawRow>)
    ensures summary.receivedLines == |ReceivedLines(payload)|
    ensures stored == Rows(Outcomes(ReceivedLines(payload), ParseLine))
    ensures summary.saved == |stored|
    ensures summary.skipped == Failures(Outcomes(ReceivedLines(payload), ParseLine))
    ensures summary.saved + summary.skipped == summary.receivedLines
  {
    var lines := ReceivedLines(payload);
    var rows, skipped := ParseEach(lines, ParseLine);
    var saved := 0;
    stored := [];
    if |rows| > 0 {
      stored := rows;
      saved := |rows|;
    }
    summary := IngestSummary(saved, skipped, |lines|);
  }
}

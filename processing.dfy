/**
 * The route `POST /processamento-crus/ingest` (`processar_dados`): validate the
 * body, pick the entries that carry a tag, three distances and two positive
 * spans, locate each such tag, and answer with the located tags in input order.
 * The database is abstracted to the sequence of rows the route commits.
 */
module Processing {
  import opened Wrappers
  import opened JsonValue
  import opened Trilateration

  const MissingDados: string := "Campo 'dados' ausente no payload"
  const InvalidDados: string := "Lista 'dados' vazia ou inválida"

  /** One processed tag: `{"tag": tag, "x": x, "y": y}`, also the stored row. */
  datatype Located = Located(tag: Json, x: real, y: real)

  /** What the loop body does with one entry. */
  datatype Verdict =
    | Skip              // `continue`
    | Crash             // an exception inside the `try`: the route answers 500
    | Keep(row: Located)

  /** The route's answer. */
  datatype Response =
    | BadRequest(detail: string)
    | ServerError
    | Ok(processed: nat, result: seq<Located>)

  function StatusCode(r: Response): nat {
    match r
    case BadRequest(_) => 400
    case ServerError => 500
    case Ok(_, _) => 200
  }

  /**
   * The loop body on one entry. `entrada.get` raises on anything but an object;
   * with a truthy tag, `len(da)` raises on `null`, numbers and booleans, and
   * `da[:3]` raises on an object; a string `da` unpacks into one-character
   * strings, which are not numbers.
   */
  function Classify(entry: Json): (v: Verdict) {
    if !entry.JObj? then Crash
    else
      var fields := entry.fields;
      var tag := Get(fields, "tag_number", JNull);
      var da := Get(fields, "da", JArr([]));
      var kx := Get(fields, "kx", JNull);
      var ky := Get(fields, "ky", JNull);
      if !Truthy(tag) then Skip
      else if Len(da).None? then Crash
      else if Len(da).value < 3 then Skip
      else if da.JObj? then Crash
      else if da.JStr? then Skip
      else
        var r0, r1, r2 := da.items[0], da.items[1], da.items[2];
        if !(PositiveNumber(r0) && PositiveNumber(r1) && PositiveNumber(r2)
             && PositiveNumber(kx) && PositiveNumber(ky))
        then Skip
        else
          var pos := Locate(NumberValue(r0), NumberValue(r1), NumberValue(r2),
                            NumberValue(kx), NumberValue(ky));
          Keep(Located(tag, pos.x, pos.y))
  }

  /** What the loop body does with each entry, in order. */
  function Verdicts(entries: seq<Json>): (vs: seq<Verdict>)
    ensures |vs| == |entries|
    ensures forall k :: 0 <= k < |entries| ==> vs[k] == Classify(entries[k])
  {
    seq(|entries|, k requires 0 <= k < |entries| => Classify(entries[k]))
  }

  /** The row a verdict contributes to the result: one when kept, none otherwise. */
  function RowsOf(v: Verdict): seq<Located> {
    if v.Keep? then [v.row] else []
  }

  /** The located tags of the kept entries, in input order. */
  function Kept(vs: seq<Verdict>): seq<Located> {
    if vs == [] then [] else Kept(vs[..|vs| - 1]) + RowsOf(vs[|vs| - 1])
  }

  /** Some entry makes the loop raise. */
  predicate AnyCrash(vs: seq<Verdict>) {
    exists k :: 0 <= k < |vs| && vs[k].Crash?
  }

  /** The route's answer to a body, as a function of the body alone. */
  function Handle(body: map<string, Json>): Response {
    if "dados" !in body then BadRequest(MissingDados)
    else if !body["dados"].JArr? || body["dados"].items == [] then BadRequest(InvalidDados)
    else if AnyCrash(Verdicts(body["dados"].items)) then ServerError
    else Ok(|Kept(Verdicts(body["dados"].items))|, Kept(Verdicts(body["dados"].items)))
  }

  /**
   * An entry the route locates, stated on the decoded object: a truthy tag, a `da`
   * list of at least three values whose first three are positive numbers, and
   * positive numbers `kx` and `ky`.
   */
  predicate Eligible(entry: Json) {
    && entry.JObj?
    && Truthy(Get(entry.fields, "tag_number", JNull))
    && "da" in entry.fields && entry.fields["da"].JArr?
    && |entry.fields["da"].items| >= 3
    && (forall k :: 0 <= k < 3 ==> PositiveNumber(entry.fields["da"].items[k]))
    && "kx" in entry.fields && PositiveNumber(entry.fields["kx"])
    && "ky" in entry.fields && PositiveNumber(entry.fields["ky"])
  }

  /**
   * An entry on which the loop body raises: it is not an object, or its tag is
   * truthy and its `da` has no length or is an object of three or more keys.
   */
  predicate Raises(entry: Json) {
    || !entry.JObj?
    || (&& Truthy(Get(entry.fields, "tag_number", JNull))
        && "da" in entry.fields
        && (|| entry.fields["da"].JNull? || entry.fields["da"].JNum? || entry.fields["da"].JBool?
            || (entry.fields["da"].JObj? && |entry.fields["da"].fields| >= 3)))
  }

  /** The loop keeps exactly the eligible entries. */
  lemma ClassifyKeepIff(entry: Json)
    ensures Classify(entry).Keep? <==> Eligible(entry)
  {
    if Eligible(entry) {
      var ds := entry.fields["da"].items;
      assert PositiveNumber(ds[0]) && PositiveNumber(ds[1]) && PositiveNumber(ds[2]);
    }
  }

  /** The loop raises on exactly the entries `Raises` describes. */
  lemma ClassifyCrashIff(entry: Json)
    ensures Classify(entry).Crash? <==> Raises(entry)
  {
  }

  /** A falsy tag skips the entry before anything else about it is looked at. */
  lemma FalsyTagSkips(fields: map<string, Json>)
    requires !Truthy(Get(fields, "tag_number", JNull))
    ensures Classify(JObj(fields)) == Skip
  {
  }

  /** With a truthy tag, a `da` shorter than three skips the entry. */
  lemma ShortDaSkips(fields: map<string, Json>)
    requires Truthy(Get(fields, "tag_number", JNull))
    requires Len(Get(fields, "da", JArr([]))).Some? && Len(Get(fields, "da", JArr([]))).value < 3
    ensures Classify(JObj(fields)) == Skip
  {
  }

  /** Distance `k` of an eligible entry, as a number. */
  function Distance(entry: Json, k: nat): real
    requires Eligible(entry) && k < 3
  {
    NumberValue(entry.fields["da"].items[k])
  }

  /** The spans `kx` and `ky` of an eligible entry, as numbers. */
  function SpanX(entry: Json): real
    requires Eligible(entry)
  {
    NumberValue(entry.fields["kx"])
  }

  function SpanY(entry: Json): real
    requires Eligible(entry)
  {
    NumberValue(entry.fields["ky"])
  }

  /** An eligible entry is kept, under its own tag, at the position step's result. */
  lemma KeptRow(entry: Json)
    requires Eligible(entry)
    ensures Classify(entry)
         == Keep(Located(entry.fields["tag_number"],
                         Locate(Distance(entry, 0), Distance(entry, 1), Distance(entry, 2),
                                SpanX(entry), SpanY(entry)).x,
                         Locate(Distance(entry, 0), Distance(entry, 1), Distance(entry, 2),
                                SpanX(entry), SpanY(entry)).y))
  {
    var ds := entry.fields["da"].items;
    assert PositiveNumber(ds[0]) && PositiveNumber(ds[1]) && PositiveNumber(ds[2]);
  }

  /** Only the first three distances are read: extra ones change nothing. */
  lemma OnlyFirstThree(fields: map<string, Json>, ds: seq<Json>, more: seq<Json>)
    requires |ds| >= 3
    ensures Classify(JObj(fields["da" := JArr(ds + more)])) == Classify(JObj(fields["da" := JArr(ds)]))
  {
    var long := ds + more;
    var f1, f2 := fields["da" := JArr(long)], fields["da" := JArr(ds)];
    assert Get(f1, "tag_number", JNull) == Get(f2, "tag_number", JNull);
    assert Get(f1, "kx", JNull) == Get(f2, "kx", JNull);
    assert Get(f1, "ky", JNull) == Get(f2, "ky", JNull);
    assert Get(f1, "da", JArr([])) == JArr(long) && Get(f2, "da", JArr([])) == JArr(ds);
    assert long[..3] == ds[..3];
  }

  /** Handling one more entry appends its row, if any. */
  lemma KeptSnoc(vs: seq<Verdict>, v: Verdict)
    ensures Kept(vs + [v]) == Kept(vs) + RowsOf(v)
  {
    assert (vs + [v])[..|vs|] == vs;
  }

  /** Results keep the input order: the rows of a concatenation are concatenated. */
  lemma {:induction false} KeptAppend(a: seq<Verdict>, b: seq<Verdict>)
    ensures Kept(a + b) == Kept(a) + Kept(b)
    decreases |b|
  {
    if b == [] {
      assert a + b == a;
    } else {
      var b', v := b[..|b| - 1], b[|b| - 1];
      calc {
        Kept(a + b);
        { assert a + b == (a + b') + [v]; }
        Kept((a + b') + [v]);
        { KeptSnoc(a + b', v); }
        Kept(a + b') + RowsOf(v);
        { KeptAppend(a, b'); }
        (Kept(a) + Kept(b')) + RowsOf(v);
        Kept(a) + (Kept(b') + RowsOf(v));
        { KeptSnoc(b', v); assert b' + [v] == b; }
        Kept(a) + Kept(b);
      }
    }
  }

  /** The verdicts of a batch are the verdicts of its parts, in order. */
  lemma VerdictsAppend(a: seq<Json>, b: seq<Json>)
    ensures Verdicts(a + b) == Verdicts(a) + Verdicts(b)
  {
    var l, r := Verdicts(a + b), Verdicts(a) + Verdicts(b);
    forall k | 0 <= k < |l|
      ensures l[k] == r[k]
    {
      if k < |a| {
        assert (a + b)[k] == a[k];
      } else {
        assert (a + b)[k] == b[k - |a|];
      }
    }
  }

  /** The result of a batch is the result of its first part followed by that of the rest. */
  lemma ResultInInputOrder(a: seq<Json>, b: seq<Json>)
    ensures Kept(Verdicts(a + b)) == Kept(Verdicts(a)) + Kept(Verdicts(b))
  {
    VerdictsAppend(a, b);
    KeptAppend(Verdicts(a), Verdicts(b));
  }

  /** One more entry adds its verdict at the end. */
  lemma VerdictsSnoc(entries: seq<Json>, e: Json)
    ensures Verdicts(entries + [e]) == Verdicts(entries) + [Classify(e)]
  {
    var l, r := Verdicts(entries + [e]), Verdicts(entries) + [Classify(e)];
    forall k | 0 <= k < |l|
      ensures l[k] == r[k]
    {
      if k < |entries| {
        assert (entries + [e])[k] == entries[k];
      }
    }
  }

  /** The number of eligible entries. */
  function CountEligible(entries: seq<Json>): nat {
    if entries == [] then 0
    else CountEligible(entries[..|entries| - 1]) + (if Eligible(entries[|entries| - 1]) then 1 else 0)
  }

  /** One row per eligible entry: `processed` counts the eligible entries. */
  lemma {:induction false} KeptCount(entries: seq<Json>)
    ensures |Kept(Verdicts(entries))| == CountEligible(entries)
  {
    if entries != [] {
      var init, e := entries[..|entries| - 1], entries[|entries| - 1];
      calc {
        |Kept(Verdicts(entries))|;
        { assert entries == init + [e]; VerdictsSnoc(init, e); }
        |Kept(Verdicts(init) + [Classify(e)])|;
        { KeptSnoc(Verdicts(init), Classify(e)); }
        |Kept(Verdicts(init))| + |RowsOf(Classify(e))|;
        { KeptCount(init); ClassifyKeepIff(e); }
        CountEligible(init) + (if Eligible(e) then 1 else 0);
      }
    }
  }

  /**
   * The status codes: 400 exactly when `dados` is missing, not a list or empty;
   * otherwise 500 exactly when some entry raises; otherwise 200 with one result
   * per eligible entry.
   */
  lemma HandleStatus(body: map<string, Json>)
    ensures StatusCode(Handle(body)) == 400
        <==> "dados" !in body || !body["dados"].JArr? || body["dados"].items == []
    ensures StatusCode(Handle(body)) == 500
        <==> "dados" in body && body["dados"].JArr? && body["dados"].items != []
             && exists k :: 0 <= k < |body["dados"].items| && Raises(body["dados"].items[k])
    ensures Handle(body).Ok? ==>
        Handle(body).processed == |Handle(body).result| == CountEligible(body["dados"].items)
  {
    if "dados" in body && body["dados"].JArr? {
      var es := body["dados"].items;
      forall k | 0 <= k < |es|
        ensures Verdicts(es)[k].Crash? <==> Raises(es[k])
      {
        ClassifyCrashIff(es[k]);
      }
      KeptCount(es);
    }
  }

  /**
   * `processar_dados`: reject a body without a non-empty `dados` list, then handle
   * the entries in order, skipping ineligible ones and giving up at the first that
   * raises; commit and return the located tags.
   */
  method ProcessBatch(body: map<string, Json>) returns (response: Response, committed: seq<Located>)
    ensures response == Handle(body)
    ensures committed == if response.Ok? then response.result else []
  {
    if "dados" !in body {
      return BadRequest(MissingDados), [];
    }
    var entries := body["dados"];
    if !entries.JArr? || entries.items == [] {
      return BadRequest(InvalidDados), [];
    }
    var es := entries.items;
    var processed: seq<Located> := [];
    for k := 0 to |es|
      invariant processed == Kept(Verdicts(es)[..k])
      invariant !AnyCrash(Verdicts(es)[..k])
    {
      var verdict := Classify(es[k]);
      assert Verdicts(es)[k] == verdict;
      PrefixSnoc(Verdicts(es), k);
      KeptSnoc(Verdicts(es)[..k], verdict);
      match verdict
      case Skip =>
      case Crash =>
        return ServerError, [];
      case Keep(row) =>
        processed := processed + [row];
    }
    assert Verdicts(es)[..|es|] == Verdicts(es);
    committed := processed;
    response := Ok(|processed|, processed);
  }
}

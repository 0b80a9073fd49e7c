/**
 * The paged fetch loop shared by the sub-daily and the daily extractor.
 *
 * The remote measurement service is modelled as the sequence of answers it
 * gives for pages 1, 2, 3, ...: each answer is a page of raw records or a
 * failure (a request that raised, a non-success status, a body that is not
 * JSON). A page past the end of the sequence reads as an empty page.
 */
module Fetch {
  import opened Series
  import Units

  /** The `period.datetimeFrom.utc` field of a raw record. */
  datatype Stamp =
    | Missing          // absent, null or the empty string
    | Unparseable      // present but not an ISO-8601 instant: parsing it raises
    | Utc(seconds: int)

  /**
   * A raw record of a results page. `units` is `None` when the units field
   * cannot be read as text (a null `parameter` object or a null `units`), which
   * makes the record's processing raise; a record without a `units` key
   * carries `Some("unknown")`.
   */
  datatype Record = Record(stamp: Stamp, value: Option<real>, units: Option<string>)

  datatype PageResult = Page(records: seq<Record>) | Failure

  /** Which extractor runs the loop: the sub-daily one keys by instant, the daily one by date. */
  datatype Variant = Hourly | Daily

  /** What is fetched: the pollutant name, the wanted number of points and the extractor. */
  datatype Query = Query(parameter: string, target: nat, variant: Variant)

  const FirstPage: nat := 1
  /** Page-count ceiling of the loop. */
  const MaxPages: nat := 50

  function KeyOf(t: int, variant: Variant): int
  {
    match variant
    case Hourly => t
    case Daily => DayOf(t)
  }

  function Convert(value: real, unit: string, parameter: string, variant: Variant): real
  {
    match variant
    case Hourly => Units.ConvertHourly(value, unit, parameter)
    case Daily => Units.ConvertDaily(value, unit, parameter)
  }

  /**
   * The measurement a raw record contributes, if any. Records with no usable
   * timestamp, no value, or whose processing raises are skipped.
   */
  function Accept(rec: Record, q: Query): Option<Measurement>
  {
    match rec.stamp
    case Utc(t) =>
      if rec.value.Some? && rec.units.Some? then
        Some(Measurement(KeyOf(t, q.variant), Convert(rec.value.value, rec.units.value, q.parameter, q.variant)))
      else None
    case _ => None
  }

  /** The measurements one page appends, in record order. */
  function PageMeasurements(records: seq<Record>, q: Query): seq<Measurement>
  {
    if records == [] then []
    else
      var init := PageMeasurements(records[..|records| - 1], q);
      match Accept(records[|records| - 1], q)
      case Some(m) => init + [m]
      case None => init
  }

  function PageAt(pages: seq<PageResult>, page: nat): PageResult
  {
    if 1 <= page <= |pages| then pages[page - 1] else Page([])
  }

  function RecordsAt(pages: seq<PageResult>, page: nat): seq<Record>
  {
    match PageAt(pages, page)
    case Page(records) => records
    case Failure => []
  }

  /** Everything pages 1..k append, in order. */
  function Gathered(pages: seq<PageResult>, q: Query, k: nat): seq<Measurement>
  {
    if k == 0 then []
    else Gathered(pages, q, k - 1) + PageMeasurements(RecordsAt(pages, k), q)
  }

  /**
   * The loop ends after requesting `page`: the request failed, the page was
   * empty, the accumulation reached the target, or the page ceiling was hit.
   */
  predicate StopsAt(pages: seq<PageResult>, q: Query, page: nat)
  {
    || PageAt(pages, page).Failure?
    || RecordsAt(pages, page) == []
    || |Gathered(pages, q, page)| >= q.target
    || page >= MaxPages
  }

  /** The first page, from `page` on, at which the loop ends. */
  function FirstStop(pages: seq<PageResult>, q: Query, page: nat): nat
    requires FirstPage <= page <= MaxPages
    decreases MaxPages - page
  {
    if StopsAt(pages, q, page) then page else FirstStop(pages, q, page + 1)
  }

  /** Number of page requests the loop makes. */
  function Requests(pages: seq<PageResult>, q: Query): nat
  {
    if q.target == 0 then 0 else FirstStop(pages, q, FirstPage)
  }

  /**
   * The series the extractor returns: empty when a request failed, otherwise
   * the accumulation sorted by key and cut to its last `target` entries.
   */
  function Fetched(pages: seq<PageResult>, q: Query): seq<Measurement>
  {
    var k := Requests(pages, q);
    if k == 0 || PageAt(pages, k).Failure? then []
    else TailTrim(SortByKey(Gathered(pages, q, k)), q.target)
  }

  lemma {:induction false} FirstStopIsFirst(pages: seq<PageResult>, q: Query, page: nat)
    requires FirstPage <= page <= MaxPages
    ensures page <= FirstStop(pages, q, page) <= MaxPages
    ensures StopsAt(pages, q, FirstStop(pages, q, page))
    ensures forall j :: page <= j < FirstStop(pages, q, page) ==> !StopsAt(pages, q, j)
    decreases MaxPages - page
  {
    if !StopsAt(pages, q, page) {
      FirstStopIsFirst(pages, q, page + 1);
    }
  }

  lemma {:induction false} FirstStopUnique(pages: seq<PageResult>, q: Query, page: nat, k: nat)
    requires FirstPage <= page <= k <= MaxPages
    requires StopsAt(pages, q, k)
    requires forall j :: page <= j < k ==> !StopsAt(pages, q, j)
    ensures FirstStop(pages, q, page) == k
    decreases k - page
  {
    if page < k {
      assert !StopsAt(pages, q, page);
      FirstStopUnique(pages, q, page + 1, k);
    }
  }

  /**
   * Termination rule: with a positive target the loop makes between 1 and 50
   * requests; it goes on past a page only when that page was a non-empty
   * page, the accumulation was still short of the target and the ceiling was
   * not reached; and it ends on a failure, an empty page, the target or page 50.
   */
  lemma FetchStopRule(pages: seq<PageResult>, q: Query)
    requires q.target > 0
    ensures FirstPage <= Requests(pages, q) <= MaxPages
    ensures var k := Requests(pages, q);
      || PageAt(pages, k).Failure?
      || RecordsAt(pages, k) == []
      || |Gathered(pages, q, k)| >= q.target
      || k == MaxPages
    ensures forall j :: FirstPage <= j < Requests(pages, q) ==>
      && PageAt(pages, j).Page?
      && RecordsAt(pages, j) != []
      && |Gathered(pages, q, j)| < q.target
  {
    FirstStopIsFirst(pages, q, FirstPage);
    var k := Requests(pages, q);
    assert StopsAt(pages, q, k);
    forall j | FirstPage <= j < k
      ensures PageAt(pages, j).Page? && RecordsAt(pages, j) != [] && |Gathered(pages, q, j)| < q.target
    {
      assert !StopsAt(pages, q, j);
    }
  }

  /** A zero target makes no request and yields nothing. */
  lemma ZeroTargetFetchesNothing(pages: seq<PageResult>, q: Query)
    requires q.target == 0
    ensures Requests(pages, q) == 0 && Fetched(pages, q) == []
  {
  }

  /**
   * Shape of the result. A failed request discards every page accumulated
   * before it. Otherwise the result is sorted by key, holds
   * min(accumulated, target) entries, and is the trailing part of the sorted
   * accumulation.
   */
  lemma FetchedShape(pages: seq<PageResult>, q: Query)
    ensures SortedByKey(Fetched(pages, q))
    ensures |Fetched(pages, q)| <= q.target
    ensures var k := Requests(pages, q);
      k > 0 && PageAt(pages, k).Failure? ==> Fetched(pages, q) == []
    ensures var k := Requests(pages, q);
      k > 0 && PageAt(pages, k).Page? ==>
        var all := SortByKey(Gathered(pages, q, k));
        && |Fetched(pages, q)| == (if |all| < q.target then |all| else q.target)
        && Fetched(pages, q) == all[|all| - |Fetched(pages, q)|..]
        && multiset(Fetched(pages, q)) <= multiset(Gathered(pages, q, k))
  {
    var k := Requests(pages, q);
    if k > 0 && PageAt(pages, k).Page? {
      var all := SortByKey(Gathered(pages, q, k));
      TailTrimKeepsLatest(all, q.target);
      assert Fetched(pages, q) == TailTrim(all, q.target);
    }
  }

  /** Every appended measurement comes from an accepted record of the page. */
  lemma {:induction false} PageMeasurementsFrom(records: seq<Record>, q: Query, m: Measurement)
    requires m in PageMeasurements(records, q)
    ensures exists i :: 0 <= i < |records| && Accept(records[i], q) == Some(m)
  {
    var n := |records|;
    var init := records[..n - 1];
    if m in PageMeasurements(init, q) {
      PageMeasurementsFrom(init, q, m);
      var i :| 0 <= i < |init| && Accept(init[i], q) == Some(m);
      assert records[i] == init[i];
    } else {
      assert Accept(records[n - 1], q) == Some(m);
    }
  }

  /** Every accepted record of the page is appended. */
  lemma {:induction false} PageMeasurementsComplete(records: seq<Record>, q: Query, i: nat)
    requires i < |records| && Accept(records[i], q).Some?
    ensures Accept(records[i], q).value in PageMeasurements(records, q)
  {
    var n := |records|;
    if i < n - 1 {
      var init := records[..n - 1];
      assert init[i] == records[i];
      PageMeasurementsComplete(init, q, i);
    }
  }

  lemma {:induction false} GatheredFrom(pages: seq<PageResult>, q: Query, k: nat, m: Measurement)
    requires m in Gathered(pages, q, k)
    ensures exists j, i :: 1 <= j <= k && 0 <= i < |RecordsAt(pages, j)| && Accept(RecordsAt(pages, j)[i], q) == Some(m)
  {
    if m in Gathered(pages, q, k - 1) {
      GatheredFrom(pages, q, k - 1, m);
    } else {
      PageMeasurementsFrom(RecordsAt(pages, k), q, m);
    }
  }

  lemma {:induction false} GatheredComplete(pages: seq<PageResult>, q: Query, k: nat, j: nat, i: nat)
    requires 1 <= j <= k
    requires i < |RecordsAt(pages, j)| && Accept(RecordsAt(pages, j)[i], q).Some?
    ensures Accept(RecordsAt(pages, j)[i], q).value in Gathered(pages, q, k)
  {
    var v := Accept(RecordsAt(pages, j)[i], q).value;
    var before := Gathered(pages, q, k - 1);
    var page := PageMeasurements(RecordsAt(pages, k), q);
    assert Gathered(pages, q, k) == before + page;
    if j < k {
      assert v in before by {
        GatheredComplete(pages, q, k - 1, j, i);
      }
    } else {
      assert v in page by {
        PageMeasurementsComplete(RecordsAt(pages, j), q, i);
      }
    }
  }

  /**
   * Provenance: every measurement of the result is the conversion of an
   * accepted record on one of the requested pages.
   */
  lemma FetchedFromRecords(pages: seq<PageResult>, q: Query, m: Measurement)
    requires m in Fetched(pages, q)
    ensures exists j, i ::
      FirstPage <= j <= Requests(pages, q) && 0 <= i < |RecordsAt(pages, j)| && Accept(RecordsAt(pages, j)[i], q) == Some(m)
  {
    var k := Requests(pages, q);
    FetchedShape(pages, q);
    assert m in multiset(Fetched(pages, q));
    assert m in Gathered(pages, q, k);
    GatheredFrom(pages, q, k, m);
  }

  /**
   * When the loop was not cut by the target (it ended on an empty page or the
   * ceiling with fewer than `target` points), nothing is trimmed: every
   * accepted record of every requested page is in the result.
   */
  lemma FetchedKeepsAllBelowTarget(pages: seq<PageResult>, q: Query, j: nat, i: nat)
    requires Requests(pages, q) > 0 && PageAt(pages, Requests(pages, q)).Page?
    requires |Gathered(pages, q, Requests(pages, q))| <= q.target
    requires FirstPage <= j <= Requests(pages, q)
    requires i < |RecordsAt(pages, j)| && Accept(RecordsAt(pages, j)[i], q).Some?
    ensures Accept(RecordsAt(pages, j)[i], q).value in Fetched(pages, q)
  {
    var k := Requests(pages, q);
    var acc := Gathered(pages, q, k);
    GatheredComplete(pages, q, k, j, i);
    assert Fetched(pages, q) == SortByKey(acc);
    assert Accept(RecordsAt(pages, j)[i], q).value in multiset(SortByKey(acc));
  }

  /** The record filter: what is kept, and what it becomes. A recorded 0 is kept. */
  lemma AcceptRule(rec: Record, q: Query)
    ensures Accept(rec, q).Some? <==> rec.stamp.Utc? && rec.value.Some? && rec.units.Some?
    ensures Accept(rec, q).Some? ==>
      && Accept(rec, q).value.key == KeyOf(rec.stamp.seconds, q.variant)
      && Accept(rec, q).value.value == rec.value.value * (match q.variant
           case Hourly => Units.HourlyFactor(rec.units.value, q.parameter)
           case Daily => Units.DailyFactor(rec.units.value, q.parameter))
    ensures rec.stamp.Utc? && rec.value == Some(0.0) && rec.units.Some? ==>
      Accept(rec, q) == Some(Measurement(KeyOf(rec.stamp.seconds, q.variant), 0.0))
  {
    if rec.stamp.Utc? && rec.value.Some? && rec.units.Some? {
      Units.ConvertIsScaling(rec.value.value, rec.units.value, q.parameter);
    }
  }

  /** The inner loop over one page's records: appends every accepted record, in order. */
  method AppendPage(acc: seq<Measurement>, records: seq<Record>, q: Query) returns (acc': seq<Measurement>)
    ensures acc' == acc + PageMeasurements(records, q)
  {
    acc' := acc;
    var i := 0;
    while i < |records|
      invariant 0 <= i <= |records|
      invariant acc' == acc + PageMeasurements(records[..i], q)
    {
      var accepted := Accept(records[i], q);
      assert records[..i + 1][..i] == records[..i];
      if accepted.Some? {
        acc' := acc' + [accepted.value];
      }
      i := i + 1;
    }
    assert records[..|records|] == records;
  }

  /** The loop stops at `page`, the first stop: that page is the last request and fixes the result. */
  lemma StopEnds(pages: seq<PageResult>, q: Query, page: nat)
    requires FirstPage <= page <= MaxPages && q.target > 0
    requires forall j :: FirstPage <= j < page ==> !StopsAt(pages, q, j)
    requires StopsAt(pages, q, page)
    ensures Requests(pages, q) == page
    ensures PageAt(pages, page).Failure? ==> Fetched(pages, q) == []
    ensures PageAt(pages, page).Page? ==> Fetched(pages, q) == TailTrim(SortByKey(Gathered(pages, q, page)), q.target)
  {
    FirstStopUnique(pages, q, FirstPage, page);
  }

  /** Reading a page of `records` after pages 1..page-1 extends the accumulation by that page's measurements. */
  lemma PageStep(pages: seq<PageResult>, q: Query, page: nat, acc: seq<Measurement>, records: seq<Record>)
    requires page >= FirstPage && PageAt(pages, page) == Page(records)
    requires acc == Gathered(pages, q, page - 1)
    ensures RecordsAt(pages, page) == records
    ensures Gathered(pages, q, page) == acc + PageMeasurements(records, q)
    ensures records == [] ==> Gathered(pages, q, page) == acc
  {
    if records == [] {
      assert acc + [] == acc;
    }
  }

  /**
   * The paged loop. Requests pages 1, 2, ... while fewer than `target`
   * measurements are held, and returns the sorted, trimmed accumulation, or
   * nothing if a request failed.
   */
  method FetchMeasurements(pages: seq<PageResult>, q: Query) returns (series: seq<Measurement>, requests: nat)
    ensures series == Fetched(pages, q)
    ensures requests == Requests(pages, q) && requests <= MaxPages
    ensures |series| <= q.target
  {
    var acc: seq<Measurement> := [];
    var page: nat := FirstPage;
    requests := 0;
    while |acc| < q.target
      invariant FirstPage <= page <= MaxPages
      invariant requests == page - 1
      invariant acc == Gathered(pages, q, page - 1)
      invariant page > FirstPage ==> |acc| < q.target
      invariant forall j :: FirstPage <= j < page ==> !StopsAt(pages, q, j)
      decreases MaxPages - page
    {
      var result := PageAt(pages, page);
      requests := requests + 1;
      if result.Failure? {
        StopEnds(pages, q, page);
        return [], requests;
      }
      var records := result.records;
      PageStep(pages, q, page, acc, records);
      if records == [] {
        StopEnds(pages, q, page);
        series := SortAndTrim(acc, q.target);
        return;
      }
      acc := AppendPage(acc, records, q);
      if |acc| >= q.target || page == MaxPages {
        StopEnds(pages, q, page);
        series := SortAndTrim(acc, q.target);
        return;
      }
      assert !StopsAt(pages, q, page);
      page := page + 1;
    }
    assert q.target == 0;
    series := [];
  }

  /** The terminal normalisation: a non-empty accumulation is sorted, then cut to its last `target` entries. */
  method SortAndTrim(acc: seq<Measurement>, target: nat) returns (series: seq<Measurement>)
    ensures series == TailTrim(SortByKey(acc), target)
  {
    if |acc| > 0 {
      var sorted := SortByKey(acc);
      series := sorted;
      if |series| > target {
        series := series[|series| - target..];
      }
      assert series == TailTrim(sorted, target);
    } else {
      assert SortByKey(acc) == [];
      series := [];
    }
  }
}

/**
 * The sub-daily extractor: fetches the NO2, O3 and HCHO series of one Los
 * Angeles station keyed by UTC instant, then aligns them on the union of their
 * instants and keeps the most recent rows. Column 0 of a row is NO2, column 1
 * O3 and column 2 HCHO, all in µg/m³.
 */
module Points {
  import opened Series
  import opened Fetch
  import opened Align

  /** Rows the combined sub-daily table keeps. */
  const RowLimit: nat := 10000
  const No2Target: nat := 10000
  const O3Target: nat := 10000
  const HchoTarget: nat := 1000

  /**
   * Fetches one sensor's series, keyed by the instant of each reading: an
   * ascending series of at most `target` readings, each the conversion of an
   * accepted record of a requested page.
   */
  method ExtractMeasurementsFromSensor(pages: seq<PageResult>, parameter: string, target: nat)
    returns (series: seq<Measurement>)
    ensures series == Fetched(pages, Query(parameter, target, Hourly))
    ensures SortedByKey(series) && |series| <= target
    ensures forall m :: m in series ==> ReadAt(pages, Query(parameter, target, Hourly), m)
  {
    var q := Query(parameter, target, Hourly);
    var requests;
    series, requests := FetchMeasurements(pages, q);
    FetchedShape(pages, q);
    forall m | m in series
      ensures ReadAt(pages, q, m)
    {
      FetchedReadAt(pages, q, m);
    }
  }

  /** Some accepted record of a requested page was taken at instant `m.key` and converts to `m`. */
  predicate ReadAt(pages: seq<PageResult>, q: Query, m: Measurement)
  {
    exists j, i :: FirstPage <= j <= MaxPages && 0 <= i < |RecordsAt(pages, j)| &&
      RecordsAt(pages, j)[i].stamp == Utc(m.key) && Accept(RecordsAt(pages, j)[i], q) == Some(m)
  }

  /** Every reading of a sub-daily series is keyed by the very instant of its record. */
  lemma FetchedReadAt(pages: seq<PageResult>, q: Query, m: Measurement)
    requires q.variant == Hourly && m in Fetched(pages, q)
    ensures ReadAt(pages, q, m)
  {
    FetchedFromRecords(pages, q, m);
    var j, i :| FirstPage <= j <= Requests(pages, q) && 0 <= i < |RecordsAt(pages, j)| && Accept(RecordsAt(pages, j)[i], q) == Some(m);
    AcceptRule(RecordsAt(pages, j)[i], q);
    FetchStopBound(pages, q);
  }

  lemma FetchStopBound(pages: seq<PageResult>, q: Query)
    ensures Requests(pages, q) <= MaxPages
  {
    if q.target > 0 {
      FetchStopRule(pages, q);
    }
  }

  /**
   * The combine step: the union of all instants, sorted, as the key column;
   * each series left-merged in turn, or an all-absent column for an empty
   * one; then the last `RowLimit` rows.
   */
  method CombineHourly(no2: seq<Measurement>, o3: seq<Measurement>, hcho: seq<Measurement>)
    returns (table: seq<Row>)
    ensures table == TailTrim(AlignTable([no2, o3, hcho]), RowLimit)
    ensures |table| <= RowLimit
  {
    var keys: set<int> := {};
    keys := AddKeys(keys, no2);
    keys := AddKeys(keys, o3);
    keys := AddKeys(keys, hcho);
    CombineKeys(no2, o3, hcho);
    var base := BaseTable(SortedKeys(keys));
    table := MergeColumn(base, no2);
    table := MergeColumn(table, o3);
    table := MergeColumn(table, hcho);
    CombineMerges(base, no2, o3, hcho);
    table := TrimRows(table, RowLimit);
  }

  lemma CombineKeys(a: seq<Measurement>, b: seq<Measurement>, c: seq<Measurement>)
    ensures UnionKeys([a, b, c]) == KeySet(a) + KeySet(b) + KeySet(c)
  {
    UnionKeysSnoc([], a);
    UnionKeysSnoc([a], b);
    UnionKeysSnoc([a, b], c);
    assert [] + [a] == [a] && [a] + [b] == [a, b] && [a, b] + [c] == [a, b, c];
  }

  lemma CombineMerges(t: seq<Row>, a: seq<Measurement>, b: seq<Measurement>, c: seq<Measurement>)
    ensures MergeAll(t, [a, b, c]) == MergeOrAbsent(MergeOrAbsent(MergeOrAbsent(t, a), b), c)
  {
    MergeAllSnoc(t, [], a);
    MergeAllSnoc(t, [a], b);
    MergeAllSnoc(t, [a, b], c);
    assert [] + [a] == [a] && [a] + [b] == [a, b] && [a, b] + [c] == [a, b, c];
  }

  /**
   * What the combined table holds: ascending keys; three cells per row, each
   * absent exactly when its series lacks the row's instant and otherwise one
   * of that series' readings at the instant; only rows no later than every
   * kept row are dropped; and, when nothing is dropped, every instant of every
   * series is a key.
   */
  lemma CombineHourlySound(no2: seq<Measurement>, o3: seq<Measurement>, hcho: seq<Measurement>)
    ensures var table := TailTrim(AlignTable([no2, o3, hcho]), RowLimit);
      && RowsSorted(table)
      && CellsSound(table, [no2, o3, hcho])
      && (|AlignTable([no2, o3, hcho])| <= RowLimit ==> RowKeys(table) == KeySet(no2) + KeySet(o3) + KeySet(hcho))
  {
    var ss := [no2, o3, hcho];
    AlignTableSound(ss);
    TrimTable(AlignTable(ss), RowLimit, ss);
    CombineKeys(no2, o3, hcho);
  }

  /**
   * When no series repeats an instant, the table's key column is the last
   * `RowLimit` instants of the union, strictly ascending, and column j holds
   * series j's reading at the instant, or is absent.
   */
  lemma CombineHourlyDistinct(no2: seq<Measurement>, o3: seq<Measurement>, hcho: seq<Measurement>)
    requires DistinctKeys(no2) && DistinctKeys(o3) && DistinctKeys(hcho)
    ensures var table := TailTrim(AlignTable([no2, o3, hcho]), RowLimit);
      && KeysOf(table) == TailTrim(SortedKeys(KeySet(no2) + KeySet(o3) + KeySet(hcho)), RowLimit)
      && forall i :: 0 <= i < |table| ==> table[i].cells == [Lookup(no2, table[i].key), Lookup(o3, table[i].key), Lookup(hcho, table[i].key)]
  {
    var ss := [no2, o3, hcho];
    assert forall j :: 0 <= j < |ss| ==> DistinctKeys(ss[j]) by {
      assert ss[0] == no2 && ss[1] == o3 && ss[2] == hcho;
    }
    TrimDistinct(ss, RowLimit);
    CombineKeys(no2, o3, hcho);
    var table := TailTrim(AlignTable(ss), RowLimit);
    forall i | 0 <= i < |table|
      ensures table[i].cells == [Lookup(no2, table[i].key), Lookup(o3, table[i].key), Lookup(hcho, table[i].key)]
    {
      LookupAllTriple(no2, o3, hcho, table[i].key);
    }
  }

  lemma LookupAllTriple(a: seq<Measurement>, b: seq<Measurement>, c: seq<Measurement>, k: int)
    ensures LookupAll([a, b, c], k) == [Lookup(a, k), Lookup(b, k), Lookup(c, k)]
  {
  }

  /** The HCHO series: fetched when the station has an HCHO sensor, empty otherwise. */
  function HchoSeries(hchoPages: Option<seq<PageResult>>): seq<Measurement>
  {
    match hchoPages
    case Some(pages) => Fetched(pages, Query("hcho", HchoTarget, Hourly))
    case None => []
  }

  /**
   * The whole extractor on the three sensors' page sequences; `hchoPages` is
   * `None` when the station has no HCHO sensor, which gives an all-absent
   * HCHO column.
   */
  method ExtractPointsLosAngeles(no2Pages: seq<PageResult>, o3Pages: seq<PageResult>, hchoPages: Option<seq<PageResult>>)
    returns (table: seq<Row>)
    ensures table == TailTrim(AlignTable([
      Fetched(no2Pages, Query("no2", No2Target, Hourly)),
      Fetched(o3Pages, Query("o3", O3Target, Hourly)),
      HchoSeries(hchoPages)]), RowLimit)
    ensures |table| <= RowLimit
    ensures forall r :: r in table ==> |r.cells| == 3
    ensures hchoPages == None ==> forall r :: r in table ==> r.cells[2] == None
  {
    var no2 := ExtractMeasurementsFromSensor(no2Pages, "no2", No2Target);
    var o3 := ExtractMeasurementsFromSensor(o3Pages, "o3", O3Target);
    var hcho: seq<Measurement>;
    if hchoPages.Some? {
      hcho := ExtractMeasurementsFromSensor(hchoPages.value, "hcho", HchoTarget);
    } else {
      hcho := [];
    }
    table := CombineHourly(no2, o3, hcho);
    CombineHourlySound(no2, o3, hcho);
    HchoAbsent(table, no2, o3, hcho);
  }

  lemma HchoAbsent(table: seq<Row>, no2: seq<Measurement>, o3: seq<Measurement>, hcho: seq<Measurement>)
    requires CellsSound(table, [no2, o3, hcho])
    ensures forall r :: r in table ==> |r.cells| == 3
    ensures hcho == [] ==> forall r :: r in table ==> r.cells[2] == None
  {
    forall r | r in table
      ensures |r.cells| == 3 && (hcho == [] ==> r.cells[2] == None)
    {
      assert RowSound(r, [no2, o3, hcho]);
      assert CellFor([no2, o3, hcho][2], r.key, r.cells[2]);
    }
  }
}

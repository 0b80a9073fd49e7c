/**
 * The daily extractor: fetches the NO2 and O3 daily series of one Los Angeles
 * station keyed by UTC calendar date, then aligns them on the union of their
 * dates and keeps the most recent rows. Column 0 of a row is NO2 and column 1
 * O3, in µg/m³.
 */
module DailyPoints {
  import opened Series
  import opened Fetch
  import opened Align

  /** Rows the combined daily table keeps. */
  const RowLimit: nat := 1000
  const DailyTarget: nat := 1000

  /**
   * Fetches one sensor's daily series: an ascending series of at most
   * `target` readings, each keyed by the calendar date of its record's instant.
   */
  method ExtractDailyMeasurementsFromSensor(pages: seq<PageResult>, parameter: string, target: nat)
    returns (series: seq<Measurement>)
    ensures series == Fetched(pages, Query(parameter, target, Daily))
    ensures SortedByKey(series) && |series| <= target
    ensures forall m :: m in series ==> DatedAt(pages, Query(parameter, target, Daily), m)
  {
    var q := Query(parameter, target, Daily);
    var requests;
    series, requests := FetchMeasurements(pages, q);
    FetchedShape(pages, q);
    forall m | m in series
      ensures DatedAt(pages, q, m)
    {
      FetchedDatedAt(pages, q, m);
    }
  }

  /** Some accepted record of a requested page was taken on date `m.key` and converts to `m`. */
  predicate DatedAt(pages: seq<PageResult>, q: Query, m: Measurement)
  {
    exists j, i :: FirstPage <= j <= MaxPages && 0 <= i < |RecordsAt(pages, j)| &&
      RecordsAt(pages, j)[i].stamp.Utc? && DayOf(RecordsAt(pages, j)[i].stamp.seconds) == m.key &&
      Accept(RecordsAt(pages, j)[i], q) == Some(m)
  }

  /** Every reading of a daily series is keyed by the date, not the instant, of its record. */
  lemma FetchedDatedAt(pages: seq<PageResult>, q: Query, m: Measurement)
    requires q.variant == Daily && m in Fetched(pages, q)
    ensures DatedAt(pages, q, m)
  {
    FetchedFromRecords(pages, q, m);
    var j, i :| FirstPage <= j <= Requests(pages, q) && 0 <= i < |RecordsAt(pages, j)| && Accept(RecordsAt(pages, j)[i], q) == Some(m);
    AcceptRule(RecordsAt(pages, j)[i], q);
    if q.target > 0 {
      FetchStopRule(pages, q);
    }
  }

  /** Two readings of one day, however far apart in the day, get the same key. */
  lemma SameDaySameKey(rec1: Record, rec2: Record, q: Query)
    requires q.variant == Daily
    requires rec1.stamp.Utc? && rec2.stamp.Utc?
    requires Accept(rec1, q).Some? && Accept(rec2, q).Some?
    requires DayOf(rec1.stamp.seconds) == DayOf(rec2.stamp.seconds)
    ensures Accept(rec1, q).value.key == Accept(rec2, q).value.key
  {
    AcceptRule(rec1, q);
    AcceptRule(rec2, q);
  }

  /**
   * The combine step: the union of all dates, sorted, as the key column; each
   * series left-merged in turn, or an all-absent column for an empty one;
   * then the last `RowLimit` rows.
   */
  method CombineDaily(no2: seq<Measurement>, o3: seq<Measurement>) returns (table: seq<Row>)
    ensures table == TailTrim(AlignTable([no2, o3]), RowLimit)
    ensures |table| <= RowLimit
  {
    var dates: set<int> := {};
    dates := AddKeys(dates, no2);
    dates := AddKeys(dates, o3);
    CombineDates(no2, o3);
    var base := BaseTable(SortedKeys(dates));
    table := MergeColumn(base, no2);
    table := MergeColumn(table, o3);
    CombineMerges(base, no2, o3);
    table := TrimRows(table, RowLimit);
  }

  lemma CombineDates(a: seq<Measurement>, b: seq<Measurement>)
    ensures UnionKeys([a, b]) == KeySet(a) + KeySet(b)
  {
    UnionKeysSnoc([], a);
    UnionKeysSnoc([a], b);
    assert [] + [a] == [a] && [a] + [b] == [a, b];
  }

  lemma CombineMerges(t: seq<Row>, a: seq<Measurement>, b: seq<Measurement>)
    ensures MergeAll(t, [a, b]) == MergeOrAbsent(MergeOrAbsent(t, a), b)
  {
    MergeAllSnoc(t, [], a);
    MergeAllSnoc(t, [a], b);
    assert [] + [a] == [a] && [a] + [b] == [a, b];
  }

  /**
   * What the combined daily table holds: ascending dates; two cells per row,
   * each absent exactly when its series lacks the date and otherwise one of
   * that series' readings on the date; and, when nothing is dropped, every
   * date of either series is a key.
   */
  lemma CombineDailySound(no2: seq<Measurement>, o3: seq<Measurement>)
    ensures var table := TailTrim(AlignTable([no2, o3]), RowLimit);
      && RowsSorted(table)
      && CellsSound(table, [no2, o3])
      && (|AlignTable([no2, o3])| <= RowLimit ==> RowKeys(table) == KeySet(no2) + KeySet(o3))
  {
    var ss := [no2, o3];
    AlignTableSound(ss);
    TrimTable(AlignTable(ss), RowLimit, ss);
    CombineDates(no2, o3);
  }

  /**
   * When neither series repeats a date, the table's key column is the last
   * `RowLimit` dates of the union, strictly ascending, and each row holds the
   * NO2 and O3 readings of its date, or absent.
   */
  lemma CombineDailyDistinct(no2: seq<Measurement>, o3: seq<Measurement>)
    requires DistinctKeys(no2) && DistinctKeys(o3)
    ensures var table := TailTrim(AlignTable([no2, o3]), RowLimit);
      && KeysOf(table) == TailTrim(SortedKeys(KeySet(no2) + KeySet(o3)), RowLimit)
      && forall i :: 0 <= i < |table| ==> table[i].cells == [Lookup(no2, table[i].key), Lookup(o3, table[i].key)]
  {
    var ss := [no2, o3];
    assert forall j :: 0 <= j < |ss| ==> DistinctKeys(ss[j]) by {
      assert ss[0] == no2 && ss[1] == o3;
    }
    TrimDistinct(ss, RowLimit);
    CombineDates(no2, o3);
    var table := TailTrim(AlignTable(ss), RowLimit);
    forall i | 0 <= i < |table|
      ensures table[i].cells == [Lookup(no2, table[i].key), Lookup(o3, table[i].key)]
    {
      LookupAllPair(no2, o3, table[i].key);
    }
  }

  /** The whole daily extractor on the two sensors' page sequences. */
  method ExtractDailyPointsLosAngeles(no2Pages: seq<PageResult>, o3Pages: seq<PageResult>)
    returns (table: seq<Row>)
    ensures table == TailTrim(AlignTable([
      Fetched(no2Pages, Query("no2", DailyTarget, Daily)),
      Fetched(o3Pages, Query("o3", DailyTarget, Daily))]), RowLimit)
    ensures |table| <= RowLimit
    ensures RowsSorted(table)
    ensures forall r :: r in table ==> |r.cells| == 2
  {
    var no2 := ExtractDailyMeasurementsFromSensor(no2Pages, "no2", DailyTarget);
    var o3 := ExtractDailyMeasurementsFromSensor(o3Pages, "o3", DailyTarget);
    table := CombineDaily(no2, o3);
    CombineDailySound(no2, o3);
    TwoCells(table, [no2, o3]);
  }

  lemma TwoCells(table: seq<Row>, ss: seq<seq<Measurement>>)
    requires CellsSound(table, ss) && |ss| == 2
    ensures forall r :: r in table ==> |r.cells| == 2
  {
    forall r | r in table
      ensures |r.cells| == 2
    {
      assert RowSound(r, ss);
    }
  }
}

/**
 * The hourly-to-daily NO2 aggregator: rows are grouped by the UTC calendar
 * date of their timestamp, each group's NO2 readings are averaged (absent
 * cells are skipped; a group with none stays absent), and each date is
 * emitted once, in ascending order, stamped at midnight.
 */
module DailyNo2 {
  import opened Series

  /** A row of the hourly table: an instant in seconds and its NO2 cell. */
  datatype HourlyRow = HourlyRow(timestamp: int, no2: Option<real>)

  /** A row of the daily table: midnight of the date and the date's mean NO2. */
  datatype DailyRow = DailyRow(timestamp: int, no2: Option<real>)

  /** The dates the input covers. */
  function DatesOf(rows: seq<HourlyRow>): set<int>
  {
    set r | r in rows :: DayOf(r.timestamp)
  }

  /** The NO2 readings taken on date `d`, in row order; absent cells are skipped. */
  function DayReadings(rows: seq<HourlyRow>, d: int): seq<real>
  {
    if rows == [] then []
    else
      var r := rows[|rows| - 1];
      DayReadings(rows[..|rows| - 1], d) + (if DayOf(r.timestamp) == d && r.no2.Some? then [r.no2.value] else [])
  }

  function Sum(xs: seq<real>): real
  {
    if xs == [] then 0.0 else Sum(xs[..|xs| - 1]) + xs[|xs| - 1]
  }

  /** The arithmetic mean, absent for no readings. */
  function Mean(xs: seq<real>): Option<real>
  {
    if xs == [] then None else Some(Sum(xs) / |xs| as real)
  }

  /** One output row per given date: midnight and the mean of that date's readings. */
  function DailyMeans(rows: seq<HourlyRow>, dates: seq<int>): seq<DailyRow>
  {
    seq(|dates|, i requires 0 <= i < |dates| => DailyRow(dates[i] * SecondsPerDay, Mean(DayReadings(rows, dates[i]))))
  }

  /** Group by date, mean per group, re-keyed to midnight, dates ascending. */
  function AggregateDaily(rows: seq<HourlyRow>): seq<DailyRow>
  {
    DailyMeans(rows, SortedKeys(DatesOf(rows)))
  }

  /** The aggregator on the input table; `None` is a missing input file, for which nothing is produced. */
  function CreateDailyNo2(input: Option<seq<HourlyRow>>): Option<seq<DailyRow>>
  {
    match input
    case None => None
    case Some(rows) => Some(AggregateDaily(rows))
  }

  // ------------------------------------------------------------------ readings

  /** A reading belongs to date `d` exactly when some row of that date carries it. */
  lemma {:induction false} DayReadingsSpec(rows: seq<HourlyRow>, d: int)
    ensures forall v :: v in DayReadings(rows, d) <==>
      exists i :: 0 <= i < |rows| && DayOf(rows[i].timestamp) == d && rows[i].no2 == Some(v)
    ensures |DayReadings(rows, d)| <= |rows|
  {
    if rows != [] {
      var init := rows[..|rows| - 1];
      DayReadingsSpec(init, d);
      forall v
        ensures v in DayReadings(rows, d) <==>
          exists i :: 0 <= i < |rows| && DayOf(rows[i].timestamp) == d && rows[i].no2 == Some(v)
      {
        if exists i :: 0 <= i < |rows| && DayOf(rows[i].timestamp) == d && rows[i].no2 == Some(v) {
          var i :| 0 <= i < |rows| && DayOf(rows[i].timestamp) == d && rows[i].no2 == Some(v);
          if i < |init| {
            assert init[i] == rows[i];
          }
        }
        if v in DayReadings(init, d) {
          var i :| 0 <= i < |init| && DayOf(init[i].timestamp) == d && init[i].no2 == Some(v);
          assert rows[i] == init[i];
        }
      }
    }
  }

  // ---------------------------------------------------------------------- mean

  lemma {:induction false} SumBounds(xs: seq<real>, lo: real, hi: real)
    requires forall k :: 0 <= k < |xs| ==> lo <= xs[k] <= hi
    ensures lo * |xs| as real <= Sum(xs) <= hi * |xs| as real
  {
    if xs != [] {
      SumBounds(xs[..|xs| - 1], lo, hi);
    }
  }

  /** The mean of a date lies between the smallest and the largest of its readings; times the count it is the sum. */
  lemma MeanBetween(xs: seq<real>, lo: real, hi: real)
    requires xs != []
    requires forall k :: 0 <= k < |xs| ==> lo <= xs[k] <= hi
    ensures Mean(xs).Some?
    ensures lo <= Mean(xs).value <= hi
    ensures Mean(xs).value * |xs| as real == Sum(xs)
  {
    SumBounds(xs, lo, hi);
    DivBetween(Sum(xs), |xs| as real, lo, hi);
  }

  lemma DivBetween(s: real, n: real, lo: real, hi: real)
    requires n > 0.0 && lo * n <= s <= hi * n
    ensures lo <= s / n <= hi
    ensures s / n * n == s
  {
    assert s / n - lo == (s - lo * n) / n;
    assert hi - s / n == (hi * n - s) / n;
  }

  /** A single reading is its own mean. */
  lemma MeanSingleton(v: real)
    ensures Mean([v]) == Some(v)
  {
    assert [v][..0] == [];
    assert Sum([v]) == v;
  }

  /** Readings that all agree average to that value. */
  lemma MeanConstant(xs: seq<real>, v: real)
    requires xs != [] && forall k :: 0 <= k < |xs| ==> xs[k] == v
    ensures Mean(xs) == Some(v)
  {
    MeanBetween(xs, v, v);
  }

  // --------------------------------------------------------------- the output

  /** Row i of the daily table is midnight of the i-th smallest date with that date's mean. */
  lemma AggregateRows(rows: seq<HourlyRow>)
    ensures var dates := SortedKeys(DatesOf(rows));
      && |AggregateDaily(rows)| == |dates| == |DatesOf(rows)|
      && forall i :: 0 <= i < |dates| ==>
           AggregateDaily(rows)[i] == DailyRow(dates[i] * SecondsPerDay, Mean(DayReadings(rows, dates[i])))
  {
  }

  /** The daily table has strictly ascending timestamps: one row per date, in date order. */
  lemma AggregateAscending(rows: seq<HourlyRow>)
    ensures forall i, j :: 0 <= i < j < |AggregateDaily(rows)| ==>
      AggregateDaily(rows)[i].timestamp < AggregateDaily(rows)[j].timestamp
  {
    AggregateRows(rows);
  }

  /** The date of row i is the (i+1)-th date of the input: exactly i covered dates precede it. */
  lemma AggregateRank(rows: seq<HourlyRow>, i: nat)
    requires i < |AggregateDaily(rows)|
    ensures |set d | d in DatesOf(rows) && d < DayOf(AggregateDaily(rows)[i].timestamp)| == i
  {
    var dates := SortedKeys(DatesOf(rows));
    AggregateRows(rows);
    DayOfMidnight(dates[i]);
    SortedKeysRank(DatesOf(rows), i);
  }

  /**
   * Every row is stamped at midnight of a date the input covers and holds the
   * mean of that date's readings, and every date the input covers has a row.
   */
  lemma AggregateMidnight(rows: seq<HourlyRow>)
    ensures forall i :: 0 <= i < |AggregateDaily(rows)| ==>
      var row := AggregateDaily(rows)[i];
      && row.timestamp % SecondsPerDay == 0
      && DayOf(row.timestamp) in DatesOf(rows)
      && row.no2 == Mean(DayReadings(rows, DayOf(row.timestamp)))
    ensures forall d :: d in DatesOf(rows) ==>
      exists i :: 0 <= i < |AggregateDaily(rows)| && AggregateDaily(rows)[i].timestamp == d * SecondsPerDay
  {
    var dates := SortedKeys(DatesOf(rows));
    var r := AggregateDaily(rows);
    AggregateRows(rows);
    forall i | 0 <= i < |r|
      ensures r[i].timestamp % SecondsPerDay == 0 && DayOf(r[i].timestamp) == dates[i]
    {
      DayOfMidnight(dates[i]);
    }
    forall d | d in DatesOf(rows)
      ensures exists i :: 0 <= i < |r| && r[i].timestamp == d * SecondsPerDay
    {
      var i :| 0 <= i < |dates| && dates[i] == d;
      assert r[i].timestamp == d * SecondsPerDay;
    }
  }

  /** A date's mean is absent exactly when no input row of that date has a reading. */
  lemma MeanAbsent(rows: seq<HourlyRow>, d: int)
    ensures Mean(DayReadings(rows, d)) == None <==>
      forall k :: 0 <= k < |rows| && DayOf(rows[k].timestamp) == d ==> rows[k].no2 == None
  {
    DayReadingsSpec(rows, d);
    var xs := DayReadings(rows, d);
    if xs != [] {
      assert xs[0] in xs;
    }
  }

  /** A row of the daily table has an absent mean exactly when no input row of its date has a reading. */
  lemma AggregateAbsent(rows: seq<HourlyRow>, i: nat)
    requires i < |AggregateDaily(rows)|
    ensures var row := AggregateDaily(rows)[i];
      row.no2 == None <==> forall k :: 0 <= k < |rows| && DayOf(rows[k].timestamp) == DayOf(row.timestamp) ==> rows[k].no2 == None
  {
    var dates := SortedKeys(DatesOf(rows));
    AggregateRows(rows);
    DayOfMidnight(dates[i]);
    MeanAbsent(rows, dates[i]);
  }

  /** An empty table aggregates to an empty table. */
  lemma AggregateEmpty()
    ensures AggregateDaily([]) == []
  {
    assert DatesOf([]) == {};
  }

  /** A missing input produces nothing; a present one produces its aggregate. */
  lemma CreateDailyNo2Outcome(input: Option<seq<HourlyRow>>)
    ensures CreateDailyNo2(input).Some? <==> input.Some?
    ensures input == Some([]) ==> CreateDailyNo2(input) == Some([])
  {
    if input == Some([]) {
      AggregateEmpty();
    }
  }

  /** Rows already at midnight with strictly ascending timestamps. */
  predicate AlreadyDaily(rows: seq<HourlyRow>)
  {
    && (forall i :: 0 <= i < |rows| ==> rows[i].timestamp % SecondsPerDay == 0)
    && (forall i, j :: 0 <= i < j < |rows| ==> rows[i].timestamp < rows[j].timestamp)
  }

  function Days(rows: seq<HourlyRow>): seq<int>
  {
    seq(|rows|, i requires 0 <= i < |rows| => DayOf(rows[i].timestamp))
  }

  /** Already-daily input has exactly one row per date, so each date's readings are that row's cell. */
  lemma AlreadyDailyReadings(rows: seq<HourlyRow>, i: nat)
    requires AlreadyDaily(rows) && i < |rows|
    ensures DayReadings(rows, DayOf(rows[i].timestamp)) == if rows[i].no2.Some? then [rows[i].no2.value] else []
  {
    var d := DayOf(rows[i].timestamp);
    DayReadingsSpec(rows, d);
    forall k | 0 <= k < |rows| && DayOf(rows[k].timestamp) == d
      ensures k == i
    {
      DayOfMidnight(d);
      assert rows[k].timestamp == d * SecondsPerDay == rows[i].timestamp;
    }
    OneRowReadings(rows, d, i);
  }

  lemma {:induction false} OneRowReadings(rows: seq<HourlyRow>, d: int, i: nat)
    requires i < |rows| && DayOf(rows[i].timestamp) == d
    requires forall k :: 0 <= k < |rows| && DayOf(rows[k].timestamp) == d ==> k == i
    ensures DayReadings(rows, d) == if rows[i].no2.Some? then [rows[i].no2.value] else []
  {
    var init := rows[..|rows| - 1];
    if i == |rows| - 1 {
      NoRowReadings(init, d);
    } else {
      OneRowReadings(init, d, i);
    }
  }

  lemma {:induction false} NoRowReadings(rows: seq<HourlyRow>, d: int)
    requires forall k :: 0 <= k < |rows| ==> DayOf(rows[k].timestamp) != d
    ensures DayReadings(rows, d) == []
  {
    if rows != [] {
      NoRowReadings(rows[..|rows| - 1], d);
    }
  }

  /**
   * Already-daily input is a fixed point: aggregating rows that are at
   * midnight and strictly ascending gives back the same rows.
   */
  lemma AlreadyDailyFixedPoint(rows: seq<HourlyRow>)
    requires AlreadyDaily(rows)
    ensures |AggregateDaily(rows)| == |rows|
    ensures forall i :: 0 <= i < |rows| ==> AggregateDaily(rows)[i] == DailyRow(rows[i].timestamp, rows[i].no2)
  {
    var days := Days(rows);
    DaysAscending(rows);
    DaysAreDates(rows);
    StrictlyIncreasingUnique(SortedKeys(DatesOf(rows)), days);
    forall i | 0 <= i < |rows|
      ensures AggregateDaily(rows)[i] == DailyRow(rows[i].timestamp, rows[i].no2)
    {
      FixedPointRow(rows, i);
    }
  }

  lemma DaysAscending(rows: seq<HourlyRow>)
    requires AlreadyDaily(rows)
    ensures StrictlyIncreasing(Days(rows))
  {
    var days := Days(rows);
    forall i, j | 0 <= i < j < |days|
      ensures days[i] < days[j]
    {
      DayOfBounds(rows[i].timestamp);
      DayOfBounds(rows[j].timestamp);
    }
  }

  lemma DaysAreDates(rows: seq<HourlyRow>)
    ensures forall x :: x in Days(rows) <==> x in DatesOf(rows)
  {
    var days := Days(rows);
    forall x
      ensures x in days <==> x in DatesOf(rows)
    {
      if x in DatesOf(rows) {
        var r :| r in rows && DayOf(r.timestamp) == x;
        var i :| 0 <= i < |rows| && rows[i] == r;
        assert days[i] == x;
      }
    }
  }

  lemma FixedPointRow(rows: seq<HourlyRow>, i: nat)
    requires AlreadyDaily(rows) && i < |rows|
    requires SortedKeys(DatesOf(rows)) == Days(rows)
    ensures AggregateDaily(rows)[i] == DailyRow(rows[i].timestamp, rows[i].no2)
  {
    DayOfBounds(rows[i].timestamp);
    AlreadyDailyReadings(rows, i);
    if rows[i].no2.Some? {
      MeanSingleton(rows[i].no2.value);
    }
  }

  /** Two readings at 02:00 and 14:00 of one day average to one midnight row. */
  lemma AggregateExample(rows: seq<HourlyRow>)
    requires rows == [HourlyRow(2 * 3600, Some(10.0)), HourlyRow(14 * 3600, Some(20.0))]
    ensures AggregateDaily(rows) == [DailyRow(0, Some(15.0))]
  {
    assert DayOf(rows[0].timestamp) == 0 && DayOf(rows[1].timestamp) == 0;
    assert DatesOf(rows) == {0} by {
      assert rows[0] in rows;
    }
    StrictlyIncreasingUnique(SortedKeys({0}), [0]);
    assert rows[..1] == [rows[0]];
    assert [rows[0]][..0] == [];
    assert DayReadings([rows[0]], 0) == [10.0];
    var xs := DayReadings(rows, 0);
    assert xs == [10.0, 20.0];
    assert [10.0, 20.0][..1] == [10.0];
    assert [10.0][..0] == [];
    assert Sum(xs) == 30.0;
  }
}

/**
 * Values shared by both extractors and the aggregator: an optional cell, a
 * timestamped measurement, the terminal sort of a fetched series, the
 * keep-the-most-recent trim, and the ascending list of a set of keys.
 */
module Series {

  /** A cell that may hold no measurement; `None` is "absent", never zero. */
  datatype Option<T> = None | Some(value: T)

  /**
   * One pollutant reading in µg/m³. For the sub-daily extractor `key` is the
   * UTC instant in whole seconds since the epoch; for the daily extractor it is
   * the UTC calendar date, as a day number since the epoch.
   */
  datatype Measurement = Measurement(key: int, value: real)

  const SecondsPerDay: int := 86400

  /** Calendar date (day number) of a UTC instant. Dafny's `/` floors for a
      positive divisor, as taking the date of a pre-epoch instant does. */
  function DayOf(t: int): int
  {
    t / SecondsPerDay
  }

  lemma DayOfBounds(t: int)
    ensures DayOf(t) * SecondsPerDay <= t < DayOf(t) * SecondsPerDay + SecondsPerDay
  {
  }

  /** Midnight is the first instant of its own date. */
  lemma DayOfMidnight(d: int)
    ensures DayOf(d * SecondsPerDay) == d
  {
  }

  predicate SortedByKey(s: seq<Measurement>)
  {
    forall i, j :: 0 <= i < j < |s| ==> s[i].key <= s[j].key
  }

  predicate StrictlyIncreasing(s: seq<int>)
  {
    forall i, j :: 0 <= i < j < |s| ==> s[i] < s[j]
  }

  /** Index of the first element whose key is not smaller than that of `m`. */
  function InsertPos(m: Measurement, s: seq<Measurement>): (k: nat)
    ensures k <= |s|
    ensures forall i :: 0 <= i < k ==> s[i].key < m.key
    ensures k < |s| ==> m.key <= s[k].key
  {
    if s == [] || m.key <= s[0].key then 0 else 1 + InsertPos(m, s[1..])
  }

  /** Inserts `m` into an ascending sequence, before every element whose key is not smaller. */
  function Insert(m: Measurement, s: seq<Measurement>): (r: seq<Measurement>)
    requires SortedByKey(s)
    ensures SortedByKey(r)
    ensures multiset(r) == multiset(s) + multiset{m}
  {
    var k := InsertPos(m, s);
    InsertAtPos(m, s, k);
    s[..k] + [m] + s[k..]
  }

  lemma InsertAtPos(m: Measurement, s: seq<Measurement>, k: nat)
    requires SortedByKey(s) && k <= |s|
    requires forall i :: 0 <= i < k ==> s[i].key < m.key
    requires k < |s| ==> m.key <= s[k].key
    ensures SortedByKey(s[..k] + [m] + s[k..])
    ensures multiset(s[..k] + [m] + s[k..]) == multiset(s) + multiset{m}
  {
    InsertAtPosSorted(m, s, k);
    assert s == s[..k] + s[k..];
    assert multiset(s[..k] + [m] + s[k..]) == multiset(s[..k]) + multiset{m} + multiset(s[k..]);
  }

  lemma InsertAtPosSorted(m: Measurement, s: seq<Measurement>, k: nat)
    requires SortedByKey(s) && k <= |s|
    requires forall i :: 0 <= i < k ==> s[i].key < m.key
    requires k < |s| ==> m.key <= s[k].key
    ensures SortedByKey(s[..k] + [m] + s[k..])
  {
    var r := s[..k] + [m] + s[k..];
    assert forall i :: 0 <= i < k ==> r[i] == s[i];
    assert r[k] == m;
    assert forall i :: k < i < |r| ==> r[i] == s[i - 1];
    forall i, j | 0 <= i < j < |r|
      ensures r[i].key <= r[j].key
    {
      if j <= k {
      } else if i < k {
        assert s[k].key <= s[j - 1].key;
      } else if i > k {
      }
    }
  }

  /**
   * Ascending sort by key (the timestamp or date column). Readings with equal
   * keys keep their arrival order.
   */
  function SortByKey(s: seq<Measurement>): (r: seq<Measurement>)
    ensures SortedByKey(r)
    ensures multiset(r) == multiset(s)
    ensures |r| == |s|
  {
    if s == [] then []
    else
      assert s == [s[0]] + s[1..];
      Insert(s[0], SortByKey(s[1..]))
  }

  /**
   * Keeps the last `n` entries when there are more than `n`, and everything
   * otherwise: the trailing, most recent part of an ascending sequence.
   */
  function TailTrim<T>(s: seq<T>, n: nat): (r: seq<T>)
    ensures |r| == if |s| > n then n else |s|
    ensures r == s[|s| - |r|..]
  {
    if |s| > n then s[|s| - n..] else s
  }

  /** On an ascending series the trim drops only entries no later than every kept one. */
  lemma TailTrimKeepsLatest(s: seq<Measurement>, n: nat)
    requires SortedByKey(s)
    ensures SortedByKey(TailTrim(s, n))
    ensures multiset(TailTrim(s, n)) <= multiset(s)
    ensures forall i, k :: 0 <= i < |s| - |TailTrim(s, n)| && 0 <= k < |TailTrim(s, n)| ==>
              s[i].key <= TailTrim(s, n)[k].key
  {
    var r := TailTrim(s, n);
    var d := |s| - |r|;
    assert s == s[..d] + r;
    assert multiset(s) == multiset(s[..d]) + multiset(r);
    forall i, k | 0 <= i < d && 0 <= k < |r|
      ensures s[i].key <= r[k].key
    {
      assert r[k] == s[d + k];
    }
  }

  lemma NonEmptyHasElement(s: set<int>)
    requires s != {}
    ensures exists z :: z in s
  {
    assert (forall z :: z !in s) ==> s == {};
  }

  /** Every non-empty finite set of integers has a least element. */
  lemma MinExists(s: set<int>)
    requires s != {}
    ensures exists m :: m in s && forall x :: x in s ==> m <= x
  {
    NonEmptyHasElement(s);
    var y :| y in s;
    if s != {y} {
      MinExists(s - {y});
      var m :| m in s - {y} && forall x :: x in s - {y} ==> m <= x;
      var least := if y < m then y else m;
      forall x | x in s
        ensures least <= x
      {
        if x != y { assert x in s - {y}; }
      }
      assert least in s;
    }
  }

  /** The least element of a non-empty set. */
  function SetMin(s: set<int>): (m: int)
    requires s != {}
    ensures m in s && forall x :: x in s ==> m <= x
  {
    MinExists(s);
    var m :| m in s && forall x :: x in s ==> m <= x;
    m
  }

  /** The elements of a set of keys as a strictly ascending list. */
  function SortedKeys(s: set<int>): (r: seq<int>)
    ensures StrictlyIncreasing(r)
    ensures forall x :: x in r <==> x in s
    ensures |r| == |s|
    decreases |s|
  {
    if s == {} then []
    else
      var m := SetMin(s);
      var rest := SortedKeys(s - {m});
      assert |s - {m}| == |s| - 1;
      [m] + rest
  }

  /** A strictly ascending list has as many distinct elements as entries. */
  lemma {:induction false} StrictlyIncreasingCard(s: seq<int>)
    requires StrictlyIncreasing(s)
    ensures |set x | x in s| == |s|
  {
    if s != [] {
      var init := s[..|s| - 1];
      var last := s[|s| - 1];
      StrictlyIncreasingCard(init);
      assert (set x | x in s) == (set x | x in init) + {last} by {
        assert s == init + [last];
      }
      assert last !in (set x | x in init) by {
        forall k | 0 <= k < |init|
          ensures init[k] != last
        {
          assert init[k] == s[k];
        }
      }
    }
  }

  /** Entry i of the sorted key column has exactly i smaller keys in the set. */
  lemma SortedKeysRank(s: set<int>, i: nat)
    requires i < |SortedKeys(s)|
    ensures |set d | d in s && d < SortedKeys(s)[i]| == i
  {
    var keys := SortedKeys(s);
    PrefixBelow(keys, s, i);
    assert StrictlyIncreasing(keys[..i]);
    StrictlyIncreasingCard(keys[..i]);
  }

  /** Below entry i of an ascending list of a set lie exactly the list's first i entries. */
  lemma PrefixBelow(keys: seq<int>, s: set<int>, i: nat)
    requires StrictlyIncreasing(keys) && i < |keys|
    requires forall x :: x in keys <==> x in s
    ensures (set d | d in s && d < keys[i]) == (set x | x in keys[..i])
  {
    var prefix := keys[..i];
    forall x
      ensures x in s && x < keys[i] <==> x in prefix
    {
      if x in s && x < keys[i] {
        var k :| 0 <= k < |keys| && keys[k] == x;
        assert prefix[k] == x;
      }
      if x in prefix {
        var k :| 0 <= k < i && prefix[k] == x;
        assert keys[k] == x;
      }
    }
  }

  /** A strictly ascending list is the only such list of its elements. */
  lemma {:induction false} StrictlyIncreasingUnique(a: seq<int>, b: seq<int>)
    requires StrictlyIncreasing(a) && StrictlyIncreasing(b)
    requires forall x :: x in a <==> x in b
    ensures a == b
  {
    assert a != [] ==> a[0] in a && a[0] in b;
    assert b != [] ==> b[0] in b && b[0] in a;
    if a != [] && b != [] {
      HeadsAgree(a, b);
      TailsAgree(a, b);
      StrictlyIncreasingUnique(a[1..], b[1..]);
      assert a == [a[0]] + a[1..];
      assert b == [b[0]] + b[1..];
    }
  }

  /** Two strictly ascending lists with the same elements start alike. */
  lemma HeadsAgree(a: seq<int>, b: seq<int>)
    requires StrictlyIncreasing(a) && StrictlyIncreasing(b)
    requires forall x :: x in a <==> x in b
    requires a != [] && b != []
    ensures a[0] == b[0]
  {
    HeadIsLeast(a);
    HeadIsLeast(b);
    assert a[0] in a && b[0] in b;
  }

  lemma HeadIsLeast(s: seq<int>)
    requires StrictlyIncreasing(s) && s != []
    ensures forall x :: x in s ==> s[0] <= x
  {
    forall x | x in s
      ensures s[0] <= x
    {
      var k :| 0 <= k < |s| && s[k] == x;
    }
  }

  /** ... and their tails have the same elements. */
  lemma TailsAgree(a: seq<int>, b: seq<int>)
    requires StrictlyIncreasing(a) && StrictlyIncreasing(b)
    requires forall x :: x in a <==> x in b
    requires a != [] && b != [] && a[0] == b[0]
    ensures forall x :: x in a[1..] <==> x in b[1..]
  {
    forall x | x in a[1..]
      ensures x in b[1..]
    {
      var i :| 1 <= i < |a| && a[i] == x;
      assert a[0] < x && x in b;
      var j :| 0 <= j < |b| && b[j] == x;
      assert b[1..][j - 1] == x;
    }
    forall x | x in b[1..]
      ensures x in a[1..]
    {
      var i :| 1 <= i < |b| && b[i] == x;
      assert b[0] < x && x in a;
      var j :| 0 <= j < |a| && a[j] == x;
      assert a[1..][j - 1] == x;
    }
  }
}

/**
 * Alignment of several pollutant series on a shared time axis: the sorted
 * union of all keys becomes the key column, and each series is left-merged
 * onto it in turn, adding one column. A key a series lacks gives an absent
 * cell; a series with a repeated key yields one row per match, as a left
 * merge does.
 */
module Align {
  import opened Series

  /** One row of the combined table: its key and one cell per series merged so far. */
  datatype Row = Row(key: int, cells: seq<Option<real>>)

  function KeySet(s: seq<Measurement>): set<int>
  {
    set m | m in s :: m.key
  }

  /** The union of the keys of all series. */
  function UnionKeys(ss: seq<seq<Measurement>>): set<int>
  {
    if ss == [] then {} else UnionKeys(ss[..|ss| - 1]) + KeySet(ss[|ss| - 1])
  }

  function KeysOf(t: seq<Row>): seq<int>
  {
    seq(|t|, i requires 0 <= i < |t| => t[i].key)
  }

  function RowKeys(t: seq<Row>): set<int>
  {
    set r | r in t :: r.key
  }

  predicate RowsSorted(t: seq<Row>)
  {
    forall i, j :: 0 <= i < j < |t| ==> t[i].key <= t[j].key
  }

  predicate DistinctKeys(s: seq<Measurement>)
  {
    forall i, j :: 0 <= i < j < |s| ==> s[i].key != s[j].key
  }

  /** The key column before any merge. */
  function BaseTable(keys: seq<int>): seq<Row>
  {
    seq(|keys|, i requires 0 <= i < |keys| => Row(keys[i], []))
  }

  /** The values a series has at key `k`, in series order. */
  function Matches(s: seq<Measurement>, k: int): seq<real>
  {
    if s == [] then []
    else Matches(s[..|s| - 1], k) + (if s[|s| - 1].key == k then [s[|s| - 1].value] else [])
  }

  /** The first value a series has at key `k`, or absent. */
  function Lookup(s: seq<Measurement>, k: int): Option<real>
  {
    var vs := Matches(s, k);
    if vs == [] then None else Some(vs[0])
  }

  /** The rows a left merge makes of one row: one per match, or one with an absent cell. */
  function JoinRow(row: Row, s: seq<Measurement>): seq<Row>
  {
    var vs := Matches(s, row.key);
    if vs == [] then [Row(row.key, row.cells + [None])]
    else seq(|vs|, i requires 0 <= i < |vs| => Row(row.key, row.cells + [Some(vs[i])]))
  }

  /** Left merge of a series onto the table on the key column, keeping the table's row order. */
  function Merge(t: seq<Row>, s: seq<Measurement>): seq<Row>
  {
    if t == [] then [] else Merge(t[..|t| - 1], s) + JoinRow(t[|t| - 1], s)
  }

  /** The column an empty series gets: absent in every row. */
  function AddAbsent(t: seq<Row>): seq<Row>
  {
    seq(|t|, i requires 0 <= i < |t| => Row(t[i].key, t[i].cells + [None]))
  }

  /** A non-empty series is merged; an empty one gets an all-absent column. */
  function MergeOrAbsent(t: seq<Row>, s: seq<Measurement>): seq<Row>
  {
    if |s| > 0 then Merge(t, s) else AddAbsent(t)
  }

  /** Merges the series one after the other, in order. */
  function MergeAll(t: seq<Row>, ss: seq<seq<Measurement>>): seq<Row>
  {
    if ss == [] then t else MergeOrAbsent(MergeAll(t, ss[..|ss| - 1]), ss[|ss| - 1])
  }

  /** The combined table before trimming. */
  function AlignTable(ss: seq<seq<Measurement>>): seq<Row>
  {
    MergeAll(BaseTable(SortedKeys(UnionKeys(ss))), ss)
  }

  /** A cell `c` at key `k` is consistent with series `s`. */
  predicate CellFor(s: seq<Measurement>, k: int, c: Option<real>)
  {
    && (c == None <==> k !in KeySet(s))
    && (c.Some? ==> Measurement(k, c.value) in s)
  }

  /** Row `o` is row `r` with one more cell, consistent with series `s`. */
  predicate Extends(o: Row, r: Row, s: seq<Measurement>)
  {
    && o.key == r.key
    && |o.cells| == |r.cells| + 1
    && o.cells[..|r.cells|] == r.cells
    && CellFor(s, r.key, o.cells[|r.cells|])
  }

  /** Every row of `t` has one cell per series of `ss`, each consistent with its series. */
  predicate CellsSound(t: seq<Row>, ss: seq<seq<Measurement>>)
  {
    forall r :: r in t ==> RowSound(r, ss)
  }

  /** Row `r` has one cell per series of `ss`, each consistent with its series. */
  predicate RowSound(r: Row, ss: seq<seq<Measurement>>)
  {
    |r.cells| == |ss| && forall j :: 0 <= j < |ss| ==> CellFor(ss[j], r.key, r.cells[j])
  }

  // ---------------------------------------------------------------- matches

  lemma {:induction false} MatchesSpec(s: seq<Measurement>, k: int)
    ensures forall v :: v in Matches(s, k) <==> Measurement(k, v) in s
    ensures Matches(s, k) == [] <==> k !in KeySet(s)
  {
    if s != [] {
      var init := s[..|s| - 1];
      MatchesSpec(init, k);
      assert s == init + [s[|s| - 1]];
      assert KeySet(s) == KeySet(init) + {s[|s| - 1].key};
      forall v
        ensures v in Matches(s, k) <==> Measurement(k, v) in s
      {
        if Measurement(k, v) in s && Measurement(k, v) !in init {
          assert s[|s| - 1] == Measurement(k, v);
        }
      }
    }
  }

  lemma {:induction false} MatchesDistinct(s: seq<Measurement>, k: int)
    requires DistinctKeys(s)
    ensures |Matches(s, k)| <= 1
  {
    if s != [] {
      var init := s[..|s| - 1];
      MatchesDistinct(init, k);
      if s[|s| - 1].key == k {
        MatchesSpec(init, k);
        forall m | m in init
          ensures m.key != k
        {
          var i :| 0 <= i < |init| && init[i] == m;
          assert s[i] == m;
        }
      }
    }
  }

  /** With distinct keys, the looked-up cell is exactly the series' value at the key. */
  lemma LookupDistinct(s: seq<Measurement>, k: int)
    requires DistinctKeys(s)
    ensures Lookup(s, k) == None <==> k !in KeySet(s)
    ensures forall v :: Lookup(s, k) == Some(v) <==> Measurement(k, v) in s
  {
    MatchesSpec(s, k);
    MatchesDistinct(s, k);
    forall v
      ensures Lookup(s, k) == Some(v) <==> Measurement(k, v) in s
    {
      if Measurement(k, v) in s {
        assert v in Matches(s, k);
      }
    }
  }

  // ------------------------------------------------------------------ merge

  /** Merging an empty series is the same as adding an all-absent column. */
  lemma {:induction false} MergeEmptyIsAbsent(t: seq<Row>)
    ensures Merge(t, []) == AddAbsent(t)
  {
    if t != [] {
      MergeEmptyIsAbsent(t[..|t| - 1]);
    }
  }

  /** With distinct keys a left merge keeps every row in place and adds the looked-up cell. */
  lemma {:induction false} MergeDistinct(t: seq<Row>, s: seq<Measurement>)
    requires DistinctKeys(s)
    ensures |Merge(t, s)| == |t|
    ensures forall i :: 0 <= i < |t| ==> Merge(t, s)[i] == Row(t[i].key, t[i].cells + [Lookup(s, t[i].key)])
  {
    if t != [] {
      var init := t[..|t| - 1];
      var last := t[|t| - 1];
      var m := Merge(init, s);
      var j := [Row(last.key, last.cells + [Lookup(s, last.key)])];
      assert JoinRow(last, s) == j by {
        MatchesDistinct(s, last.key);
      }
      assert Merge(t, s) == m + j;
      assert |m| == |init| && forall i :: 0 <= i < |init| ==> m[i] == Row(init[i].key, init[i].cells + [Lookup(s, init[i].key)]) by {
        MergeDistinct(init, s);
      }
      forall i | 0 <= i < |t|
        ensures (m + j)[i] == Row(t[i].key, t[i].cells + [Lookup(s, t[i].key)])
      {
        if i < |init| {
          assert t[i] == init[i];
        }
      }
    }
  }

  lemma JoinRowSound(row: Row, s: seq<Measurement>, o: Row)
    requires o in JoinRow(row, s)
    ensures o.key == row.key && |o.cells| == |row.cells| + 1
    ensures o.cells[..|row.cells|] == row.cells
    ensures CellFor(s, row.key, o.cells[|row.cells|])
  {
    MatchesSpec(s, row.key);
    var vs := Matches(s, row.key);
    if vs != [] {
      var i :| 0 <= i < |vs| && JoinRow(row, s)[i] == o;
      assert vs[i] in vs;
    }
  }

  lemma JoinRowKeys(row: Row, s: seq<Measurement>)
    ensures JoinRow(row, s) != []
    ensures forall o :: o in JoinRow(row, s) ==> o.key == row.key
  {
  }

  /** Every merged row extends a row of the table by a cell consistent with the series. */
  lemma {:induction false} MergeSound(t: seq<Row>, s: seq<Measurement>, o: Row)
    requires o in Merge(t, s)
    ensures exists r :: r in t && Extends(o, r, s)
  {
    var init := t[..|t| - 1];
    var last := t[|t| - 1];
    if o in Merge(init, s) {
      MergeSound(init, s, o);
      var r :| r in init && Extends(o, r, s);
      assert r in t;
    } else {
      JoinRowSound(last, s, o);
      assert Extends(o, last, s);
      assert last in t;
    }
  }

  lemma RowKeysConcat(a: seq<Row>, b: seq<Row>)
    ensures RowKeys(a + b) == RowKeys(a) + RowKeys(b)
  {
  }

  /** A left merge keeps the set of keys. */
  lemma {:induction false} MergeKeySet(t: seq<Row>, s: seq<Measurement>)
    ensures RowKeys(Merge(t, s)) == RowKeys(t)
  {
    if t != [] {
      var init := t[..|t| - 1];
      var last := t[|t| - 1];
      var m := Merge(init, s);
      var j := JoinRow(last, s);
      assert Merge(t, s) == m + j;
      assert RowKeys(m) == RowKeys(init) by {
        MergeKeySet(init, s);
      }
      assert RowKeys(j) == {last.key} by {
        JoinRowKeys(last, s);
        assert j[0] in j;
      }
      assert RowKeys(m + j) == RowKeys(m) + RowKeys(j) by {
        RowKeysConcat(m, j);
      }
      assert RowKeys(t) == RowKeys(init) + {last.key} by {
        assert t == init + [last];
        RowKeysConcat(init, [last]);
        assert last in [last];
      }
    }
  }

  /** No merged row has a key above a bound every table row respects. */
  lemma MergeKeyBound(t: seq<Row>, s: seq<Measurement>, o: Row, bound: int)
    requires o in Merge(t, s)
    requires forall r :: r in t ==> r.key <= bound
    ensures o.key <= bound
  {
    MergeSound(t, s, o);
  }

  /** A left merge keeps the table's ascending key order. */
  lemma {:induction false} MergeSorted(t: seq<Row>, s: seq<Measurement>)
    requires RowsSorted(t)
    ensures RowsSorted(Merge(t, s))
  {
    if t != [] {
      var init := t[..|t| - 1];
      var last := t[|t| - 1];
      MergeSorted(init, s);
      JoinRowKeys(last, s);
      var m := Merge(init, s);
      var j := JoinRow(last, s);
      forall r | r in init
        ensures r.key <= last.key
      {
        var i :| 0 <= i < |init| && init[i] == r;
        assert t[i] == r;
      }
      var mj: seq<Row> := m + j;
      assert Merge(t, s) == mj;
      forall a: int, b: int | 0 <= a < b < |mj|
        ensures mj[a].key <= mj[b].key
      {
        if b < |m| {
          assert mj[a] == m[a] && mj[b] == m[b];
        } else if a < |m| {
          assert mj[a] == m[a] && m[a] in m;
          MergeKeyBound(init, s, m[a], last.key);
          assert mj[b] == j[b - |m|] && j[b - |m|] in j;
        } else {
          assert mj[a] == j[a - |m|] && j[a - |m|] in j;
          assert mj[b] == j[b - |m|] && j[b - |m|] in j;
        }
      }
    }
  }

  /** An all-absent column keeps keys and order and is consistent with an empty series. */
  lemma AddAbsentKeys(t: seq<Row>)
    ensures RowKeys(AddAbsent(t)) == RowKeys(t)
    ensures RowsSorted(t) ==> RowsSorted(AddAbsent(t))
  {
    forall k
      ensures k in RowKeys(AddAbsent(t)) <==> k in RowKeys(t)
    {
      if k in RowKeys(t) {
        var r :| r in t && r.key == k;
        var i :| 0 <= i < |t| && t[i] == r;
        assert AddAbsent(t)[i] in AddAbsent(t);
      }
    }
  }

  /** Every row after one more merge or absent column extends a row of the table. */
  lemma MergeOrAbsentRow(t: seq<Row>, s: seq<Measurement>, o: Row)
    requires o in MergeOrAbsent(t, s)
    ensures exists r :: r in t && Extends(o, r, s)
  {
    if |s| > 0 {
      MergeSound(t, s, o);
    } else {
      var i :| 0 <= i < |AddAbsent(t)| && AddAbsent(t)[i] == o;
      assert t[i] in t;
      assert KeySet(s) == {};
      assert Extends(o, t[i], s);
    }
  }

  lemma ExtendsSound(o: Row, r: Row, ss: seq<seq<Measurement>>, s: seq<Measurement>)
    requires RowSound(r, ss) && Extends(o, r, s)
    ensures RowSound(o, ss + [s])
  {
    var ss' := ss + [s];
    forall j | 0 <= j < |ss'|
      ensures CellFor(ss'[j], o.key, o.cells[j])
    {
      if j < |ss| {
        assert o.cells[j] == o.cells[..|r.cells|][j] == r.cells[j];
        assert ss'[j] == ss[j];
      }
    }
  }

  /** One more merge keeps every row consistent with all series merged so far. */
  lemma MergeOrAbsentSound(t: seq<Row>, ss: seq<seq<Measurement>>, s: seq<Measurement>)
    requires CellsSound(t, ss)
    ensures CellsSound(MergeOrAbsent(t, s), ss + [s])
  {
    forall o | o in MergeOrAbsent(t, s)
      ensures RowSound(o, ss + [s])
    {
      MergeOrAbsentRow(t, s, o);
      var r :| r in t && Extends(o, r, s);
      ExtendsSound(o, r, ss, s);
    }
  }

  // ------------------------------------------------------------- whole table

  lemma {:induction false} UnionKeysMember(ss: seq<seq<Measurement>>, k: int)
    ensures k in UnionKeys(ss) <==> exists j :: 0 <= j < |ss| && k in KeySet(ss[j])
  {
    if ss != [] {
      var init := ss[..|ss| - 1];
      UnionKeysMember(init, k);
      if k in UnionKeys(init) {
        var j :| 0 <= j < |init| && k in KeySet(init[j]);
        assert ss[j] == init[j];
      }
      if exists j :: 0 <= j < |ss| && k in KeySet(ss[j]) {
        var j :| 0 <= j < |ss| && k in KeySet(ss[j]);
        if j < |init| {
          assert init[j] == ss[j];
        }
      }
    }
  }

  lemma {:induction false} MergeAllKeys(t: seq<Row>, ss: seq<seq<Measurement>>)
    ensures RowKeys(MergeAll(t, ss)) == RowKeys(t)
    ensures RowsSorted(t) ==> RowsSorted(MergeAll(t, ss))
  {
    if ss != [] {
      var init := ss[..|ss| - 1];
      MergeAllKeys(t, init);
      if |ss[|ss| - 1]| > 0 {
        MergeKeySet(MergeAll(t, init), ss[|ss| - 1]);
        if RowsSorted(t) {
          MergeSorted(MergeAll(t, init), ss[|ss| - 1]);
        }
      } else {
        AddAbsentKeys(MergeAll(t, init));
      }
    }
  }

  lemma {:induction false} MergeAllSound(t: seq<Row>, ss: seq<seq<Measurement>>)
    requires forall r :: r in t ==> r.cells == []
    ensures CellsSound(MergeAll(t, ss), ss)
  {
    if ss == [] {
    } else {
      var init := ss[..|ss| - 1];
      MergeAllSound(t, init);
      MergeOrAbsentSound(MergeAll(t, init), init, ss[|ss| - 1]);
      assert init + [ss[|ss| - 1]] == ss;
    }
  }

  /** The cells a row gets when every series has distinct keys. */
  function LookupAll(ss: seq<seq<Measurement>>, k: int): (r: seq<Option<real>>)
    ensures |r| == |ss|
  {
    seq(|ss|, j requires 0 <= j < |ss| => Lookup(ss[j], k))
  }

  lemma LookupAllSnoc(ss: seq<seq<Measurement>>, s: seq<Measurement>, k: int)
    ensures LookupAll(ss + [s], k) == LookupAll(ss, k) + [Lookup(s, k)]
  {
  }

  /** With distinct keys, one more series adds its looked-up cell to every row, in place. */
  lemma MergeOrAbsentDistinct(t: seq<Row>, s: seq<Measurement>)
    requires DistinctKeys(s)
    ensures |MergeOrAbsent(t, s)| == |t|
    ensures forall i :: 0 <= i < |t| ==> MergeOrAbsent(t, s)[i] == Row(t[i].key, t[i].cells + [Lookup(s, t[i].key)])
  {
    if |s| > 0 {
      MergeDistinct(t, s);
    }
  }

  lemma {:induction false} MergeAllDistinct(t: seq<Row>, ss: seq<seq<Measurement>>)
    requires forall j :: 0 <= j < |ss| ==> DistinctKeys(ss[j])
    ensures |MergeAll(t, ss)| == |t|
    ensures forall i :: 0 <= i < |t| ==> MergeAll(t, ss)[i] == Row(t[i].key, t[i].cells + LookupAll(ss, t[i].key))
  {
    if ss != [] {
      var init := ss[..|ss| - 1];
      var s := ss[|ss| - 1];
      assert ss == init + [s];
      MergeAllDistinct(t, init);
      var m := MergeAll(t, init);
      MergeOrAbsentDistinct(m, s);
      forall i | 0 <= i < |t|
        ensures MergeAll(t, ss)[i] == Row(t[i].key, t[i].cells + LookupAll(ss, t[i].key))
      {
        LookupAllSnoc(init, s, t[i].key);
        assert m[i] == Row(t[i].key, t[i].cells + LookupAll(init, t[i].key));
        assert t[i].cells + LookupAll(init, t[i].key) + [Lookup(s, t[i].key)] == t[i].cells + LookupAll(ss, t[i].key);
      }
    }
  }

  /**
   * The combined table, in general: its keys are exactly the union of the
   * series' keys, in ascending order, and every row has one cell per series,
   * absent exactly when that series lacks the row's key and otherwise one of
   * that series' values at the key.
   */
  lemma AlignTableSound(ss: seq<seq<Measurement>>)
    ensures RowKeys(AlignTable(ss)) == UnionKeys(ss)
    ensures RowsSorted(AlignTable(ss))
    ensures CellsSound(AlignTable(ss), ss)
  {
    var keys := SortedKeys(UnionKeys(ss));
    var base := BaseTable(keys);
    MergeAllKeys(base, ss);
    MergeAllSound(base, ss);
    forall k
      ensures k in RowKeys(base) <==> k in UnionKeys(ss)
    {
      if k in UnionKeys(ss) {
        var i :| 0 <= i < |keys| && keys[i] == k;
        assert base[i] in base;
      }
    }
  }

  /**
   * The combined table when no series repeats a key: one row per key of the
   * union, strictly ascending, and in column j the value series j has at that
   * key, or absent when it has none.
   */
  lemma AlignTableDistinct(ss: seq<seq<Measurement>>)
    requires forall j :: 0 <= j < |ss| ==> DistinctKeys(ss[j])
    ensures KeysOf(AlignTable(ss)) == SortedKeys(UnionKeys(ss))
    ensures StrictlyIncreasing(KeysOf(AlignTable(ss)))
    ensures forall i :: 0 <= i < |AlignTable(ss)| ==> AlignTable(ss)[i].cells == LookupAll(ss, AlignTable(ss)[i].key)
  {
    DistinctFromBase(SortedKeys(UnionKeys(ss)), ss);
  }

  /** With distinct keys, merging onto a key column keeps the column and fills each row with its looked-up cells. */
  lemma DistinctFromBase(keys: seq<int>, ss: seq<seq<Measurement>>)
    requires forall j :: 0 <= j < |ss| ==> DistinctKeys(ss[j])
    ensures KeysOf(MergeAll(BaseTable(keys), ss)) == keys
    ensures forall i :: 0 <= i < |MergeAll(BaseTable(keys), ss)| ==>
      MergeAll(BaseTable(keys), ss)[i].cells == LookupAll(ss, MergeAll(BaseTable(keys), ss)[i].key)
  {
    DistinctRowsFromBase(keys, ss);
    KeysFromRows(MergeAll(BaseTable(keys), ss), keys, ss);
  }

  lemma DistinctRowsFromBase(keys: seq<int>, ss: seq<seq<Measurement>>)
    requires forall j :: 0 <= j < |ss| ==> DistinctKeys(ss[j])
    ensures |MergeAll(BaseTable(keys), ss)| == |keys|
    ensures forall i :: 0 <= i < |keys| ==> MergeAll(BaseTable(keys), ss)[i] == Row(keys[i], LookupAll(ss, keys[i]))
  {
    var base := BaseTable(keys);
    MergeAllDistinct(base, ss);
    RowsFromEmptyCells(base, keys, MergeAll(base, ss), ss);
  }

  lemma RowsFromEmptyCells(base: seq<Row>, keys: seq<int>, t: seq<Row>, ss: seq<seq<Measurement>>)
    requires |base| == |keys| && forall i :: 0 <= i < |keys| ==> base[i] == Row(keys[i], [])
    requires |t| == |base| && forall i :: 0 <= i < |base| ==> t[i] == Row(base[i].key, base[i].cells + LookupAll(ss, base[i].key))
    ensures forall i :: 0 <= i < |keys| ==> t[i] == Row(keys[i], LookupAll(ss, keys[i]))
  {
    forall i | 0 <= i < |keys|
      ensures t[i] == Row(keys[i], LookupAll(ss, keys[i]))
    {
      assert base[i] == Row(keys[i], []);
      assert [] + LookupAll(ss, keys[i]) == LookupAll(ss, keys[i]);
    }
  }

  lemma KeysFromRows(t: seq<Row>, keys: seq<int>, ss: seq<seq<Measurement>>)
    requires |t| == |keys| && forall i :: 0 <= i < |keys| ==> t[i] == Row(keys[i], LookupAll(ss, keys[i]))
    ensures KeysOf(t) == keys
    ensures forall i :: 0 <= i < |t| ==> t[i].cells == LookupAll(ss, t[i].key)
  {
    assert |KeysOf(t)| == |keys|;
    forall i | 0 <= i < |keys|
      ensures KeysOf(t)[i] == keys[i]
    {
    }
  }

  // ---------------------------------------------------------- the combine step

  /** Adds a series' keys to the running union; an empty series adds none. */
  method AddKeys(keys: set<int>, s: seq<Measurement>) returns (keys': set<int>)
    ensures keys' == keys + KeySet(s)
  {
    keys' := keys;
    if |s| > 0 {
      keys' := keys' + KeySet(s);
    }
  }

  /** Left-merges a non-empty series onto the table, or adds an all-absent column for an empty one. */
  method MergeColumn(t: seq<Row>, s: seq<Measurement>) returns (t': seq<Row>)
    ensures t' == MergeOrAbsent(t, s)
  {
    if |s| > 0 {
      t' := Merge(t, s);
    } else {
      t' := AddAbsent(t);
    }
  }

  /** Keeps the last `n` rows when the table is longer, as `tail(n)` does. */
  method TrimRows(t: seq<Row>, n: nat) returns (t': seq<Row>)
    ensures t' == TailTrim(t, n)
  {
    t' := t;
    if |t'| > n {
      t' := t'[|t'| - n..];
    }
  }

  // ------------------------------------------------------------- trimming

  /**
   * Keeping the last `n` rows of a combined table keeps its ascending order
   * and the consistency of every cell, drops only rows no later than every
   * kept one, and leaves a table of at most `n` rows untouched.
   */
  lemma TrimTable(t: seq<Row>, n: nat, ss: seq<seq<Measurement>>)
    requires RowsSorted(t) && CellsSound(t, ss)
    ensures RowsSorted(TailTrim(t, n)) && CellsSound(TailTrim(t, n), ss)
    ensures |t| <= n ==> TailTrim(t, n) == t
    ensures forall i, k :: 0 <= i < |t| - |TailTrim(t, n)| && 0 <= k < |TailTrim(t, n)| ==>
              t[i].key <= TailTrim(t, n)[k].key
  {
    var r := TailTrim(t, n);
    var d := |t| - |r|;
    forall i, k | 0 <= i < d && 0 <= k < |r|
      ensures t[i].key <= r[k].key
    {
      assert r[k] == t[d + k];
    }
    forall o | o in r
      ensures RowSound(o, ss)
    {
      var k :| 0 <= k < |r| && r[k] == o;
      assert t[d + k] == o;
    }
  }

  /** With distinct keys, the trimmed table keeps the last `n` keys of the union, with their looked-up cells. */
  lemma TrimDistinct(ss: seq<seq<Measurement>>, n: nat)
    requires forall j :: 0 <= j < |ss| ==> DistinctKeys(ss[j])
    ensures KeysOf(TailTrim(AlignTable(ss), n)) == TailTrim(SortedKeys(UnionKeys(ss)), n)
    ensures forall i :: 0 <= i < |TailTrim(AlignTable(ss), n)| ==>
              TailTrim(AlignTable(ss), n)[i].cells == LookupAll(ss, TailTrim(AlignTable(ss), n)[i].key)
  {
    AlignTableDistinct(ss);
    KeysOfTrim(AlignTable(ss), n);
  }

  /** The key column of a trimmed table is the trimmed key column, and each kept row is a row of the table. */
  lemma KeysOfTrim(t: seq<Row>, n: nat)
    ensures KeysOf(TailTrim(t, n)) == TailTrim(KeysOf(t), n)
    ensures forall i :: 0 <= i < |TailTrim(t, n)| ==> TailTrim(t, n)[i] == t[|t| - |TailTrim(t, n)| + i]
  {
    var r := TailTrim(t, n);
    var d := |t| - |r|;
    assert |KeysOf(t)| == |t|;
    forall i | 0 <= i < |r|
      ensures KeysOf(r)[i] == TailTrim(KeysOf(t), n)[i]
    {
      assert r[i] == t[d + i];
    }
  }

  lemma UnionKeysSnoc(ss: seq<seq<Measurement>>, s: seq<Measurement>)
    ensures UnionKeys(ss + [s]) == UnionKeys(ss) + KeySet(s)
  {
    assert (ss + [s])[..|ss|] == ss;
  }

  lemma MergeAllSnoc(t: seq<Row>, ss: seq<seq<Measurement>>, s: seq<Measurement>)
    ensures MergeAll(t, ss + [s]) == MergeOrAbsent(MergeAll(t, ss), s)
  {
    assert (ss + [s])[..|ss|] == ss;
  }

  const ExampleFirst: seq<Measurement> := [Measurement(1, 5.0), Measurement(2, 6.0)]
  const ExampleSecond: seq<Measurement> := [Measurement(2, 7.0), Measurement(3, 8.0)]

  lemma MatchesPair(x: Measurement, y: Measurement, k: int)
    ensures Matches([x, y], k) == (if x.key == k then [x.value] else []) + (if y.key == k then [y.value] else [])
  {
    assert [x, y][..1] == [x];
    assert [x][..0] == [];
    assert Matches([x], k) == (if x.key == k then [x.value] else []);
  }

  lemma UnionKeysPair(a: seq<Measurement>, b: seq<Measurement>)
    ensures UnionKeys([a, b]) == KeySet(a) + KeySet(b)
  {
    assert [a, b][..1] == [a];
    assert [a][..0] == [];
    assert UnionKeys([a]) == KeySet(a);
  }

  lemma KeySetPair(x: Measurement, y: Measurement)
    ensures KeySet([x, y]) == {x.key, y.key}
  {
    forall k
      ensures k in KeySet([x, y]) <==> k in {x.key, y.key}
    {
      assert x in [x, y] && y in [x, y];
    }
  }

  lemma SortedKeysThree(s: set<int>, x: int, y: int, z: int)
    requires s == {x, y, z} && x < y < z
    ensures SortedKeys(s) == [x, y, z]
  {
    StrictlyIncreasingUnique(SortedKeys(s), [x, y, z]);
  }

  lemma ExampleKeys()
    ensures SortedKeys(UnionKeys([ExampleFirst, ExampleSecond])) == [1, 2, 3]
  {
    UnionKeysPair(ExampleFirst, ExampleSecond);
    KeySetPair(Measurement(1, 5.0), Measurement(2, 6.0));
    KeySetPair(Measurement(2, 7.0), Measurement(3, 8.0));
    SortedKeysThree(UnionKeys([ExampleFirst, ExampleSecond]), 1, 2, 3);
  }

  lemma ExampleLookups()
    ensures Lookup(ExampleFirst, 1) == Some(5.0) && Lookup(ExampleFirst, 2) == Some(6.0) && Lookup(ExampleFirst, 3) == None
    ensures Lookup(ExampleSecond, 1) == None && Lookup(ExampleSecond, 2) == Some(7.0) && Lookup(ExampleSecond, 3) == Some(8.0)
  {
    MatchesPair(Measurement(1, 5.0), Measurement(2, 6.0), 1);
    MatchesPair(Measurement(1, 5.0), Measurement(2, 6.0), 2);
    MatchesPair(Measurement(1, 5.0), Measurement(2, 6.0), 3);
    MatchesPair(Measurement(2, 7.0), Measurement(3, 8.0), 1);
    MatchesPair(Measurement(2, 7.0), Measurement(3, 8.0), 2);
    MatchesPair(Measurement(2, 7.0), Measurement(3, 8.0), 3);
  }

  /** A table over exactly three keys, when no series repeats a key. */
  lemma AlignThreeKeys(ss: seq<seq<Measurement>>, x: int, y: int, z: int)
    requires forall j :: 0 <= j < |ss| ==> DistinctKeys(ss[j])
    requires SortedKeys(UnionKeys(ss)) == [x, y, z]
    ensures AlignTable(ss) == [Row(x, LookupAll(ss, x)), Row(y, LookupAll(ss, y)), Row(z, LookupAll(ss, z))]
  {
    AlignTableDistinct(ss);
    DistinctTableRows(AlignTable(ss), ss, [x, y, z]);
  }

  lemma DistinctTableRows(t: seq<Row>, ss: seq<seq<Measurement>>, keys: seq<int>)
    requires KeysOf(t) == keys && |keys| == 3
    requires forall i :: 0 <= i < |t| ==> t[i].cells == LookupAll(ss, t[i].key)
    ensures t == [Row(keys[0], LookupAll(ss, keys[0])), Row(keys[1], LookupAll(ss, keys[1])), Row(keys[2], LookupAll(ss, keys[2]))]
  {
    assert |t| == |KeysOf(t)|;
    assert KeysOf(t)[0] == t[0].key && KeysOf(t)[1] == t[1].key && KeysOf(t)[2] == t[2].key;
  }

  lemma LookupAllPair(a: seq<Measurement>, b: seq<Measurement>, k: int)
    ensures LookupAll([a, b], k) == [Lookup(a, k), Lookup(b, k)]
  {
  }

  /** Two series without repeated keys whose union has three keys. */
  lemma AlignPair(a: seq<Measurement>, b: seq<Measurement>, x: int, y: int, z: int)
    requires DistinctKeys(a) && DistinctKeys(b)
    requires SortedKeys(UnionKeys([a, b])) == [x, y, z]
    ensures AlignTable([a, b]) ==
      [Row(x, [Lookup(a, x), Lookup(b, x)]), Row(y, [Lookup(a, y), Lookup(b, y)]), Row(z, [Lookup(a, z), Lookup(b, z)])]
  {
    var ss := [a, b];
    assert forall j :: 0 <= j < |ss| ==> DistinctKeys(ss[j]) by {
      assert ss[0] == a && ss[1] == b;
    }
    assert AlignTable(ss) == [Row(x, LookupAll(ss, x)), Row(y, LookupAll(ss, y)), Row(z, LookupAll(ss, z))] by {
      AlignThreeKeys(ss, x, y, z);
    }
    assert LookupAll(ss, x) == [Lookup(a, x), Lookup(b, x)] by {
      LookupAllPair(a, b, x);
    }
    assert LookupAll(ss, y) == [Lookup(a, y), Lookup(b, y)] by {
      LookupAllPair(a, b, y);
    }
    assert LookupAll(ss, z) == [Lookup(a, z), Lookup(b, z)] by {
      LookupAllPair(a, b, z);
    }
  }

  lemma ExampleDistinct()
    ensures DistinctKeys(ExampleFirst) && DistinctKeys(ExampleSecond)
  {
  }

  /** The worked case: {t1: 5, t2: 6} and {t2: 7, t3: 8} align on t1 < t2 < t3. */
  lemma AlignExample()
    ensures AlignTable([ExampleFirst, ExampleSecond]) ==
      [Row(1, [Some(5.0), None]), Row(2, [Some(6.0), Some(7.0)]), Row(3, [None, Some(8.0)])]
  {
    ExampleKeys();
    ExampleLookups();
    ExampleDistinct();
    AlignPair(ExampleFirst, ExampleSecond, 1, 2, 3);
  }
}

/** The final sort of the index and the parser's queries, as functions on a table. */
module Queries {
  import opened Wrappers
  import opened DateTimes
  import opened Tables

  // ------------------------------------------------------------------ sort_index

  /** `d` placed into the ascending sequence `s` before the first later timestamp. */
  function Insert(d: DateTime, s: seq<DateTime>): (r: seq<DateTime>)
    ensures multiset(r) == multiset(s) + multiset{d}
  {
    if s == [] then [d]
    else if Before(d, s[0]) then [d] + s
    else
      assert s == [s[0]] + s[1..];
      [s[0]] + Insert(d, s[1..])
  }

  /** Inserting a new timestamp into an ascending sequence keeps it ascending. */
  lemma {:induction false} InsertAscending(d: DateTime, s: seq<DateTime>)
    requires Ascending(s) && d !in s
    ensures Ascending(Insert(d, s))
    decreases |s|
  {
    if s == [] {
    } else if Before(d, s[0]) {
      forall e | e in s ensures Before(d, e) {
        var k :| 0 <= k < |s| && s[k] == e;
        BeforeOrder(d, s[0], e);
      }
      ConsAscending(d, s, s);
    } else {
      var tail := s[1..];
      assert Ascending(tail);
      InsertAscending(d, tail);
      BeforeOrder(d, s[0], d);
      forall e | e in tail + [d] ensures Before(s[0], e) {
        if e in tail {
          var k :| 0 <= k < |tail| && tail[k] == e;
          assert s[k + 1] == e;
        }
      }
      forall e | e in Insert(d, tail) ensures e in tail + [d] {
        assert e in multiset(Insert(d, tail));
      }
      ConsAscending(s[0], tail + [d], Insert(d, tail));
    }
  }

  /** The index in ascending order (insertion sort). */
  function SortDates(s: seq<DateTime>): (r: seq<DateTime>)
    ensures multiset(r) == multiset(s)
    ensures Distinct(s) ==> Ascending(r)
  {
    if s == [] then []
    else
      var rest := SortDates(s[1..]);
      SortStep(s, rest);
      if Distinct(s) then InsertAscending(s[0], rest); Insert(s[0], rest)
      else Insert(s[0], rest)
  }

  /** The tail of a sequence without duplicates has none and lacks the head. */
  lemma SortStep(s: seq<DateTime>, rest: seq<DateTime>)
    requires s != [] && multiset(rest) == multiset(s[1..])
    ensures multiset(rest) + multiset{s[0]} == multiset(s)
    ensures Distinct(s) ==> Distinct(s[1..]) && s[0] !in rest
  {
    assert s == [s[0]] + s[1..];
    if Distinct(s) {
      assert s[0] !in s[1..];
      SameElements(rest, s[1..]);
    }
  }

  lemma SameElements(a: seq<DateTime>, b: seq<DateTime>)
    requires multiset(a) == multiset(b)
    ensures forall d :: d in a <==> d in b
  {
    forall d ensures d in a <==> d in b {
      assert d in a <==> d in multiset(a);
      assert d in b <==> d in multiset(b);
    }
  }

  /** `sort_index()`: the rows in ascending timestamp order; rows and columns are kept. */
  function SortTable(t: Table): Table {
    t.(index := SortDates(t.index))
  }

  /** Prepending an element that comes before every element of a superset keeps the
      sequence ascending. */
  lemma ConsAscending(x: DateTime, sup: seq<DateTime>, s: seq<DateTime>)
    requires forall d :: d in sup ==> Before(x, d)
    requires Ascending(s) && forall d :: d in s ==> d in sup
    ensures Ascending([x] + s)
  {
    forall i, j | 0 <= i < j < |[x] + s| ensures Before(([x] + s)[i], ([x] + s)[j]) {
      if i == 0 { assert s[j - 1] in s; }
    }
  }

  lemma AscendingIsDistinct(s: seq<DateTime>)
    requires Ascending(s)
    ensures Distinct(s)
  {
    forall i, j | 0 <= i < j < |s| ensures s[i] != s[j] {
      assert Before(s[i], s[j]);
    }
  }

  /** After the sort the index is ascending with no duplicate timestamp and lists the same
      rows; nothing else changes. */
  lemma SortTableWellFormed(t: Table)
    requires WellFormed(t)
    ensures var t' := SortTable(t);
      && WellFormed(t') && Ascending(t'.index)
      && t'.rows == t.rows && t'.columns == t.columns
      && multiset(t'.index) == multiset(t.index)
  {
    var s := SortTable(t).index;
    AscendingIsDistinct(s);
    SameElements(s, t.index);
  }

  // ------------------------------------------------------------------ testnames / dates

  /** `set(self._data["testname"])`: the distinct names; a missing name counts once. */
  function Testnames(t: Table): (names: set<Option<string>>)
    ensures forall d :: d in t.rows ==> t.rows[d].testname in names
    ensures forall n :: n in names ==> exists d :: d in t.rows && t.rows[d].testname == n
  {
    set d | d in t.rows :: t.rows[d].testname
  }

  // ------------------------------------------------------------------ row selection

  /** The head of an ascending sequence comes before the rest, which stays ascending. */
  lemma HeadFirst(s: seq<DateTime>)
    requires s != []
    ensures Ascending(s) ==> Ascending(s[1..]) && forall d :: d in s[1..] ==> Before(s[0], d)
  {
    if Ascending(s) {
      forall d | d in s[1..] ensures Before(s[0], d) {
        var k :| 0 <= k < |s[1..]| && s[1..][k] == d;
        assert s[k + 1] == d;
      }
    }
  }

  /** Keeping the head of an index in front of a selection from its tail keeps the order. */
  lemma KeepHead(index: seq<DateTime>, rest: seq<DateTime>)
    requires index != [] && forall d :: d in rest ==> d in index[1..]
    ensures Ascending(index) && Ascending(rest) ==> Ascending([index[0]] + rest)
  {
    HeadFirst(index);
    if Ascending(index) && Ascending(rest) {
      ConsAscending(index[0], index[1..], rest);
    }
  }

  /** The timestamps of `index` whose row carries test name `name`, in index order. */
  function Named(index: seq<DateTime>, rows: map<DateTime, Row>, name: Option<string>): (r: seq<DateTime>)
    requires forall d :: d in index ==> d in rows
    ensures forall d :: d in r <==> d in index && rows[d].testname == name
    ensures Ascending(index) ==> Ascending(r)
    ensures Distinct(index) ==> Distinct(r)
  {
    if index == [] then []
    else
      var rest := Named(index[1..], rows, name);
      assert forall d :: d in index[1..] ==> d in index;
      if rows[index[0]].testname == name then
        KeepHead(index, rest);
        [index[0]] + rest
      else rest
  }

  /** The timestamps `d` of `index` with `start <= d <= end`, in index order. */
  function Within(index: seq<DateTime>, start: DateTime, end: DateTime): (r: seq<DateTime>)
    ensures forall d :: d in r <==> d in index && NotAfter(start, d) && NotAfter(d, end)
    ensures Ascending(index) ==> Ascending(r)
    ensures Distinct(index) ==> Distinct(r)
  {
    if index == [] then []
    else
      var rest := Within(index[1..], start, end);
      assert forall d :: d in index[1..] ==> d in index;
      if NotAfter(start, index[0]) && NotAfter(index[0], end) then
        KeepHead(index, rest);
        [index[0]] + rest
      else rest
  }

  /** On an ascending index the range from the `i`-th to the `j`-th timestamp is the
      slice between them, and empty when the end comes first. */
  lemma {:induction false} WithinIsSlice(index: seq<DateTime>, i: int, j: int)
    requires Ascending(index) && 0 <= i < |index| && 0 <= j < |index|
    ensures Within(index, index[i], index[j]) == if i <= j then index[i..j + 1] else []
    decreases |index|
  {
    if j < i {
      WithinReversed(index, i, j);
    } else if i == 0 {
      WithinIsSliceFrom(index, j);
    } else {
      var rest := index[1..];
      assert Before(index[0], index[i]);
      WithinSkipsHead(index, index[i], index[j]);
      HeadFirst(index);
      WithinIsSlice(rest, i - 1, j - 1);
      SliceOfTail(index, i, j);
    }
  }

  lemma SliceOfTail<T>(s: seq<T>, i: int, j: int)
    requires 0 < i <= j < |s|
    ensures s[1..][i - 1] == s[i] && s[1..][j - 1] == s[j]
    ensures s[1..][i - 1..j] == s[i..j + 1]
  {
  }

  /** An end before the start selects nothing. */
  lemma WithinReversed(index: seq<DateTime>, i: int, j: int)
    requires Ascending(index) && 0 <= j < i < |index|
    ensures Within(index, index[i], index[j]) == []
  {
    var start, end := index[i], index[j];
    forall d | d in index ensures Before(end, d) || Before(d, start) {
      var k :| 0 <= k < |index| && index[k] == d;
      if k <= j {
        assert Before(index[k], index[i]);
      } else {
        assert Before(index[j], index[k]);
      }
    }
    WithinEmpty(index, start, end);
  }

  /** A head before `start` is not selected. */
  lemma WithinSkipsHead(index: seq<DateTime>, start: DateTime, end: DateTime)
    requires index != [] && Before(index[0], start)
    ensures Within(index, start, end) == Within(index[1..], start, end)
  {
    BeforeOrder(index[0], start, index[0]);
  }

  /** No timestamp after `end` in an ascending `s` whose first element is after `end`. */
  lemma {:induction false} WithinEmpty(s: seq<DateTime>, start: DateTime, end: DateTime)
    requires forall d :: d in s ==> Before(end, d) || Before(d, start)
    ensures Within(s, start, end) == []
    decreases |s|
  {
    if s != [] {
      BeforeOrder(s[0], end, s[0]);
      BeforeOrder(s[0], start, s[0]);
      assert forall d :: d in s[1..] ==> d in s;
      WithinEmpty(s[1..], start, end);
    }
  }

  /** From the first timestamp to the `j`-th one of an ascending index. */
  lemma {:induction false} WithinIsSliceFrom(index: seq<DateTime>, j: int)
    requires Ascending(index) && 0 <= j < |index|
    ensures Within(index, index[0], index[j]) == index[..j + 1]
  {
    var rest := index[1..];
    HeadFirst(index);
    ConsPrefix(index, j);
    if j == 0 {
      WithinTakesHead(index, index[0], index[0]);
      WithinEmpty(rest, index[0], index[0]);
    } else {
      assert Before(index[0], index[j]);
      WithinTakesHead(index, index[0], index[j]);
      WithinFromEarlier(rest, index[0], j - 1);
    }
  }

  /** A start before the whole ascending `s` selects `s` up to its `j`-th element. */
  lemma {:induction false} WithinFromEarlier(s: seq<DateTime>, start: DateTime, j: int)
    requires Ascending(s) && 0 <= j < |s| && Before(start, s[0])
    ensures Within(s, start, s[j]) == s[..j + 1]
    decreases |s|
  {
    var rest := s[1..];
    HeadFirst(s);
    ConsPrefix(s, j);
    if j == 0 {
      WithinTakesHead(s, start, s[0]);
      WithinEmpty(rest, start, s[0]);
    } else {
      assert Before(s[0], s[j]) && Before(s[0], s[1]);
      BeforeOrder(start, s[0], s[1]);
      WithinTakesHead(s, start, s[j]);
      WithinFromEarlier(rest, start, j - 1);
    }
  }

  /** A head from `start` to `end` is selected, in front of the selection from the tail. */
  lemma WithinTakesHead(index: seq<DateTime>, start: DateTime, end: DateTime)
    requires index != [] && NotAfter(start, index[0]) && NotAfter(index[0], end)
    ensures Within(index, start, end) == [index[0]] + Within(index[1..], start, end)
  {
  }

  lemma ConsPrefix<T>(s: seq<T>, j: int)
    requires 0 <= j < |s|
    ensures s[..j + 1] == [s[0]] + s[1..][..j]
    ensures j > 0 ==> s[1..][j - 1] == s[j]
  {
  }

  /** The frame holding the rows of `keep`, in that order, with every column. */
  function Restrict(t: Table, keep: seq<DateTime>): (r: Table)
    requires forall d :: d in keep ==> d in t.rows
    ensures r.index == keep && r.columns == t.columns
    ensures r.rows.Keys == set d | d in keep
    ensures forall d :: d in r.rows ==> r.rows[d] == t.rows[d]
  {
    Table(keep, map d | d in keep :: t.rows[d], t.columns)
  }

  lemma RestrictWellFormed(t: Table, keep: seq<DateTime>)
    requires WellFormed(t) && Distinct(keep) && forall d :: d in keep ==> d in t.rows
    ensures WellFormed(Restrict(t, keep))
  {
  }

  /** A frame cut out of the table and the test name of the plate made from it. */
  datatype Selection = Selection(frame: Table, testname: Option<string>)

  /** `plate_from_testname`, up to the plate: the rows named `name`, refused when no row
      carries that name. */
  function SelectByName(t: Table, name: string): (r: Result<Selection, Error>)
    requires WellFormed(t)
    ensures r.Err? <==> Some(name) !in Testnames(t)
    ensures r.Err? ==> r.error == UnknownTestname
    ensures r.Ok? ==>
      && r.value.testname == Some(name)
      && WellFormed(r.value.frame) && |r.value.frame.index| >= 1
      && r.value.frame.columns == t.columns
      && (forall d :: d in r.value.frame.rows <==> d in t.rows && t.rows[d].testname == Some(name))
      && (forall d :: d in r.value.frame.rows ==> r.value.frame.rows[d] == t.rows[d])
      && (Ascending(t.index) ==> Ascending(r.value.frame.index))
  {
    if Some(name) !in Testnames(t) then Err(UnknownTestname)
    else
      var keep := Named(t.index, t.rows, Some(name));
      RestrictWellFormed(t, keep);
      var d :| d in t.rows && t.rows[d].testname == Some(name);
      assert d in keep;
      Ok(Selection(Restrict(t, keep), Some(name)))
  }

  /** `plate_from_daterange`, up to the plate: both ends must be timestamps of the index;
      the rows from `start` to `end` inclusive must carry at most one test name, and the
      plate takes the name of the second of them. */
  function SelectRange(t: Table, start: DateTime, end: DateTime): (r: Result<Selection, Error>)
    requires WellFormed(t)
  {
    if start !in t.index then Err(InvalidStartDate)
    else if end !in t.index then Err(InvalidEndDate)
    else
      var keep := Within(t.index, start, end);
      var frame := Restrict(t, keep);
      if |Testnames(frame)| > 1 then Err(MultipleTestnames)
      else if |keep| < 2 then Err(IndexOutOfRange)
      else Ok(Selection(frame, frame.rows[keep[1]].testname))
  }

  /** The checks of `plate_from_daterange` in their order, each with the error it raises. */
  lemma SelectRangeErrors(t: Table, start: DateTime, end: DateTime)
    requires WellFormed(t)
    ensures SelectRange(t, start, end) == Err(InvalidStartDate) <==> start !in t.index
    ensures SelectRange(t, start, end) == Err(InvalidEndDate) <==> start in t.index && end !in t.index
    ensures SelectRange(t, start, end) == Err(MultipleTestnames) <==>
      start in t.index && end in t.index && |Testnames(Restrict(t, Within(t.index, start, end)))| > 1
    ensures SelectRange(t, start, end) == Err(IndexOutOfRange) <==>
      start in t.index && end in t.index && |Testnames(Restrict(t, Within(t.index, start, end)))| <= 1
      && |Within(t.index, start, end)| < 2
  {
  }

  /** A successful range selection holds exactly the rows from `start` to `end`, at least
      two, all carrying the plate's test name. */
  lemma SelectRangeRows(t: Table, start: DateTime, end: DateTime)
    requires WellFormed(t) && SelectRange(t, start, end).Ok?
    ensures var s := SelectRange(t, start, end).value;
      && WellFormed(s.frame) && |s.frame.index| >= 2
      && s.frame.index == Within(t.index, start, end)
      && s.frame.columns == t.columns
      && (forall d :: d in s.frame.rows <==> d in t.rows && NotAfter(start, d) && NotAfter(d, end))
      && (forall d :: d in s.frame.rows ==> s.frame.rows[d] == t.rows[d] && t.rows[d].testname == s.testname)
  {
    var keep := Within(t.index, start, end);
    var frame := Restrict(t, keep);
    RestrictWellFormed(t, keep);
    var name := frame.rows[keep[1]].testname;
    forall d | d in frame.rows ensures frame.rows[d].testname == name {
      assert frame.rows[d].testname in Testnames(frame);
      assert name in Testnames(frame);
      SingletonSet(Testnames(frame), frame.rows[d].testname, name);
    }
  }

  lemma SingletonSet<T>(s: set<T>, a: T, b: T)
    requires |s| <= 1 && a in s && b in s
    ensures a == b
  {
    if a != b {
      TwoInSet(s, a, b);
    }
  }

  lemma TwoInSet<T>(s: set<T>, a: T, b: T)
    requires a != b && a in s && b in s
    ensures |s| >= 2
  {
    assert b in s - {a};
    assert |s - {a}| == |s| - 1;
  }

  /** A frame whose rows all sit at one timestamp carries at most one test name. */
  lemma OneRowOneName(t: Table, k: DateTime)
    requires forall d :: d in t.rows ==> d == k
    ensures |Testnames(t)| <= 1
  {
    if k in t.rows {
      forall n | n in Testnames(t) ensures n == t.rows[k].testname { }
      assert Testnames(t) == {t.rows[k].testname};
    } else {
      assert Testnames(t) == {};
    }
  }

  /** The name is taken from the second row: a range of one row (or none) fails with an
      index error, even when the timestamps are valid. */
  lemma SingleRowRangeFails(t: Table, start: DateTime, end: DateTime)
    requires WellFormed(t) && Ascending(t.index) && start in t.index && end in t.index
    requires !Before(start, end)
    ensures SelectRange(t, start, end) == Err(IndexOutOfRange)
  {
    var i :| 0 <= i < |t.index| && t.index[i] == start;
    var j :| 0 <= j < |t.index| && t.index[j] == end;
    WithinIsSlice(t.index, i, j);
    var keep := Within(t.index, start, end);
    assert |keep| <= 1 by {
      assert !Before(t.index[i], t.index[j]);
    }
    var frame := Restrict(t, keep);
    if keep != [] {
      OneRowOneName(frame, keep[0]);
    } else {
      OneRowOneName(frame, start);
    }
    SelectRangeErrors(t, start, end);
  }
}

/** The two classes of the parser: `PlateParser`, whose frame is filled in place from the
    file texts and then sorted, and `Plate`, the single-test report cut out of it. */
module Parsing {
  import opened Wrappers
  import opened Splitting
  import opened DateTimes
  import opened Matchers
  import opened Tables
  import opened Queries

  // ------------------------------------------------------------------ Plate

  const ElapsedColumn := "elapsed"
  const DatetimeColumn := "datetime"

  /** The columns a plate moves to the front, in this order. */
  const Front := [TestnameColumn, ElapsedColumn, DatetimeColumn]

  /** One row of a plate's frame: the test name, the time since the first row in seconds,
      the original timestamp and the well cells. */
  datatype PlateRow = PlateRow(testname: Option<string>, elapsed: int, datetime: DateTime, cells: map<string, string>)

  /** `index - index[0]`: the elapsed time of every row, in seconds. */
  function ElapsedOf(index: seq<DateTime>): (r: seq<int>)
    requires index != [] && forall d :: d in index ==> Valid(d)
    ensures |r| == |index| && r[0] == 0
  {
    seq(|index|, i requires 0 <= i < |index| => Elapsed(index[0], index[i]))
  }

  /** On an ascending index the elapsed times start at zero and strictly increase, and
      each is the distance from the first timestamp. */
  lemma ElapsedIncreases(index: seq<DateTime>)
    requires index != [] && (forall d :: d in index ==> Valid(d)) && Ascending(index)
    ensures forall i :: 0 <= i < |index| ==> ElapsedOf(index)[i] >= 0
    ensures forall i, j :: 0 <= i < j < |index| ==> ElapsedOf(index)[i] < ElapsedOf(index)[j]
    ensures forall i :: 0 <= i < |index| ==> Seconds(index[0]) + ElapsedOf(index)[i] == Seconds(index[i])
  {
    var e := ElapsedOf(index);
    forall i, j | 0 <= i < j < |index| ensures e[i] < e[j] {
      BeforeIsEarlier(index[i], index[j]);
    }
    forall i | 0 < i < |index| ensures e[i] >= 0 {
      BeforeIsEarlier(index[0], index[i]);
    }
  }

  /** The elements of `cols` that are not in `xs`, in their order. */
  function Without(cols: seq<string>, xs: seq<string>): (r: seq<string>)
    ensures forall c :: c in r <==> c in cols && c !in xs
  {
    if cols == [] then []
    else if cols[0] in xs then Without(cols[1..], xs)
    else [cols[0]] + Without(cols[1..], xs)
  }

  /** `list.remove(x)`: drops the first occurrence of `x`. */
  function RemoveFirst(s: seq<string>, x: string): seq<string> {
    if s == [] then []
    else if s[0] == x then s[1..]
    else [s[0]] + RemoveFirst(s[1..], x)
  }

  /** Removing `x` from what is left after removing `xs` is removing `xs + [x]`. */
  lemma {:induction false} RemoveAfterWithout(cols: seq<string>, xs: seq<string>, x: string)
    requires Distinct(cols) && x !in xs
    ensures RemoveFirst(Without(cols, xs), x) == Without(cols, xs + [x])
    decreases |cols|
  {
    if cols != [] {
      assert Distinct(cols[1..]) by {
        forall i, j | 0 <= i < j < |cols[1..]| ensures cols[1..][i] != cols[1..][j] {
          assert cols[1..][i] == cols[i + 1] && cols[1..][j] == cols[j + 1];
        }
      }
      RemoveAfterWithout(cols[1..], xs, x);
      if cols[0] == x {
        assert x !in cols[1..] by {
          forall k | 0 <= k < |cols[1..]| ensures cols[1..][k] != x {
            assert cols[1..][k] == cols[k + 1];
          }
        }
        WithoutAbsent(cols[1..], xs, x);
      }
    }
  }

  /** Adding to `xs` an element `cols` does not hold changes nothing. */
  lemma {:induction false} WithoutAbsent(cols: seq<string>, xs: seq<string>, x: string)
    requires x !in cols
    ensures Without(cols, xs + [x]) == Without(cols, xs)
    decreases |cols|
  {
    if cols != [] {
      WithoutAbsent(cols[1..], xs, x);
    }
  }

  /** The column reorder of `Plate.__init__`: `remove` each of `Front`, then `insert`
      each at its position. */
  method MoveToFront(cols: seq<string>) returns (r: seq<string>)
    requires Distinct(cols) && forall x :: x in Front ==> x in cols
    ensures r == Front + Without(cols, Front)
  {
    assert Without(cols, []) == cols by { WithoutNothing(cols); }
    r := cols;
    var k := 0;
    while k < |Front|
      invariant 0 <= k <= |Front|
      invariant r == Without(cols, Front[..k])
    {
      RemoveAfterWithout(cols, Front[..k], Front[k]);
      assert Front[..k] + [Front[k]] == Front[..k + 1];
      r := RemoveFirst(r, Front[k]);
      k := k + 1;
    }
    assert Front[..k] == Front;
    var rest := r;
    var i := 0;
    while i < |Front|
      invariant 0 <= i <= |Front|
      invariant r == Front[..i] + rest
    {
      assert i <= |r|;
      r := r[..i] + [Front[i]] + r[i..];
      assert Front[..i + 1] == Front[..i] + [Front[i]];
      i := i + 1;
    }
  }

  lemma {:induction false} WithoutNothing(cols: seq<string>)
    ensures Without(cols, []) == cols
    decreases |cols|
  {
    if cols != [] {
      WithoutNothing(cols[1..]);
    }
  }

  /** The frame of one test, with the columns and the index a report needs. */
  class Plate {
    var testname: Option<string>
    var columns: seq<string>
    var index: seq<int>
    var rows: seq<PlateRow>

    /** This plate is the reshaping of `frame` named `name`: the same rows in the same
        order, `elapsed` and `datetime` filled in, the index `0..n-1`, the columns
        `testname, elapsed, datetime` and then the others in their order. */
    ghost predicate Reshapes(frame: Table, name: Option<string>)
      reads this
      requires WellFormed(frame) && |frame.index| >= 1
    {
      && testname == name
      && |rows| == |frame.index|
      && index == seq(|frame.index|, i => i)
      && columns == Front + Without(frame.columns + [ElapsedColumn, DatetimeColumn], Front)
      && forall i :: 0 <= i < |rows| ==>
           var d := frame.index[i];
           rows[i] == PlateRow(frame.rows[d].testname, ElapsedOf(frame.index)[i], d, frame.rows[d].cells)
    }

    /** `Plate(well_data, testname)`. */
    constructor (frame: Table, name: Option<string>)
      requires WellFormed(frame) && |frame.index| >= 1
      ensures Reshapes(frame, name)
    {
      testname := name;
      var n := |frame.index|;
      var elapsed := ElapsedOf(frame.index);
      var datetime := frame.index;
      rows := seq(n, i requires 0 <= i < n =>
        PlateRow(frame.rows[frame.index[i]].testname, elapsed[i], datetime[i], frame.rows[frame.index[i]].cells));
      var cols := frame.columns + [ElapsedColumn, DatetimeColumn];
      index := seq(n, i => i);
      WellIdsAreNotFront(frame);
      cols := MoveToFront(cols);
      columns := cols;
    }
  }

  /** The columns of a well-formed frame are `testname` and well ids, so adding `elapsed`
      and `datetime` keeps them distinct. */
  lemma WellIdsAreNotFront(frame: Table)
    requires WellFormed(frame)
    ensures var cols := frame.columns + [ElapsedColumn, DatetimeColumn];
      Distinct(cols) && forall x :: x in Front ==> x in cols
  {
    var cols := frame.columns + [ElapsedColumn, DatetimeColumn];
    forall k | 1 <= k < |frame.columns|
      ensures frame.columns[k] != ElapsedColumn && frame.columns[k] != DatetimeColumn
    {
      assert IsWellId(frame.columns[k]);
    }
    assert cols[0] == TestnameColumn;
  }

  /** A plate's columns are `testname, elapsed, datetime`, then the frame's wells in
      their order: a permutation of the frame's columns and the two new ones. */
  lemma PlateColumns(frame: Table)
    requires WellFormed(frame)
    ensures var cols := frame.columns + [ElapsedColumn, DatetimeColumn];
      && Front + Without(cols, Front) == Front + frame.columns[1..]
      && multiset(Front + Without(cols, Front)) == multiset(cols)
  {
    var cols := frame.columns + [ElapsedColumn, DatetimeColumn];
    WellIdsAreNotFront(frame);
    assert cols == [TestnameColumn] + (frame.columns[1..] + [ElapsedColumn, DatetimeColumn]);
    WellsKept(frame.columns[1..]);
    assert frame.columns == [TestnameColumn] + frame.columns[1..];
  }

  lemma {:induction false} WellsKept(wells: seq<string>)
    requires forall k :: 0 <= k < |wells| ==> IsWellId(wells[k])
    ensures Without([TestnameColumn] + (wells + [ElapsedColumn, DatetimeColumn]), Front) == wells
    decreases |wells|
  {
    var cols := [TestnameColumn] + (wells + [ElapsedColumn, DatetimeColumn]);
    assert cols[1..] == wells + [ElapsedColumn, DatetimeColumn];
    WellsKeptTail(wells);
  }

  lemma {:induction false} WellsKeptTail(wells: seq<string>)
    requires forall k :: 0 <= k < |wells| ==> IsWellId(wells[k])
    ensures Without(wells + [ElapsedColumn, DatetimeColumn], Front) == wells
    decreases |wells|
  {
    if wells == [] {
      assert wells + [ElapsedColumn, DatetimeColumn] == [ElapsedColumn, DatetimeColumn];
      assert Front[1] == ElapsedColumn && Front[2] == DatetimeColumn;
      assert [ElapsedColumn, DatetimeColumn][1..] == [DatetimeColumn];
      assert Without([DatetimeColumn], Front) == [] by {
        assert [DatetimeColumn][1..] == [];
      }
    } else {
      assert IsWellId(wells[0]);
      assert (wells + [ElapsedColumn, DatetimeColumn])[1..] == wells[1..] + [ElapsedColumn, DatetimeColumn];
      WellsKeptTail(wells[1..]);
    }
  }

  // ------------------------------------------------------------------ PlateParser

  /** The parser: its frame is a row order, a map from timestamp to row and a column order. */
  class PlateParser {
    var index: seq<DateTime>
    var rows: map<DateTime, Row>
    var columns: seq<string>

    function Value(): Table
      reads this
    {
      Table(index, rows, columns)
    }

    ghost predicate Valid()
      reads this
    {
      WellFormed(Value())
    }

    /** `pd.DataFrame(columns=["testname"])`. */
    constructor ()
      ensures Value() == EmptyTable && Valid()
    {
      index, rows, columns := [], map[], [TestnameColumn];
    }

    /** `self._data.loc[d, w] = v`. */
    method SetCell(d: DateTime, w: string, v: string)
      requires Valid() && DateTimes.Valid(d) && IsWellId(w)
      modifies this
      ensures Value() == Tables.SetCell(old(Value()), d, w, v) && Valid()
    {
      SetCellWellFormed(Value(), d, w, v);
      var row := if d in rows then rows[d] else Row(None, map[]);
      if d !in rows {
        index := index + [d];
      }
      rows := rows[d := row.(cells := row.cells[w := v])];
      if w !in columns {
        columns := columns + [w];
      }
    }

    /** `self._data.loc[d, "testname"] = n`. */
    method SetTestname(d: DateTime, n: Option<string>)
      requires Valid() && DateTimes.Valid(d)
      modifies this
      ensures Value() == Tables.SetTestname(old(Value()), d, n) && Valid()
    {
      SetTestnameWellFormed(Value(), d, n);
      var row := if d in rows then rows[d] else Row(None, map[]);
      if d !in rows {
        index := index + [d];
      }
      rows := rows[d := row.(testname := n)];
    }

    /** The cell writes of one block, in `findall` order. */
    method SetCells(dt: DateTime, data: seq<Reading>)
      requires Valid() && DateTimes.Valid(dt) && forall k :: 0 <= k < |data| ==> IsWellId(data[k].well)
      modifies this
      ensures Value() == ApplyReadings(old(Value()), dt, data) && Valid()
    {
      ghost var t0 := Value();
      var k := 0;
      while k < |data|
        invariant 0 <= k <= |data|
        invariant Value() == ApplyReadings(t0, dt, data[..k]) && Valid()
      {
        assert data[..k + 1][..k] == data[..k];
        SetCell(dt, data[k].well, data[k].value);
        k := k + 1;
      }
      assert data[..k] == data;
    }

    /** One block: its fields (an error ends the parse), then the cell writes and the
        test name. */
    method ParseBlockInto(block: string) returns (err: Option<Error>)
      requires Valid()
      modifies this
      ensures err.None? <==> IngestBlock(old(Value()), block).Ok?
      ensures err.Some? ==> IngestBlock(old(Value()), block) == Err(err.value)
      ensures err.None? ==> Value() == IngestBlock(old(Value()), block).value
      ensures Valid()
    {
      var parsed := ParseBlock(block);
      if parsed.Err? {
        return Some(parsed.error);
      }
      var rec := parsed.value;
      SetCells(rec.timestamp, rec.readings);
      SetTestname(rec.timestamp, rec.testname);
      return None;
    }

    /** The blocks of one file in order; the first failing block ends the parse. */
    method ParseBlocksInto(blocks: seq<string>) returns (err: Option<Error>)
      requires Valid()
      modifies this
      ensures err.None? <==> IngestBlocks(old(Value()), blocks).Ok?
      ensures err.Some? ==> IngestBlocks(old(Value()), blocks) == Err(err.value)
      ensures err.None? ==> Value() == IngestBlocks(old(Value()), blocks).value
      ensures Valid()
    {
      ghost var t0 := Value();
      var j := 0;
      while j < |blocks|
        invariant 0 <= j <= |blocks|
        invariant IngestBlocks(t0, blocks[..j]) == Ok(Value()) && Valid()
      {
        IngestBlocksNext(t0, blocks, j);
        err := ParseBlockInto(blocks[j]);
        if err.Some? {
          BlocksErrorSticks(t0, blocks, j + 1);
          return;
        }
        j := j + 1;
      }
      assert blocks[..j] == blocks;
      return None;
    }

    /** `parse_files` over the texts of the files: `None` or no paths is refused; each text
        is split on the delimiter and its blocks are read in order. */
    method ParseFiles(paths: Option<seq<string>>) returns (err: Option<Error>)
      requires Valid()
      modifies this
      ensures err.None? <==> Ingest(old(Value()), paths).Ok?
      ensures err.Some? ==> Ingest(old(Value()), paths) == Err(err.value)
      ensures err.None? ==> Value() == Ingest(old(Value()), paths).value
      ensures Valid()
    {
      if paths.None? || |paths.value| == 0 {
        return Some(NoInputPaths);
      }
      var files := paths.value;
      ghost var t0 := Value();
      var i := 0;
      while i < |files|
        invariant 0 <= i <= |files|
        invariant IngestFiles(t0, files[..i]) == Ok(Value()) && Valid()
      {
        IngestFilesNext(t0, files, i);
        var blocks := Split(files[i], Delimiter);
        err := ParseBlocksInto(blocks);
        if err.Some? {
          FilesErrorSticks(t0, files, i + 1);
          return;
        }
        i := i + 1;
      }
      assert files[..i] == files;
      return None;
    }

    /** `sort_index()`. */
    method SortIndex()
      requires Valid()
      modifies this
      ensures Value() == SortTable(old(Value())) && Valid() && Ascending(index)
    {
      SortTableWellFormed(Value());
      index := SortDates(index);
    }

    /** `PlateParser(paths)`: read the files into an empty frame, then sort it. An error
        while reading means no parser. */
    static method Load(paths: Option<seq<string>>) returns (r: Result<PlateParser, Error>)
      ensures r.Ok? <==> Ingest(EmptyTable, paths).Ok?
      ensures r.Err? ==> Ingest(EmptyTable, paths) == Err(r.error)
      ensures r.Ok? ==> fresh(r.value) && r.value.Valid() && Ascending(r.value.index)
                        && r.value.Value() == SortTable(Ingest(EmptyTable, paths).value)
    {
      var p := new PlateParser();
      var err := p.ParseFiles(paths);
      if err.Some? {
        return Err(err.value);
      }
      p.SortIndex();
      return Ok(p);
    }

    /** `testnames`: every name some row carries, once; a missing name counts once. */
    function Testnames(): (names: set<Option<string>>)
      reads this
      ensures forall n :: n in names <==> exists d :: d in rows && rows[d].testname == n
    {
      Queries.Testnames(Value())
    }

    /** `dates`: the index; once loaded it is ascending and lists every row once. */
    function Dates(): (ds: seq<DateTime>)
      reads this
      ensures Valid() ==> Distinct(ds) && forall d :: d in ds <==> d in rows
    {
      index
    }

    /** `plate_from_testname`: the plate of the rows carrying `name`. */
    method PlateFromTestname(name: string) returns (r: Result<Plate, Error>)
      requires Valid()
      ensures r.Err? <==> Some(name) !in Testnames()
      ensures r.Err? ==> r.error == UnknownTestname
      ensures r.Ok? ==> fresh(r.value) && SelectByName(Value(), name).Ok?
                        && r.value.Reshapes(SelectByName(Value(), name).value.frame, Some(name))
    {
      var s := SelectByName(Value(), name);
      if s.Err? {
        return Err(s.error);
      }
      var plate := new Plate(s.value.frame, s.value.testname);
      return Ok(plate);
    }

    /** `plate_from_daterange`: the plate of the rows from `start` to `end`. */
    method PlateFromDateRange(start: DateTime, end: DateTime) returns (r: Result<Plate, Error>)
      requires Valid()
      ensures r.Err? <==> SelectRange(Value(), start, end).Err?
      ensures r.Err? ==> SelectRange(Value(), start, end) == Err(r.error)
      ensures r.Ok? ==> fresh(r.value) && SelectRange(Value(), start, end).Ok?
                        && var s := SelectRange(Value(), start, end).value;
                           WellFormed(s.frame) && |s.frame.index| >= 2 && r.value.Reshapes(s.frame, s.testname)
    {
      var s := SelectRange(Value(), start, end);
      if s.Err? {
        return Err(s.error);
      }
      SelectRangeRows(Value(), start, end);
      var plate := new Plate(s.value.frame, s.value.testname);
      return Ok(plate);
    }
  }
}

/** The parser's table as a value: one row per timestamp (a test name and the well
    cells), the row order of the frame's index and its column order. Ingestion of
    file texts, the final sort and the two selection queries are functions on it;
    the class `PlateParser` runs them in place. */
module Tables {
  import opened Wrappers
  import opened Text
  import opened Splitting
  import opened DateTimes
  import opened Matchers

  /** The block delimiter: 86 dashes. */
  const Delimiter: string := "--------------------------------------------------------------------------------------"

  const TestnameColumn := "testname"

  /** What the parser raises, by kind. */
  datatype Error =
    | NoInputPaths        // PlateParserError: no input paths given
    | MissingDateOrTime   // TypeError: a block without a date or a time (indexing None)
    | InvalidDateTime     // ValueError from datetime(...): fields out of calendar range
    | UnknownTestname     // ValueError: not a test name of the data
    | InvalidStartDate    // ValueError: start is not exactly a timestamp of the index
    | InvalidEndDate      // ValueError: end is not exactly a timestamp of the index
    | MultipleTestnames   // PlateParserError: more than one test name in the range
    | IndexOutOfRange     // IndexError: the range has no second row

  /** What one block contributes: its test name match, its timestamp, its well pairs. */
  datatype Record = Record(testname: Option<string>, timestamp: DateTime, readings: seq<Reading>)

  /** A row: the `testname` cell (None for a missing name) and the well cells that are set. */
  datatype Row = Row(testname: Option<string>, cells: map<string, string>)

  datatype Table = Table(index: seq<DateTime>, rows: map<DateTime, Row>, columns: seq<string>)

  /** The frame before any file is read: no rows, the single column `testname`. */
  const EmptyTable := Table([], map[], [TestnameColumn])

  predicate Distinct<T(==)>(s: seq<T>) {
    forall i, j :: 0 <= i < j < |s| ==> s[i] != s[j]
  }

  predicate Ascending(s: seq<DateTime>) {
    forall i, j :: 0 <= i < j < |s| ==> Before(s[i], s[j])
  }

  /** Every timestamp is a row once, every timestamp passed the datetime checks, the
      first column is `testname`, the other columns are distinct well ids and hold
      every cell that is set. */
  ghost predicate WellFormed(t: Table) {
    && Distinct(t.index)
    && (forall d :: d in t.rows <==> d in t.index)
    && (forall d :: d in t.rows ==> Valid(d))
    && |t.columns| >= 1 && t.columns[0] == TestnameColumn && Distinct(t.columns)
    && (forall k :: 1 <= k < |t.columns| ==> IsWellId(t.columns[k]))
    && CellsListed(t)
  }

  /** Every cell that is set is in a well column. */
  predicate CellsListed(t: Table) {
    forall d, w :: d in t.rows && w in t.rows[d].cells ==> w in t.columns && IsWellId(w)
  }

  // ------------------------------------------------------------------ one block

  /** `datetime(day=..., month=..., year=..., hour=..., minute=..., second=...)` from the
      matched fields. */
  function Stamp(date: DateFields, time: TimeFields): DateTime {
    DateTime(date.year, date.month, date.day, time.hour, time.minute, time.second)
  }

  /** A record as `ParseBlock` returns it: a timestamp `datetime(...)` accepted, and well
      ids from the well pattern. */
  predicate Parsed(rec: Record) {
    Valid(rec.timestamp) && forall k :: 0 <= k < |rec.readings| ==> IsWellId(rec.readings[k].well)
  }

  /** The fields of one block: the three matchers, then `datetime(...)`, then the wells. */
  function ParseBlock(block: string): (r: Result<Record, Error>)
    ensures r.Ok? ==> Parsed(r.value)
  {
    var testname := MatchTestname(block);
    var time := MatchTime(block);
    var date := MatchDate(block);
    if date.None? || time.None? then Err(MissingDateOrTime)
    else
      var dt := Stamp(date.value, time.value);
      if !Valid(dt) then Err(InvalidDateTime)
      else Ok(Record(testname, dt, MatchWells(block)))
  }

  /** A block fails with `MissingDateOrTime` exactly when it lacks a date or a time, and
      with `InvalidDateTime` exactly when the date and time it has are no calendar
      timestamp; otherwise the record holds the timestamp built from the matched fields,
      the test name match (`None` included) and every `findall` pair. */
  lemma ParseBlockSpec(block: string)
    ensures ParseBlock(block) == Err(MissingDateOrTime) <==> MatchDate(block).None? || MatchTime(block).None?
    ensures ParseBlock(block) == Err(InvalidDateTime) <==>
      && MatchDate(block).Some? && MatchTime(block).Some?
      && !Valid(Stamp(MatchDate(block).value, MatchTime(block).value))
    ensures ParseBlock(block).Ok? ==>
      && MatchDate(block).Some? && MatchTime(block).Some?
      && ParseBlock(block).value.timestamp == Stamp(MatchDate(block).value, MatchTime(block).value)
      && ParseBlock(block).value.testname == MatchTestname(block)
      && ParseBlock(block).value.readings == MatchWells(block)
  {
  }

  /** `.loc[d, w] = v`: sets one cell, adding the row and the column when they are new. */
  function SetCell(t: Table, d: DateTime, w: string, v: string): Table {
    var row := if d in t.rows then t.rows[d] else Row(None, map[]);
    Table(if d in t.rows then t.index else t.index + [d],
          t.rows[d := row.(cells := row.cells[w := v])],
          if w in t.columns then t.columns else t.columns + [w])
  }

  /** `.loc[d, "testname"] = n`, adding the row when it is new. */
  function SetTestname(t: Table, d: DateTime, n: Option<string>): Table {
    var row := if d in t.rows then t.rows[d] else Row(None, map[]);
    Table(if d in t.rows then t.index else t.index + [d], t.rows[d := row.(testname := n)], t.columns)
  }

  /** The cell writes of one block, in the order `findall` returned the pairs. */
  function ApplyReadings(t: Table, d: DateTime, rs: seq<Reading>): Table
    decreases |rs|
  {
    if rs == [] then t
    else
      var last := rs[|rs| - 1];
      SetCell(ApplyReadings(t, d, rs[..|rs| - 1]), d, last.well, last.value)
  }

  function IngestRecord(t: Table, rec: Record): Table {
    SetTestname(ApplyReadings(t, rec.timestamp, rec.readings), rec.timestamp, rec.testname)
  }

  /** The upsert of one parse result; an error is passed on and leaves no table. */
  function IngestParsed(t: Table, parsed: Result<Record, Error>): Result<Table, Error> {
    match parsed
    case Err(e) => Err(e)
    case Ok(rec) => Ok(IngestRecord(t, rec))
  }

  /** One block: its fields, then its upsert. */
  function IngestBlock(t: Table, block: string): Result<Table, Error> {
    IngestParsed(t, ParseBlock(block))
  }

  /** The parse results in order; the first error ends the parse. */
  function IngestAll(t: Table, results: seq<Result<Record, Error>>): Result<Table, Error>
    decreases |results|
  {
    if results == [] then Ok(t)
    else
      match IngestAll(t, results[..|results| - 1])
      case Err(e) => Err(e)
      case Ok(t') => IngestParsed(t', results[|results| - 1])
  }

  /** `f` applied to each element, in order. */
  function Map<A, B>(f: A -> B, s: seq<A>): seq<B> {
    seq(|s|, i requires 0 <= i < |s| => f(s[i]))
  }

  /** The parse of each block, in order. */
  function Parses(blocks: seq<string>): seq<Result<Record, Error>> {
    Map(ParseBlock, blocks)
  }

  /** The blocks of one file in order: each is parsed and upserted, and the first failing
      block ends the parse. */
  function IngestBlocks(t: Table, blocks: seq<string>): Result<Table, Error> {
    IngestAll(t, Parses(blocks))
  }

  /** The files in order, each split on the delimiter. */
  function IngestFiles(t: Table, files: seq<string>): Result<Table, Error>
    decreases |files|
  {
    if files == [] then Ok(t)
    else
      match IngestFiles(t, files[..|files| - 1])
      case Err(e) => Err(e)
      case Ok(t') => IngestBlocks(t', Split(files[|files| - 1], Delimiter))
  }

  /** `parse_files`: `None` or no paths is refused before any file is read. */
  function Ingest(t: Table, paths: Option<seq<string>>): Result<Table, Error> {
    if paths.None? || |paths.value| == 0 then Err(NoInputPaths) else IngestFiles(t, paths.value)
  }

  // ------------------------------------------------------------------ ingestion lemmas

  lemma SetCellWellFormed(t: Table, d: DateTime, w: string, v: string)
    requires WellFormed(t) && Valid(d) && IsWellId(w)
    ensures WellFormed(SetCell(t, d, w, v))
  {
    var t' := SetCell(t, d, w, v);
    assert w != TestnameColumn;
    SetCellListed(t, d, w, v);
    if d !in t.rows {
      forall i, j | 0 <= i < j < |t'.index| ensures t'.index[i] != t'.index[j] {
        if j == |t.index| { assert t.index[i] in t.index; }
      }
    }
    if w !in t.columns {
      forall i, j | 0 <= i < j < |t'.columns| ensures t'.columns[i] != t'.columns[j] {
        if j == |t.columns| { assert t.columns[i] in t.columns; }
      }
    }
  }

  /** A cell written in a well column keeps every set cell in a well column. */
  lemma SetCellListed(t: Table, d: DateTime, w: string, v: string)
    requires CellsListed(t) && IsWellId(w)
    ensures CellsListed(SetCell(t, d, w, v))
  {
    var t' := SetCell(t, d, w, v);
    forall d', w' | d' in t'.rows && w' in t'.rows[d'].cells ensures w' in t'.columns && IsWellId(w') {
      if d' != d {
        assert t'.rows[d'] == t.rows[d'];
      } else if w' != w {
        assert w' in t.rows[d].cells;
      }
    }
  }

  lemma SetTestnameWellFormed(t: Table, d: DateTime, n: Option<string>)
    requires WellFormed(t) && Valid(d)
    ensures WellFormed(SetTestname(t, d, n))
  {
    var t' := SetTestname(t, d, n);
    assert CellsListed(t') by {
      forall d', w' | d' in t'.rows && w' in t'.rows[d'].cells ensures w' in t'.columns && IsWellId(w') {
        assert d' in t.rows && w' in t.rows[d'].cells;
      }
    }
    if d !in t.rows {
      forall i, j | 0 <= i < j < |t'.index| ensures t'.index[i] != t'.index[j] {
        if j == |t.index| { assert t.index[i] in t.index; }
      }
    }
  }

  /** The cells of row `d`; none when there is no such row. */
  function CellsOf(t: Table, d: DateTime): map<string, string> {
    if d in t.rows then t.rows[d].cells else map[]
  }

  /** Some pair of `rs` names well `w`. */
  predicate Names(rs: seq<Reading>, w: string) {
    exists k :: 0 <= k < |rs| && rs[k].well == w
  }

  /** Pair `k` is the last pair of `rs` for its well. */
  predicate LastFor(rs: seq<Reading>, k: int) {
    0 <= k < |rs| && forall j :: k < j < |rs| ==> rs[j].well != rs[k].well
  }

  /** The wells named by all pairs but the last, or by the last. */
  lemma NamesSplit(rs: seq<Reading>, w: string)
    requires rs != []
    ensures Names(rs, w) <==> Names(rs[..|rs| - 1], w) || rs[|rs| - 1].well == w
  {
    var init := rs[..|rs| - 1];
    if Names(init, w) {
      var k :| 0 <= k < |init| && init[k].well == w;
      assert rs[k].well == w;
    }
    if Names(rs, w) && rs[|rs| - 1].well != w {
      var k :| 0 <= k < |rs| && rs[k].well == w;
      assert init[k].well == w;
    }
  }

  /** The cell writes of one block add row `d` when there is at least one pair, at the
      end of the index when it is new. */
  lemma {:induction false} ApplyReadingsKeys(t: Table, d: DateTime, rs: seq<Reading>)
    ensures var t' := ApplyReadings(t, d, rs);
      && t'.rows.Keys == (if rs == [] then t.rows.Keys else t.rows.Keys + {d})
      && t'.index == (if d in t.rows || rs == [] then t.index else t.index + [d])
    decreases |rs|
  {
    if rs != [] {
      ApplyReadingsKeys(t, d, rs[..|rs| - 1]);
    }
  }

  /** The cell writes of one block keep the table well formed. */
  lemma {:induction false} ApplyReadingsWellFormed(t: Table, d: DateTime, rs: seq<Reading>)
    requires WellFormed(t) && Valid(d) && forall k :: 0 <= k < |rs| ==> IsWellId(rs[k].well)
    ensures WellFormed(ApplyReadings(t, d, rs))
    decreases |rs|
  {
    if rs != [] {
      var init := rs[..|rs| - 1];
      ApplyReadingsWellFormed(t, d, init);
      SetCellWellFormed(ApplyReadings(t, d, init), d, rs[|rs| - 1].well, rs[|rs| - 1].value);
    }
  }

  /** The cell writes of one block touch only row `d`, and keep its test name (None on a
      new row). */
  lemma {:induction false} ApplyReadingsRows(t: Table, d: DateTime, rs: seq<Reading>)
    ensures var t' := ApplyReadings(t, d, rs);
      && (forall d' :: d' in t.rows && d' != d ==> d' in t'.rows && t'.rows[d'] == t.rows[d'])
      && (d in t.rows ==> d in t'.rows && t'.rows[d].testname == t.rows[d].testname)
      && (d in t'.rows && d !in t.rows ==> t'.rows[d].testname == None)
    decreases |rs|
  {
    if rs != [] {
      ApplyReadingsRows(t, d, rs[..|rs| - 1]);
    }
  }

  /** The cell writes of one block append the wells it names to the columns, each once. */
  lemma {:induction false} ApplyReadingsColumns(t: Table, d: DateTime, rs: seq<Reading>)
    ensures var t' := ApplyReadings(t, d, rs);
      && t.columns <= t'.columns
      && (forall w :: w in t'.columns <==> w in t.columns || Names(rs, w))
    decreases |rs|
  {
    if rs != [] {
      ApplyReadingsColumns(t, d, rs[..|rs| - 1]);
      forall w ensures Names(rs, w) <==> Names(rs[..|rs| - 1], w) || rs[|rs| - 1].well == w {
        NamesSplit(rs, w);
      }
    }
  }

  /** The cell writes of one block on row `d`: for each well the block names its last
      pair wins, and a well the block does not name keeps its cell (or its absence). */
  lemma {:induction false} ApplyReadingsCells(t: Table, d: DateTime, rs: seq<Reading>)
    ensures var c, c' := CellsOf(t, d), CellsOf(ApplyReadings(t, d, rs), d);
      && (forall k :: LastFor(rs, k) ==> rs[k].well in c' && c'[rs[k].well] == rs[k].value)
      && (forall w :: !Names(rs, w) ==> (w in c' <==> w in c) && (w in c ==> c'[w] == c[w]))
    decreases |rs|
  {
    if rs != [] {
      var init := rs[..|rs| - 1];
      var last := rs[|rs| - 1];
      ApplyReadingsCells(t, d, init);
      var c, cm, c' := CellsOf(t, d), CellsOf(ApplyReadings(t, d, init), d), CellsOf(ApplyReadings(t, d, rs), d);
      assert c' == cm[last.well := last.value];
      forall k | LastFor(rs, k) ensures rs[k].well in c' && c'[rs[k].well] == rs[k].value {
        if k < |rs| - 1 {
          assert init[k] == rs[k];
          assert LastFor(init, k);
        }
      }
      forall w | !Names(rs, w) ensures (w in c' <==> w in c) && (w in c ==> c'[w] == c[w]) {
        NamesSplit(rs, w);
      }
    }
  }

  /** Upserting one record writes its row: the test name is the record's (None included),
      the last pair of each well it names wins, and every well it does not name keeps
      its cell (or its absence). */
  lemma RecordRow(t: Table, rec: Record)
    ensures var t', d, rs := IngestRecord(t, rec), rec.timestamp, rec.readings;
      && d in t'.rows
      && t'.rows[d].testname == rec.testname
      && (forall k :: LastFor(rs, k) ==> rs[k].well in t'.rows[d].cells && t'.rows[d].cells[rs[k].well] == rs[k].value)
      && (forall w :: !Names(rs, w) ==> (w in t'.rows[d].cells <==> w in CellsOf(t, d))
                                        && (w in CellsOf(t, d) ==> t'.rows[d].cells[w] == CellsOf(t, d)[w]))
  {
    var d := rec.timestamp;
    ApplyReadingsCells(t, d, rec.readings);
    assert IngestRecord(t, rec).rows[d].cells == CellsOf(ApplyReadings(t, d, rec.readings), d);
  }

  /** Upserting one record leaves every other row as it was. */
  lemma RecordOthers(t: Table, rec: Record)
    ensures var t', d := IngestRecord(t, rec), rec.timestamp;
      forall d' :: d' in t.rows && d' != d ==> d' in t'.rows && t'.rows[d'] == t.rows[d']
  {
    ApplyReadingsRows(t, rec.timestamp, rec.readings);
  }

  /** Upserting one record adds its timestamp to the rows, at the end of the index when
      it is new. */
  lemma RecordKeys(t: Table, rec: Record)
    ensures var t', d := IngestRecord(t, rec), rec.timestamp;
      && t'.rows.Keys == t.rows.Keys + {d}
      && t'.index == (if d in t.rows then t.index else t.index + [d])
  {
    ApplyReadingsKeys(t, rec.timestamp, rec.readings);
  }

  /** Upserting one record keeps the table well formed and only appends columns. */
  lemma RecordWellFormed(t: Table, rec: Record)
    requires WellFormed(t) && Parsed(rec)
    ensures WellFormed(IngestRecord(t, rec)) && t.columns <= IngestRecord(t, rec).columns
  {
    var d := rec.timestamp;
    ApplyReadingsWellFormed(t, d, rec.readings);
    ApplyReadingsColumns(t, d, rec.readings);
    SetTestnameWellFormed(ApplyReadings(t, d, rec.readings), d, rec.testname);
  }

  /** Ingesting one parsed block upserts the row at its timestamp: the last pair of each
      well named in the block wins, the test name is the block's match (None included),
      and every other row and every well the block does not name keep their values. */
  lemma RecordEffect(t: Table, rec: Record)
    requires WellFormed(t) && Parsed(rec)
    ensures var t', d, rs := IngestRecord(t, rec), rec.timestamp, rec.readings;
      && WellFormed(t')
      && t'.rows.Keys == t.rows.Keys + {d}
      && t'.index == (if d in t.rows then t.index else t.index + [d])
      && (forall d' :: d' in t.rows && d' != d ==> t'.rows[d'] == t.rows[d'])
      && t'.rows[d].testname == rec.testname
      && (forall k :: LastFor(rs, k) ==> rs[k].well in t'.rows[d].cells && t'.rows[d].cells[rs[k].well] == rs[k].value)
      && (forall w :: !Names(rs, w) ==> (w in t'.rows[d].cells <==> w in CellsOf(t, d))
                                        && (w in CellsOf(t, d) ==> t'.rows[d].cells[w] == CellsOf(t, d)[w]))
      && t.columns <= t'.columns
  {
    RecordKeys(t, rec);
    RecordWellFormed(t, rec);
    RecordRow(t, rec);
    RecordOthers(t, rec);
  }

  /** Parse results whose records are as `ParseBlock` returns them. */
  predicate AllSound(results: seq<Result<Record, Error>>) {
    forall i :: 0 <= i < |results| && results[i].Ok? ==> Parsed(results[i].value)
  }

  lemma ParsesSound(blocks: seq<string>)
    ensures |Parses(blocks)| == |blocks| && AllSound(Parses(blocks))
  {
    forall i | 0 <= i < |blocks| && Parses(blocks)[i].Ok? ensures Parsed(Parses(blocks)[i].value) {
      assert Parses(blocks)[i] == ParseBlock(blocks[i]);
    }
  }

  /** A successful ingestion of sound parse results keeps the table well formed. */
  lemma {:induction false} IngestAllWellFormed(t: Table, results: seq<Result<Record, Error>>)
    requires WellFormed(t) && AllSound(results) && IngestAll(t, results).Ok?
    ensures WellFormed(IngestAll(t, results).value)
    decreases |results|
  {
    if results != [] {
      var init := results[..|results| - 1];
      assert AllSound(init) by {
        forall i | 0 <= i < |init| ensures init[i] == results[i] { }
      }
      IngestAllWellFormed(t, init);
      RecordWellFormed(IngestAll(t, init).value, results[|results| - 1].value);
    }
  }

  lemma IngestBlocksWellFormed(t: Table, blocks: seq<string>)
    requires WellFormed(t) && IngestBlocks(t, blocks).Ok?
    ensures WellFormed(IngestBlocks(t, blocks).value)
  {
    ParsesSound(blocks);
    IngestAllWellFormed(t, Parses(blocks));
  }

  lemma {:induction false} IngestFilesWellFormed(t: Table, files: seq<string>)
    requires WellFormed(t) && IngestFiles(t, files).Ok?
    ensures WellFormed(IngestFiles(t, files).value)
    decreases |files|
  {
    if files != [] {
      var init := files[..|files| - 1];
      IngestFilesWellFormed(t, init);
      IngestBlocksWellFormed(IngestFiles(t, init).value, Split(files[|files| - 1], Delimiter));
    }
  }

  // ------------------------------------------------------------------ outcome of a parse

  /** Parse results are ingested exactly when none of them is an error. */
  lemma {:induction false} IngestAllOk(t: Table, results: seq<Result<Record, Error>>)
    ensures IngestAll(t, results).Ok? <==> forall i :: 0 <= i < |results| ==> results[i].Ok?
    decreases |results|
  {
    if results != [] {
      var init := results[..|results| - 1];
      IngestAllOk(t, init);
      assert forall i :: 0 <= i < |init| ==> init[i] == results[i];
    }
  }

  /** A block sequence is ingested exactly when every block of it parses. */
  lemma IngestBlocksOk(t: Table, blocks: seq<string>)
    ensures IngestBlocks(t, blocks).Ok? <==> forall i :: 0 <= i < |blocks| ==> ParseBlock(blocks[i]).Ok?
  {
    IngestAllOk(t, Parses(blocks));
    assert forall i :: 0 <= i < |blocks| ==> Parses(blocks)[i] == ParseBlock(blocks[i]);
  }

  /** The first error among the parse results ends the parse with that error. */
  lemma {:induction false} FirstErrorEndsParse(t: Table, results: seq<Result<Record, Error>>, i: int)
    requires 0 <= i < |results| && results[i].Err?
    requires forall j :: 0 <= j < i ==> results[j].Ok?
    ensures IngestAll(t, results) == Err(results[i].error)
    decreases |results|
  {
    var init := results[..|results| - 1];
    if i == |results| - 1 {
      IngestAllOk(t, init);
      assert forall j :: 0 <= j < |init| ==> init[j] == results[j];
    } else {
      assert init[i] == results[i];
      assert forall j :: 0 <= j < i ==> init[j] == results[j];
      FirstErrorEndsParse(t, init, i);
    }
  }

  /** The first block that does not parse ends the parse with its error. */
  lemma FirstFailureEndsParse(t: Table, blocks: seq<string>, i: int)
    requires 0 <= i < |blocks| && ParseBlock(blocks[i]).Err?
    requires forall j :: 0 <= j < i ==> ParseBlock(blocks[j]).Ok?
    ensures IngestBlocks(t, blocks) == Err(ParseBlock(blocks[i]).error)
  {
    var results := Parses(blocks);
    assert forall j :: 0 <= j <= i ==> results[j] == ParseBlock(blocks[j]);
    FirstErrorEndsParse(t, results, i);
  }

  /** The empty text is a block without a date: it fails. */
  lemma EmptyBlockFails()
    ensures ParseBlock("") == Err(MissingDateOrTime)
  {
    assert MatchDate("").None?;
  }

  // ------------------------------------------------------------------ parse, then upsert

  /** The records of all parse results in order, or the first error. */
  function Collect(results: seq<Result<Record, Error>>): (r: Result<seq<Record>, Error>)
    ensures r.Ok? ==> |r.value| == |results|
    decreases |results|
  {
    if results == [] then Ok([])
    else
      var init := Collect(results[..|results| - 1]);
      var last := results[|results| - 1];
      if init.Err? then init
      else if last.Err? then Err(last.error)
      else Ok(init.value + [last.value])
  }

  /** Record `k` of a successful `Collect` is parse result `k`. */
  lemma {:induction false} CollectRecord(results: seq<Result<Record, Error>>, k: int)
    requires Collect(results).Ok? && 0 <= k < |results|
    ensures results[k] == Ok(Collect(results).value[k])
    decreases |results|
  {
    if k < |results| - 1 {
      var init := results[..|results| - 1];
      CollectRecord(init, k);
      assert init[k] == results[k];
    }
  }

  predicate AllParsed(recs: seq<Record>) {
    forall k :: 0 <= k < |recs| ==> Parsed(recs[k])
  }

  lemma AllParsedInit(recs: seq<Record>)
    requires recs != [] && AllParsed(recs)
    ensures AllParsed(recs[..|recs| - 1]) && Parsed(recs[|recs| - 1])
  {
    var init := recs[..|recs| - 1];
    assert forall k :: 0 <= k < |init| ==> init[k] == recs[k];
  }

  lemma CollectSound(results: seq<Result<Record, Error>>)
    requires AllSound(results) && Collect(results).Ok?
    ensures AllParsed(Collect(results).value)
  {
    forall k | 0 <= k < |results| ensures Parsed(Collect(results).value[k]) {
      CollectRecord(results, k);
    }
  }

  /** The records of all blocks in order, or the error of the first block that fails. */
  function ParseAll(blocks: seq<string>): (r: Result<seq<Record>, Error>)
    ensures r.Ok? ==> |r.value| == |blocks| && AllParsed(r.value)
  {
    ParsesSound(blocks);
    if Collect(Parses(blocks)).Ok? then CollectSound(Parses(blocks)); Collect(Parses(blocks))
    else Collect(Parses(blocks))
  }

  /** Record `k` of a successful `ParseAll` is the parse of block `k`. */
  lemma ParseAllRecord(blocks: seq<string>, k: int)
    requires ParseAll(blocks).Ok? && 0 <= k < |blocks|
    ensures ParseBlock(blocks[k]) == Ok(ParseAll(blocks).value[k])
  {
    CollectRecord(Parses(blocks), k);
  }

  /** The upserts of the records in order. */
  function IngestRecords(t: Table, recs: seq<Record>): Table
    decreases |recs|
  {
    if recs == [] then t else IngestRecord(IngestRecords(t, recs[..|recs| - 1]), recs[|recs| - 1])
  }

  /** Upserting result by result, stopping at the first error, is collecting every record
      and then upserting them all: a failure leaves no table behind either way. */
  lemma {:induction false} CollectThenIngest(t: Table, results: seq<Result<Record, Error>>)
    ensures Collect(results).Err? ==> IngestAll(t, results) == Err(Collect(results).error)
    ensures Collect(results).Ok? ==> IngestAll(t, results) == Ok(IngestRecords(t, Collect(results).value))
    decreases |results|
  {
    if results != [] {
      var init := results[..|results| - 1];
      CollectThenIngest(t, init);
      if Collect(results).Ok? {
        var recs := Collect(init).value;
        assert (recs + [results[|results| - 1].value])[..|recs|] == recs;
      }
    }
  }

  /** Reading block by block, stopping at the first failure, is parsing every block and
      then upserting every record. */
  lemma ParseThenIngest(t: Table, blocks: seq<string>)
    ensures ParseAll(blocks).Err? ==> IngestBlocks(t, blocks) == Err(ParseAll(blocks).error)
    ensures ParseAll(blocks).Ok? ==> IngestBlocks(t, blocks) == Ok(IngestRecords(t, ParseAll(blocks).value))
  {
    CollectThenIngest(t, Parses(blocks));
  }

  /** The timestamps of the records. */
  function Timestamps(recs: seq<Record>): (stamps: set<DateTime>)
    ensures forall k :: 0 <= k < |recs| ==> recs[k].timestamp in stamps
    ensures forall d :: d in stamps ==> exists k :: 0 <= k < |recs| && recs[k].timestamp == d
  {
    set k | 0 <= k < |recs| :: recs[k].timestamp
  }

  lemma TimestampsInit(recs: seq<Record>)
    requires recs != []
    ensures Timestamps(recs) == Timestamps(recs[..|recs| - 1]) + {recs[|recs| - 1].timestamp}
  {
    var init := recs[..|recs| - 1];
    forall d | d in Timestamps(recs) ensures d in Timestamps(init) + {recs[|recs| - 1].timestamp} {
      var k :| 0 <= k < |recs| && recs[k].timestamp == d;
      if k < |init| { assert init[k] == recs[k]; }
    }
    forall d | d in Timestamps(init) ensures d in Timestamps(recs) {
      var k :| 0 <= k < |init| && init[k].timestamp == d;
      assert recs[k] == init[k];
    }
  }

  /** Upserting the records keeps the rows' order and appends one row per new timestamp:
      a timestamp seen twice is one row. */
  lemma {:induction false} IngestRecordsKeys(t: Table, recs: seq<Record>)
    ensures IngestRecords(t, recs).rows.Keys == t.rows.Keys + Timestamps(recs)
    ensures t.index <= IngestRecords(t, recs).index
    decreases |recs|
  {
    if recs != [] {
      var init := recs[..|recs| - 1];
      IngestRecordsKeys(t, init);
      RecordKeys(IngestRecords(t, init), recs[|recs| - 1]);
      TimestampsInit(recs);
    }
  }

  /** Upserting parsed records keeps the table well formed. */
  lemma {:induction false} IngestRecordsWellFormed(t: Table, recs: seq<Record>)
    requires WellFormed(t) && AllParsed(recs)
    ensures WellFormed(IngestRecords(t, recs))
    decreases |recs|
  {
    if recs != [] {
      var init := recs[..|recs| - 1];
      AllParsedInit(recs);
      IngestRecordsWellFormed(t, init);
      RecordWellFormed(IngestRecords(t, init), recs[|recs| - 1]);
    }
  }

  /** A row whose timestamp no record carries is left as it was. */
  lemma {:induction false} UnstampedRowKept(t: Table, recs: seq<Record>, d: DateTime)
    requires d in t.rows && forall k :: 0 <= k < |recs| ==> recs[k].timestamp != d
    ensures d in IngestRecords(t, recs).rows && IngestRecords(t, recs).rows[d] == t.rows[d]
    decreases |recs|
  {
    if recs != [] {
      var init := recs[..|recs| - 1];
      assert forall k :: 0 <= k < |init| ==> init[k] == recs[k];
      UnstampedRowKept(t, init, d);
      RecordOthers(IngestRecords(t, init), recs[|recs| - 1]);
    }
  }

  /** The last record stamped `d` decides the test name of row `d` (None included) and,
      for each well it names, the cell: later records at other timestamps leave that row
      alone. Within a block, across blocks and across files, the later write wins. */
  lemma {:induction false} LastRecordWins(t: Table, recs: seq<Record>, i: int)
    requires 0 <= i < |recs| && forall j :: i < j < |recs| ==> recs[j].timestamp != recs[i].timestamp
    ensures var rec, t' := recs[i], IngestRecords(t, recs);
      && rec.timestamp in t'.rows
      && t'.rows[rec.timestamp].testname == rec.testname
      && forall k :: LastFor(rec.readings, k) ==>
           rec.readings[k].well in t'.rows[rec.timestamp].cells
           && t'.rows[rec.timestamp].cells[rec.readings[k].well] == rec.readings[k].value
    decreases |recs|
  {
    var init := recs[..|recs| - 1];
    if i < |recs| - 1 {
      assert forall j :: i < j < |init| ==> init[j] == recs[j];
      assert init[i] == recs[i];
      LastRecordWins(t, init, i);
      RecordOthers(IngestRecords(t, init), recs[|recs| - 1]);
    } else {
      RecordRow(IngestRecords(t, init), recs[i]);
    }
  }

  /** Every block of every file, in file order and then block order. */
  function Blocks(files: seq<string>): (blocks: seq<string>)
    ensures forall i :: 0 <= i < |files| ==> forall b :: b in Split(files[i], Delimiter) ==> b in blocks
    decreases |files|
  {
    if files == [] then []
    else Blocks(files[..|files| - 1]) + Split(files[|files| - 1], Delimiter)
  }

  /** Ingesting results `a + b` is ingesting `a`, then `b` on its result. */
  lemma {:induction false} IngestAllAppend(t: Table, a: seq<Result<Record, Error>>, b: seq<Result<Record, Error>>)
    ensures IngestAll(t, a + b) ==
      match IngestAll(t, a)
      case Err(e) => Err(e)
      case Ok(t') => IngestAll(t', b)
    decreases |b|
  {
    if b == [] {
      assert a + b == a;
    } else {
      var b' := b[..|b| - 1];
      assert (a + b)[..|a + b| - 1] == a + b';
      IngestAllAppend(t, a, b');
    }
  }

  lemma MapAppend<A, B>(f: A -> B, a: seq<A>, b: seq<A>)
    ensures Map(f, a + b) == Map(f, a) + Map(f, b)
  {
    assert forall i :: 0 <= i < |a| ==> (a + b)[i] == a[i];
    assert forall i :: |a| <= i < |a + b| ==> (a + b)[i] == b[i - |a|];
  }

  lemma MapPrefix<A, B>(f: A -> B, s: seq<A>, j: int)
    requires 0 <= j <= |s|
    ensures Map(f, s[..j]) == Map(f, s)[..j]
  {
    assert forall i :: 0 <= i < j ==> s[..j][i] == s[i];
  }

  /** Ingesting blocks `a + b` is ingesting `a`, then `b` on its result. */
  lemma IngestBlocksAppend(t: Table, a: seq<string>, b: seq<string>)
    ensures IngestBlocks(t, a + b) ==
      match IngestBlocks(t, a)
      case Err(e) => Err(e)
      case Ok(t') => IngestBlocks(t', b)
  {
    MapAppend(ParseBlock, a, b);
    IngestAllAppend(t, Parses(a), Parses(b));
  }

  /** Reading the files one by one is reading all their blocks in one run. */
  lemma {:induction false} IngestFilesIsIngestBlocks(t: Table, files: seq<string>)
    ensures IngestFiles(t, files) == IngestBlocks(t, Blocks(files))
    decreases |files|
  {
    if files != [] {
      var init := files[..|files| - 1];
      IngestFilesIsIngestBlocks(t, init);
      IngestBlocksAppend(t, Blocks(init), Split(files[|files| - 1], Delimiter));
    }
  }

  /** An empty segment anywhere — an empty file, a file that starts or ends with the
      delimiter, two delimiters in a row — aborts the whole parse. */
  lemma EmptySegmentAborts(t: Table, files: seq<string>, i: int)
    requires 0 <= i < |files| && "" in Split(files[i], Delimiter)
    ensures IngestFiles(t, files).Err?
  {
    IngestFilesIsIngestBlocks(t, files);
    var blocks := Blocks(files);
    var k :| 0 <= k < |blocks| && blocks[k] == "";
    EmptyBlockFails();
    IngestBlocksOk(t, blocks);
  }

  /** A file that starts with the delimiter aborts the parse. */
  lemma LeadingDelimiterAborts(t: Table, files: seq<string>, i: int)
    requires 0 <= i < |files| && OccursAt(files[i], Delimiter, 0)
    ensures IngestFiles(t, files).Err?
  {
    LeadingSeparatorGivesEmptyPiece(files[i], Delimiter);
    EmptySegmentAborts(t, files, i);
  }

  /** An empty file aborts the parse. */
  lemma EmptyFileAborts(t: Table, files: seq<string>, i: int)
    requires 0 <= i < |files| && files[i] == ""
    ensures IngestFiles(t, files).Err?
  {
    NoSeparatorGivesOnePiece(files[i], Delimiter);
    EmptySegmentAborts(t, files, i);
  }

  /** Reading `a + b` is reading `a`, then `b` on its result. */
  lemma {:induction false} IngestFilesAppend(t: Table, a: seq<string>, b: seq<string>)
    ensures IngestFiles(t, a + b) ==
      match IngestFiles(t, a)
      case Err(e) => Err(e)
      case Ok(t') => IngestFiles(t', b)
    decreases |b|
  {
    if b == [] {
      assert a + b == a;
    } else {
      var b' := b[..|b| - 1];
      assert (a + b)[..|a + b| - 1] == a + b';
      IngestFilesAppend(t, a, b');
    }
  }

  /** An error in the first `j` blocks is the error of the whole sequence. */
  lemma BlocksErrorSticks(t: Table, blocks: seq<string>, j: int)
    requires 0 <= j <= |blocks| && IngestBlocks(t, blocks[..j]).Err?
    ensures IngestBlocks(t, blocks) == IngestBlocks(t, blocks[..j])
  {
    var results := Parses(blocks);
    MapPrefix(ParseBlock, blocks, j);
    assert results == results[..j] + results[j..];
    IngestAllAppend(t, results[..j], results[j..]);
  }

  /** An error in the first `i` files is the error of the whole parse. */
  lemma FilesErrorSticks(t: Table, files: seq<string>, i: int)
    requires 0 <= i <= |files| && IngestFiles(t, files[..i]).Err?
    ensures IngestFiles(t, files) == IngestFiles(t, files[..i])
  {
    assert files == files[..i] + files[i..];
    IngestFilesAppend(t, files[..i], files[i..]);
  }

  /** One more block: the parse of the first `j + 1` blocks continues that of the first `j`. */
  lemma IngestBlocksNext(t: Table, blocks: seq<string>, j: int)
    requires 0 <= j < |blocks|
    ensures IngestBlocks(t, blocks[..j + 1]) ==
      match IngestBlocks(t, blocks[..j])
      case Err(e) => Err(e)
      case Ok(t') => IngestBlock(t', blocks[j])
  {
    var results := Parses(blocks[..j + 1]);
    MapPrefix(ParseBlock, blocks[..j + 1], j);
    assert blocks[..j + 1][..j] == blocks[..j];
    assert results[j] == ParseBlock(blocks[j]);
  }

  /** One more file: the parse of the first `i + 1` files continues that of the first `i`. */
  lemma IngestFilesNext(t: Table, files: seq<string>, i: int)
    requires 0 <= i < |files|
    ensures IngestFiles(t, files[..i + 1]) ==
      match IngestFiles(t, files[..i])
      case Err(e) => Err(e)
      case Ok(t') => IngestBlocks(t', Split(files[i], Delimiter))
  {
    assert files[..i + 1][..i] == files[..i];
  }

  /** Reading the files is parsing every block of every file in order, then upserting
      the records: so `LastRecordWins` holds across files as within one. */
  lemma IngestFilesAsRecords(t: Table, files: seq<string>)
    ensures ParseAll(Blocks(files)).Err? ==> IngestFiles(t, files) == Err(ParseAll(Blocks(files)).error)
    ensures ParseAll(Blocks(files)).Ok? ==> IngestFiles(t, files) == Ok(IngestRecords(t, ParseAll(Blocks(files)).value))
  {
    IngestFilesIsIngestBlocks(t, files);
    ParseThenIngest(t, Blocks(files));
  }
}

/** Hand-written scanners for the parser's four fixed regular expressions (`re` module,
    `str` patterns, MULTILINE):
      test name  `(^.*|\n)Testname:\s+(.+)`  with `match` (anchored at the block start),
      time       `Time:\s+([0-2][0-9]):([0-9][0-9]):([0-9][0-9])`  with `search`,
      date       `Date:\s+([0-3][0-9])/([0-1][0-9])/([0-9]+)`  with `search`,
      well data  `([A-H][0-1][0-9]):\s+([-+]?\d*\.\d+|\d+)`  with `findall`.
    Each scanner follows the engine's backtracking order; each one's contract states
    the match the pattern describes. */
module Matchers {
  import opened Wrappers
  import opened Text

  /** `word` occurs in `s` at `i`. */
  predicate LabelAt(s: string, i: int, word: string) {
    0 <= i && i + |word| <= |s| && s[i..i + |word|] == word
  }

  function TwoDigits(s: string, q: nat): (n: nat)
    requires q + 2 <= |s| && IsDigit(s[q]) && IsDigit(s[q + 1])
    ensures n <= 99
  {
    10 * DigitValue(s[q]) + DigitValue(s[q + 1])
  }

  /** A whitespace run that starts at `p` and is longer than the maximal one is not one. */
  lemma SpaceRunIsMaximal(s: string, p: nat, k: int)
    requires p <= |s| && k > SpaceRun(s, p)
    ensures !SpaceIn(s, p, p + k)
  {
    var n := SpaceRun(s, p);
    if p + k <= |s| {
      assert !IsSpace(s[p + n]);
    }
  }

  /** A whitespace run followed by a character that is not whitespace is the maximal one. */
  lemma SpaceRunUnique(s: string, p: nat, k: int)
    requires SpaceIn(s, p, p + k) && p + k < |s| && !IsSpace(s[p + k])
    ensures k == SpaceRun(s, p)
  {
    var n := SpaceRun(s, p);
    if k > n {
      SpaceRunIsMaximal(s, p, k);
    }
  }

  /** `re.search`: the engine tries the positions in order; the first match wins. */
  function FirstFound<T>(candidates: seq<Option<T>>): (r: Option<T>)
    ensures r.Some? ==> exists i :: 0 <= i < |candidates| && candidates[i] == r
                                    && forall j :: 0 <= j < i ==> candidates[j].None?
    ensures r.None? ==> forall i :: 0 <= i < |candidates| ==> candidates[i].None?
    decreases |candidates|
  {
    if candidates == [] then None
    else if candidates[0].Some? then candidates[0]
    else
      var r := FirstFound(candidates[1..]);
      assert forall i :: 1 <= i < |candidates| ==> candidates[i] == candidates[1..][i - 1];
      r
  }

  // ------------------------------------------------------------------ time

  datatype TimeFields = TimeFields(hour: nat, minute: nat, second: nat)

  const TimeLabel := "Time:"

  /** `([0-2][0-9]):([0-9][0-9]):([0-9][0-9])` at `q`. */
  predicate ClockAt(s: string, q: int) {
    && 0 <= q && q + 8 <= |s|
    && '0' <= s[q] <= '2' && IsDigit(s[q + 1]) && s[q + 2] == ':'
    && IsDigit(s[q + 3]) && IsDigit(s[q + 4]) && s[q + 5] == ':'
    && IsDigit(s[q + 6]) && IsDigit(s[q + 7])
  }

  function ClockFields(s: string, q: nat): TimeFields
    requires ClockAt(s, q)
  {
    TimeFields(TwoDigits(s, q), TwoDigits(s, q + 3), TwoDigits(s, q + 6))
  }

  /** The time pattern matches at `i` with `\s+` taking `k` characters. */
  predicate TimeShape(s: string, i: int, k: int) {
    LabelAt(s, i, TimeLabel) && k >= 1 && SpaceIn(s, i + 5, i + 5 + k) && ClockAt(s, i + 5 + k)
  }

  /** The time pattern tried at position `i` of `s`. */
  function TimeAt(s: string, i: nat): (r: Option<TimeFields>)
    ensures r.Some? ==> r.value.hour <= 29 && r.value.minute <= 99 && r.value.second <= 99
  {
    if LabelAt(s, i, TimeLabel) && SpaceRun(s, i + 5) >= 1 && ClockAt(s, i + 5 + SpaceRun(s, i + 5)) then
      Some(ClockFields(s, i + 5 + SpaceRun(s, i + 5)))
    else None
  }

  /** Wherever the pattern fits at `i`, whatever split `k` of `\s+` it takes, the scanner
      returns the fields read after that split. */
  lemma TimeAtMatches(s: string, i: nat, k: int)
    requires TimeShape(s, i, k)
    ensures TimeAt(s, i) == Some(ClockFields(s, i + 5 + k))
  {
    SpaceRunUnique(s, i + 5, k);
  }

  /** The scanner returns a match only where the pattern fits. */
  lemma TimeAtFits(s: string, i: nat)
    requires TimeAt(s, i).Some?
    ensures TimeShape(s, i, SpaceRun(s, i + 5))
  {
  }

  /** `re_match_time`: the fields of the first time stamp in the block, or `None`. */
  function MatchTime(s: string): (r: Option<TimeFields>)
    ensures r.Some? ==> r.value.hour <= 29 && r.value.minute <= 99 && r.value.second <= 99
  {
    FirstFound(seq(|s|, i requires 0 <= i < |s| => TimeAt(s, i)))
  }

  /** The result is the time stamp at the leftmost position where the pattern matches, and
      `None` exactly when it matches nowhere. */
  lemma MatchTimeSpec(s: string)
    ensures MatchTime(s).Some? ==>
      exists i: nat :: TimeAt(s, i) == MatchTime(s) && forall j: nat :: j < i ==> TimeAt(s, j).None?
    ensures MatchTime(s).None? <==> forall i: nat :: TimeAt(s, i).None?
  {
    var candidates := seq(|s|, i requires 0 <= i < |s| => TimeAt(s, i));
    if MatchTime(s).Some? {
      var i :| 0 <= i < |candidates| && candidates[i] == MatchTime(s) && forall j :: 0 <= j < i ==> candidates[j].None?;
      forall j: nat | j < i ensures TimeAt(s, j).None? {
        assert candidates[j] == TimeAt(s, j);
      }
      assert TimeAt(s, i) == MatchTime(s);
    } else {
      forall i: nat ensures TimeAt(s, i).None? {
        if i < |s| {
          assert candidates[i] == TimeAt(s, i);
        } else {
          assert !LabelAt(s, i, TimeLabel);
        }
      }
    }
  }

  // ------------------------------------------------------------------ date

  datatype DateFields = DateFields(day: nat, month: nat, year: nat)

  const DateLabel := "Date:"

  /** `([0-3][0-9])/([0-1][0-9])/[0-9]` at `q` (the first digit of the year included). */
  predicate CalendarAt(s: string, q: int) {
    && 0 <= q && q + 7 <= |s|
    && '0' <= s[q] <= '3' && IsDigit(s[q + 1]) && s[q + 2] == '/'
    && '0' <= s[q + 3] <= '1' && IsDigit(s[q + 4]) && s[q + 5] == '/'
    && IsDigit(s[q + 6])
  }

  /** Day, month and the greedy `([0-9]+)` year run starting at `q + 6`. */
  function CalendarFields(s: string, q: nat): (f: DateFields)
    requires CalendarAt(s, q)
    ensures f.day <= 39 && f.month <= 19
  {
    var n := DigitRun(s, q + 6);
    assert AllDigits(s[q + 6..q + 6 + n]);
    DateFields(TwoDigits(s, q), TwoDigits(s, q + 3), DecimalValue(s[q + 6..q + 6 + n]))
  }

  /** The date pattern matches at `i` with `\s+` taking `k` characters. */
  predicate DateShape(s: string, i: int, k: int) {
    LabelAt(s, i, DateLabel) && k >= 1 && SpaceIn(s, i + 5, i + 5 + k) && CalendarAt(s, i + 5 + k)
  }

  /** The date pattern tried at position `i` of `s`. */
  function DateAt(s: string, i: nat): (r: Option<DateFields>)
    ensures r.Some? ==> r.value.day <= 39 && r.value.month <= 19
  {
    if LabelAt(s, i, DateLabel) && SpaceRun(s, i + 5) >= 1 && CalendarAt(s, i + 5 + SpaceRun(s, i + 5)) then
      Some(CalendarFields(s, i + 5 + SpaceRun(s, i + 5)))
    else None
  }

  /** Wherever the pattern fits at `i`, whatever split `k` of `\s+` it takes, the scanner
      returns the fields read after that split. */
  lemma DateAtMatches(s: string, i: nat, k: int)
    requires DateShape(s, i, k)
    ensures DateAt(s, i) == Some(CalendarFields(s, i + 5 + k))
  {
    SpaceRunUnique(s, i + 5, k);
  }

  /** The scanner returns a match only where the pattern fits. */
  lemma DateAtFits(s: string, i: nat)
    requires DateAt(s, i).Some?
    ensures DateShape(s, i, SpaceRun(s, i + 5))
  {
  }

  /** `re_match_date`: the fields of the first date in the block, or `None`. */
  function MatchDate(s: string): (r: Option<DateFields>)
    ensures r.Some? ==> r.value.day <= 39 && r.value.month <= 19
  {
    FirstFound(seq(|s|, i requires 0 <= i < |s| => DateAt(s, i)))
  }

  /** The result is the date at the leftmost position where the pattern matches, and
      `None` exactly when it matches nowhere. */
  lemma MatchDateSpec(s: string)
    ensures MatchDate(s).Some? ==>
      exists i: nat :: DateAt(s, i) == MatchDate(s) && forall j: nat :: j < i ==> DateAt(s, j).None?
    ensures MatchDate(s).None? <==> forall i: nat :: DateAt(s, i).None?
  {
    var candidates := seq(|s|, i requires 0 <= i < |s| => DateAt(s, i));
    if MatchDate(s).Some? {
      var i :| 0 <= i < |candidates| && candidates[i] == MatchDate(s) && forall j :: 0 <= j < i ==> candidates[j].None?;
      forall j: nat | j < i ensures DateAt(s, j).None? {
        assert candidates[j] == DateAt(s, j);
      }
      assert DateAt(s, i) == MatchDate(s);
    } else {
      forall i: nat ensures DateAt(s, i).None? {
        if i < |s| {
          assert candidates[i] == DateAt(s, i);
        } else {
          assert !LabelAt(s, i, DateLabel);
        }
      }
    }
  }

  // ------------------------------------------------------------------ wells

  /** One `(well, value)` pair as `findall` returns it; the value stays text. */
  datatype Reading = Reading(well: string, value: string)

  /** `[A-H][0-1][0-9]` */
  predicate IsWellId(w: string) {
    |w| == 3 && 'A' <= w[0] <= 'H' && '0' <= w[1] <= '1' && IsDigit(w[2])
  }

  predicate IsSign(c: char) {
    c == '-' || c == '+'
  }

  /** `[-+]?\d*\.\d+` */
  predicate IsDecimalValue(v: string) {
    var p := if |v| > 0 && IsSign(v[0]) then 1 else 0;
    exists d :: p <= d < |v| - 1 && v[d] == '.' && DigitsIn(v, p, d) && DigitsIn(v, d + 1, |v|)
  }

  /** `\d+` */
  predicate IsIntegerValue(v: string) {
    |v| >= 1 && DigitsIn(v, 0, |v|)
  }

  predicate IsValue(v: string) {
    IsDecimalValue(v) || IsIntegerValue(v)
  }

  /** The decimal alternative `[-+]?\d*\.\d+` can match `s[q..e]`. */
  predicate DecimalSpan(s: string, q: int, e: int) {
    0 <= q < e <= |s| && IsDecimalValue(s[q..e])
  }

  /** The integer alternative `\d+` can match `s[q..e]`. */
  predicate IntegerSpan(s: string, q: int, e: int) {
    0 <= q < e <= |s| && IsIntegerValue(s[q..e])
  }

  /** The value group `([-+]?\d*\.\d+|\d+)` at `q` ends at `e`. The engine tries the
      decimal alternative first, and its final greedy `\d+` makes it take the longest
      decimal span; only when no decimal span starts at `q` does `\d+` take the longest
      digit run. */
  ghost predicate ValueSpan(s: string, q: int, e: int) {
    if exists e' :: DecimalSpan(s, q, e') then
      DecimalSpan(s, q, e) && forall e' :: e < e' ==> !DecimalSpan(s, q, e')
    else
      IntegerSpan(s, q, e) && forall e' :: e < e' ==> !IntegerSpan(s, q, e')
  }

  /** The first character after the optional sign and the digits, where the decimal
      alternative needs its point. */
  function PointAt(s: string, q: nat): (pt: nat)
    requires q < |s|
    ensures q <= pt <= |s|
  {
    var p := if IsSign(s[q]) then q + 1 else q;
    p + DigitRun(s, p)
  }

  /** The decimal alternative can match at `q`: a point follows the sign and the digits,
      and at least one digit follows the point. */
  predicate PointFollows(s: string, q: nat) {
    q < |s| && PointAt(s, q) < |s| && s[PointAt(s, q)] == '.' && DigitRun(s, PointAt(s, q) + 1) >= 1
  }

  /** End of the value alternatives tried at `q`: the decimal form first, then digits. */
  function ValueEnd(s: string, q: nat): (r: Option<nat>)
    requires q <= |s|
    ensures r.Some? ==> q < r.value <= |s|
    ensures r.Some? ==> r.value == |s| || !IsDigit(s[r.value])
  {
    if PointFollows(s, q) then
      var pt := PointAt(s, q);
      Some(pt + 1 + DigitRun(s, pt + 1))
    else if DigitRun(s, q) >= 1 then
      Some(q + DigitRun(s, q))
    else None
  }

  /** A point after a digit run is the first non-digit, and the digits after it lie
      within the longest run. */
  lemma PointIsFirst(s: string, p: nat, pt: nat, e: int)
    requires DigitsIn(s, p, pt) && pt < |s| && s[pt] == '.' && DigitsIn(s, pt + 1, e)
    ensures pt == p + DigitRun(s, p) && e <= pt + 1 + DigitRun(s, pt + 1)
  {
    DigitRunUnique(s, p, pt);
    DigitRunBound(s, pt + 1, e);
  }

  /** The parts of a decimal span, read back in `s`: digits, the point at `q + d`, digits. */
  lemma DecimalPartsInText(s: string, q: nat, e: int, p: nat, d: int)
    requires q < e <= |s| && p == (if IsSign(s[q]) then q + 1 else q)
    requires p - q <= d < e - q - 1 && s[q..e][d] == '.'
    requires DigitsIn(s[q..e], p - q, d) && DigitsIn(s[q..e], d + 1, e - q)
    ensures s[q + d] == '.' && DigitsIn(s, p, q + d) && DigitsIn(s, q + d + 1, e)
  {
    DigitsOfSlice(s, q, e, p - q, d);
    DigitsOfSlice(s, q, e, d + 1, e - q);
  }

  /** A decimal span has its point at `PointAt` and ends inside the digit run after it. */
  lemma DecimalSpanOnly(s: string, q: nat, e: int)
    requires q < e <= |s| && DecimalSpan(s, q, e)
    ensures var pt := PointAt(s, q);
      pt < |s| && s[pt] == '.' && pt + 2 <= e <= pt + 1 + DigitRun(s, pt + 1)
  {
    var p := if IsSign(s[q]) then q + 1 else q;
    var v := s[q..e];
    assert (if |v| > 0 && IsSign(v[0]) then 1 else 0) == p - q;
    var d :| p - q <= d < |v| - 1 && v[d] == '.' && DigitsIn(v, p - q, d) && DigitsIn(v, d + 1, |v|);
    DecimalPartsInText(s, q, e, p, d);
    PointIsFirst(s, p, q + d, e);
  }

  /** Every end inside the digit run after the point makes a decimal span. */
  lemma DecimalSpanFrom(s: string, q: nat, e: int)
    requires q < e <= |s|
    requires var pt := PointAt(s, q);
      pt < |s| && s[pt] == '.' && pt + 2 <= e <= pt + 1 + DigitRun(s, pt + 1)
    ensures DecimalSpan(s, q, e)
  {
    var p := if IsSign(s[q]) then q + 1 else q;
    var pt := PointAt(s, q);
    var v := s[q..e];
    assert (if |v| > 0 && IsSign(v[0]) then 1 else 0) == p - q;
    DigitsInSlice(s, p, pt, q, e);
    DigitsInSlice(s, pt + 1, e, q, e);
    assert v[pt - q] == '.';
  }

  /** When the decimal alternative can match, the value group is its longest span. */
  lemma ValueEndDecimal(s: string, q: nat)
    requires PointFollows(s, q)
    ensures ValueSpan(s, q, ValueEnd(s, q).value)
  {
    var e := ValueEnd(s, q).value;
    DecimalSpanFrom(s, q, e);
    forall e' | e < e' ensures !DecimalSpan(s, q, e') {
      if DecimalSpan(s, q, e') {
        DecimalSpanOnly(s, q, e');
      }
    }
  }

  /** Otherwise no decimal span starts at `q`. */
  lemma NoDecimalSpan(s: string, q: nat)
    requires q <= |s| && !PointFollows(s, q)
    ensures forall e :: !DecimalSpan(s, q, e)
  {
    forall e | DecimalSpan(s, q, e) ensures false {
      DecimalSpanOnly(s, q, e);
    }
  }

  /** An integer span is any non-empty part of the digit run at `q`. */
  lemma IntegerSpanIs(s: string, q: nat, e: int)
    requires q < e <= |s|
    ensures IntegerSpan(s, q, e) <==> e <= q + DigitRun(s, q)
  {
    var n := DigitRun(s, q);
    var v := s[q..e];
    if e <= q + n {
      DigitsInSlice(s, q, e, q, e);
    }
  }

  /** A value starts with a sign, a digit or a point, never with whitespace. */
  lemma ValueSpanStart(s: string, q: int, e: int)
    requires ValueSpan(s, q, e)
    ensures q < e <= |s| && (IsSign(s[q]) || IsDigit(s[q]) || s[q] == '.')
  {
    var v := s[q..e];
    assert v[0] == s[q];
    if DecimalSpan(s, q, e) && !IsSign(v[0]) {
      var d :| 0 <= d < |v| - 1 && v[d] == '.' && DigitsIn(v, 0, d) && DigitsIn(v, d + 1, |v|);
    }
  }

  /** The value group ends at one place at most. */
  lemma ValueSpanUnique(s: string, q: int, e1: int, e2: int)
    requires ValueSpan(s, q, e1) && ValueSpan(s, q, e2)
    ensures e1 == e2
  {
  }

  /** `ValueEnd` returns where the value group ends, and `None` exactly when no value
      starts at `q`. */
  lemma ValueEndSpec(s: string, q: nat)
    requires q <= |s|
    ensures ValueEnd(s, q).Some? ==> ValueSpan(s, q, ValueEnd(s, q).value)
    ensures ValueEnd(s, q).None? ==> forall e :: !ValueSpan(s, q, e)
  {
    if PointFollows(s, q) {
      ValueEndDecimal(s, q);
    } else {
      NoDecimalSpan(s, q);
      forall e | q < e <= |s| ensures IntegerSpan(s, q, e) <==> e <= q + DigitRun(s, q) {
        IntegerSpanIs(s, q, e);
      }
    }
  }

  /** The text the value group takes is a number as the pattern spells it. */
  lemma ValueEndIsValue(s: string, q: nat)
    requires q <= |s| && ValueEnd(s, q).Some?
    ensures IsValue(s[q..ValueEnd(s, q).value])
  {
    ValueEndSpec(s, q);
  }

  /** A well match: its pair, where the value starts and where the match ends. */
  datatype WellMatch = WellMatch(reading: Reading, valueStart: nat, end: nat)

  /** The well pattern tried at position `i` of `s`: a well id, a colon, the greedy
      whitespace run, then the value text, which no digit follows. */
  function WellAt(s: string, i: nat): (r: Option<WellMatch>)
    ensures r.Some? ==>
      var m := r.value;
      && i + 4 < m.valueStart < m.end <= |s|
      && m.reading.well == s[i..i + 3] && IsWellId(m.reading.well) && s[i + 3] == ':'
      && SpaceIn(s, i + 4, m.valueStart) && m.reading.value == s[m.valueStart..m.end]
      && (m.end == |s| || !IsDigit(s[m.end]))
      && m.valueStart == i + 4 + SpaceRun(s, i + 4) && ValueEnd(s, m.valueStart) == Some(m.end)
  {
    if i + 4 <= |s| && IsWellId(s[i..i + 3]) && s[i + 3] == ':' && SpaceRun(s, i + 4) >= 1 then
      var q := i + 4 + SpaceRun(s, i + 4);
      var v := ValueEnd(s, q);
      if v.Some? then Some(WellMatch(Reading(s[i..i + 3], s[q..v.value]), q, v.value)) else None
    else None
  }

  /** The well pattern matches at `i` with `\s+` running up to `q`, where the value group
      starts, and the value group ending at `e`. */
  ghost predicate WellShape(s: string, i: int, q: int, e: int) {
    && 0 <= i && i + 4 < q <= |s|
    && IsWellId(s[i..i + 3]) && s[i + 3] == ':'
    && SpaceIn(s, i + 4, q) && ValueSpan(s, q, e)
  }

  /** Where the value group ends at `e`, `ValueEnd` returns `e`. */
  lemma ValueEndIs(s: string, q: nat, e: int)
    requires q <= |s| && ValueSpan(s, q, e)
    ensures ValueEnd(s, q) == Some(e)
  {
    ValueEndSpec(s, q);
    ValueSpanUnique(s, q, e, ValueEnd(s, q).value);
  }

  /** A fitting split of `\s+` is the longest whitespace run, and the value ends at `e`. */
  lemma WellShapeParts(s: string, i: nat, q: int, e: int)
    requires WellShape(s, i, q, e)
    ensures q == i + 4 + SpaceRun(s, i + 4) && ValueEnd(s, q) == Some(e)
  {
    ValueSpanStart(s, q, e);
    SpaceRunUnique(s, i + 4, q - i - 4);
    ValueEndIs(s, q, e);
  }

  /** Wherever the pattern fits at `i`, whatever split of `\s+` it takes, the scanner
      returns that match. */
  lemma WellAtMatches(s: string, i: nat, q: int, e: int)
    requires WellShape(s, i, q, e)
    ensures WellAt(s, i).Some?
    ensures var m := WellAt(s, i).value;
      m.valueStart == q && m.end == e && m.reading == Reading(s[i..i + 3], s[q..e])
  {
    WellShapeParts(s, i, q, e);
    WellAtSome(s, i);
  }

  /** The scanner finds a match wherever the id, the colon, some whitespace and a value
      follow one another. */
  lemma WellAtSome(s: string, i: nat)
    requires i + 4 <= |s| && IsWellId(s[i..i + 3]) && s[i + 3] == ':' && SpaceRun(s, i + 4) >= 1
    requires ValueEnd(s, i + 4 + SpaceRun(s, i + 4)).Some?
    ensures WellAt(s, i).Some?
  {
  }

  /** The scanner returns a match only where the pattern fits, with the value group the
      engine takes. */
  lemma WellAtFits(s: string, i: nat)
    requires WellAt(s, i).Some?
    ensures var m := WellAt(s, i).value;
      WellShape(s, i, m.valueStart, m.end)
  {
    ValueEndSpec(s, WellAt(s, i).value.valueStart);
  }

  /** The value of a well match is a number as the pattern spells it. */
  lemma WellAtValue(s: string, i: nat)
    requires WellAt(s, i).Some?
    ensures IsValue(WellAt(s, i).value.reading.value)
  {
    ValueEndIsValue(s, WellAt(s, i).value.valueStart);
  }

  /** `findall` from position `from`: every non-overlapping match, left to right. */
  function WellsFrom(s: string, from: nat): (r: seq<Reading>)
    ensures forall k :: 0 <= k < |r| ==> IsWellId(r[k].well)
    decreases |s| - from
  {
    if from >= |s| then []
    else
      match WellAt(s, from)
      case Some(m) => [m.reading] + WellsFrom(s, m.end)
      case None => WellsFrom(s, from + 1)
  }

  /** `re_match_well`: every `(well, value)` pair of the block in text order. */
  function MatchWells(s: string): (r: seq<Reading>)
    ensures forall k :: 0 <= k < |r| ==> IsWellId(r[k].well)
  {
    WellsFrom(s, 0)
  }

  /** Every value found is a number as the pattern spells it: signed decimal or digits. */
  lemma {:induction false} WellsFromValues(s: string, from: nat)
    ensures forall k :: 0 <= k < |WellsFrom(s, from)| ==> IsValue(WellsFrom(s, from)[k].value)
    decreases |s| - from
  {
    if from < |s| {
      match WellAt(s, from)
      case Some(m) =>
        WellAtValue(s, from);
        WellsFromValues(s, m.end);
        assert WellsFrom(s, from) == [m.reading] + WellsFrom(s, m.end);
      case None =>
        WellsFromValues(s, from + 1);
    }
  }

  /** `findall` finds nothing from `from` on exactly when the pattern matches at no
      position from `from` on. */
  lemma {:induction false} WellsFromEmpty(s: string, from: nat)
    ensures WellsFrom(s, from) == [] <==> forall i :: from <= i < |s| ==> WellAt(s, i).None?
    decreases |s| - from
  {
    if from < |s| {
      match WellAt(s, from)
      case Some(m) =>
        assert WellsFrom(s, from)[0] == m.reading;
      case None =>
        WellsFromEmpty(s, from + 1);
    }
  }

  /** The first position from `from` on where the pattern matches gives the first pair,
      and the scan resumes where that match ends. */
  lemma {:induction false} WellsFromFirst(s: string, from: nat, i: nat)
    requires from <= i < |s| && WellAt(s, i).Some?
    requires forall j :: from <= j < i ==> WellAt(s, j).None?
    ensures WellsFrom(s, from) == [WellAt(s, i).value.reading] + WellsFrom(s, WellAt(s, i).value.end)
    decreases i - from
  {
    if from < i {
      WellsFromFirst(s, from + 1, i);
    }
  }

  // ------------------------------------------------------------------ test name

  const TestnameLabel := "Testname:"

  /** `\s+(.+)` at `p` with `\s+` taking `k` characters: group 2 starts at `p + k`. */
  predicate TailSplit(s: string, p: int, k: int) {
    k >= 1 && SpaceIn(s, p, p + k) && p + k < |s| && s[p + k] != '\n'
  }

  /** Backtracking `\s+` from `k` characters down to one. */
  function TailBack(s: string, p: nat, k: nat): (r: Option<string>)
    requires SpaceIn(s, p, p + k)
    ensures r.Some? ==> |r.value| >= 1 && forall c :: 0 <= c < |r.value| ==> r.value[c] != '\n'
    decreases k
  {
    if k == 0 then None
    else if p + k < |s| && s[p + k] != '\n' then Some(s[p + k..LineEnd(s, p + k)])
    else TailBack(s, p, k - 1)
  }

  /** The backtracking stops at the longest split of at most `k` characters that leaves a
      character other than a newline, and the group is the rest of that line. */
  lemma {:induction false} TailBackSpec(s: string, p: nat, k: nat)
    requires SpaceIn(s, p, p + k)
    ensures TailBack(s, p, k).Some? ==> exists k' :: 1 <= k' <= k && TailSplit(s, p, k')
                                          && TailBack(s, p, k).value == s[p + k'..LineEnd(s, p + k')]
                                          && forall k'' :: k' < k'' <= k ==> !TailSplit(s, p, k'')
    ensures TailBack(s, p, k).None? ==> forall k' :: 1 <= k' <= k ==> !TailSplit(s, p, k')
    decreases k
  {
    if k == 0 {
    } else if p + k < |s| && s[p + k] != '\n' {
      assert TailSplit(s, p, k);
    } else {
      TailBackSpec(s, p, k - 1);
    }
  }

  /** `\s+(.+)` at `p`: backtracking from the whole whitespace run. */
  function TailAt(s: string, p: nat): (r: Option<string>)
    requires p <= |s|
    ensures r.Some? ==> |r.value| >= 1 && forall c :: 0 <= c < |r.value| ==> r.value[c] != '\n'
  {
    TailBack(s, p, SpaceRun(s, p))
  }

  /** `\s+(.+)` at `p` takes the longest whitespace run that still leaves a character
      other than a newline, then the rest of that line; `None` when no run fits. */
  lemma TailAtSpec(s: string, p: nat)
    requires p <= |s|
    ensures TailAt(s, p).Some? ==> exists k :: TailSplit(s, p, k) && TailAt(s, p).value == s[p + k..LineEnd(s, p + k)]
                                               && forall k' :: k < k' ==> !TailSplit(s, p, k')
    ensures TailAt(s, p).None? ==> forall k :: !TailSplit(s, p, k)
  {
    var n := SpaceRun(s, p);
    forall k | k > n ensures !TailSplit(s, p, k) {
      SpaceRunIsMaximal(s, p, k);
    }
    TailBackSpec(s, p, n);
  }

  /** The label `Testname:` at `j` followed by `\s+(.+)`. */
  function NameAt(s: string, j: nat): (r: Option<string>)
    ensures r.Some? ==> LabelAt(s, j, TestnameLabel)
    ensures r.Some? ==> |r.value| >= 1 && forall c :: 0 <= c < |r.value| ==> r.value[c] != '\n'
  {
    if LabelAt(s, j, TestnameLabel) then TailAt(s, j + 9) else None
  }

  /** Backtracking `^.*`: the candidates are the label positions `0 ..= j` in order, and
      the engine tries them from the last one down; the last candidate found wins. */
  function LastFound<T>(candidates: seq<Option<T>>): (r: Option<T>)
    ensures r.Some? ==> exists j :: 0 <= j < |candidates| && candidates[j] == r
                                    && forall j' :: j < j' < |candidates| ==> candidates[j'].None?
    ensures r.None? ==> forall j :: 0 <= j < |candidates| ==> candidates[j].None?
    decreases |candidates|
  {
    if candidates == [] then None
    else if candidates[|candidates| - 1].Some? then candidates[|candidates| - 1]
    else LastFound(candidates[..|candidates| - 1])
  }

  /** Where `match` lets the label start: on the first line (after `^.*`), or right
      after a newline that opens the block (the `\n` alternative). */
  predicate Anchored(s: string, j: int) {
    0 <= j <= LineEnd(s, 0) || (j == 1 && |s| > 0 && s[0] == '\n')
  }

  lemma {:induction false} LastFoundIs<T>(candidates: seq<Option<T>>, j: int)
    requires 0 <= j < |candidates| && candidates[j].Some?
    requires forall j' :: j < j' < |candidates| ==> candidates[j'].None?
    ensures LastFound(candidates) == candidates[j]
    decreases |candidates|
  {
    if j < |candidates| - 1 {
      LastFoundIs(candidates[..|candidates| - 1], j);
    }
  }

  /** The label matches tried on the first line, at positions `0 ..= LineEnd(s, 0)`. */
  function FirstLineNames(s: string): seq<Option<string>> {
    seq(LineEnd(s, 0) + 1, j requires 0 <= j <= LineEnd(s, 0) => NameAt(s, j))
  }

  /** `re_match_testname`: group 2 of the anchored match, or `None`. */
  function MatchTestname(s: string): (r: Option<string>)
    ensures r.Some? ==> |r.value| >= 1 && forall c :: 0 <= c < |r.value| ==> r.value[c] != '\n'
  {
    match LastFound(FirstLineNames(s))
    case Some(v) => Some(v)
    case None => if |s| > 0 && s[0] == '\n' then NameAt(s, 1) else None
  }

  /** The last label on the first line whose tail matches wins. */
  lemma MatchTestnameLast(s: string, j: nat)
    requires j <= LineEnd(s, 0) && NameAt(s, j).Some?
    requires forall j': nat :: j < j' <= LineEnd(s, 0) ==> NameAt(s, j').None?
    ensures MatchTestname(s) == NameAt(s, j)
  {
    var e := LineEnd(s, 0);
    var candidates := FirstLineNames(s);
    assert forall j' :: j < j' < |candidates| ==> candidates[j'].None?;
    LastFoundIs(candidates, j);
  }

  /** Only if no label on the first line matches is the second line tried, and only when
      the block starts with a newline. */
  lemma MatchTestnameSecondLine(s: string)
    requires forall j: nat :: j <= LineEnd(s, 0) ==> NameAt(s, j).None?
    ensures MatchTestname(s) == if |s| > 0 && s[0] == '\n' then NameAt(s, 1) else None
  {
    var e := LineEnd(s, 0);
    var candidates := FirstLineNames(s);
    assert forall j :: 0 <= j < |candidates| ==> candidates[j].None?;
  }

  /** A test name is found exactly when the label matches at an anchored position. */
  lemma MatchTestnameFound(s: string)
    ensures MatchTestname(s).Some? <==> exists j: nat :: Anchored(s, j) && NameAt(s, j).Some?
  {
    var e := LineEnd(s, 0);
    var candidates := FirstLineNames(s);
    if LastFound(candidates).Some? {
      var j :| 0 <= j < |candidates| && candidates[j] == LastFound(candidates);
      assert Anchored(s, j) && NameAt(s, j).Some?;
    } else if |s| > 0 && s[0] == '\n' && NameAt(s, 1).Some? {
      assert Anchored(s, 1);
    } else {
      forall j: nat | Anchored(s, j) ensures NameAt(s, j).None? {
        if j <= e {
          assert candidates[j] == NameAt(s, j);
        }
      }
    }
  }
}

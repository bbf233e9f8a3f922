/** Python's `str.split(sep)` with a non-empty literal separator: the file text is cut at
    the leftmost non-overlapping occurrences of the separator, scanning left to right. */
module Splitting {
  import opened Wrappers

  /** `sep` occurs in `s` starting at `k`. */
  predicate OccursAt(s: string, sep: string, k: int) {
    0 <= k && k + |sep| <= |s| && s[k..k + |sep|] == sep
  }

  /** Leftmost occurrence of `sep` in `s` at or after `from` (`str.find`). */
  function Find(s: string, sep: string, from: nat): (r: Option<nat>)
    requires from <= |s|
    ensures r.Some? ==> from <= r.value && OccursAt(s, sep, r.value)
    ensures forall k :: from <= k && (r.None? || k < r.value) ==> !OccursAt(s, sep, k)
    decreases |s| - from
  {
    if from + |sep| > |s| then None
    else if s[from..from + |sep|] == sep then Some(from)
    else Find(s, sep, from + 1)
  }

  function Split(s: string, sep: string): (pieces: seq<string>)
    requires |sep| > 0
    ensures |pieces| >= 1
    decreases |s|
  {
    match Find(s, sep, 0)
    case None => [s]
    case Some(k) => [s[..k]] + Split(s[k + |sep|..], sep)
  }

  /** `sep.join(pieces)`. */
  function Join(pieces: seq<string>, sep: string): string
    requires |pieces| >= 1
  {
    if |pieces| == 1 then pieces[0] else pieces[0] + sep + Join(pieces[1..], sep)
  }

  /** Joining the pieces with the separator gives back the text. */
  lemma {:induction false} JoinSplit(s: string, sep: string)
    requires |sep| > 0
    ensures Join(Split(s, sep), sep) == s
    decreases |s|
  {
    match Find(s, sep, 0)
    case None =>
    case Some(k) =>
      var rest := s[k + |sep|..];
      var pieces := Split(s, sep);
      assert pieces == [s[..k]] + Split(rest, sep);
      assert |pieces| > 1 && pieces[0] == s[..k] && pieces[1..] == Split(rest, sep);
      JoinSplit(rest, sep);
      calc {
        Join(pieces, sep);
        pieces[0] + sep + Join(pieces[1..], sep);
        s[..k] + sep + rest;
        { assert s[k..k + |sep|] == sep; assert s == s[..k] + s[k..k + |sep|] + rest; }
        s;
      }
  }

  /** `Find` from the start returns the first occurrence. */
  lemma {:induction false} FindIsFirst(s: string, sep: string, k: nat)
    requires OccursAt(s, sep, k) && forall j :: 0 <= j < k ==> !OccursAt(s, sep, j)
    ensures Find(s, sep, 0) == Some(k)
  {
  }

  /** The text before the leftmost occurrence, followed by the separator, has its own
      leftmost occurrence right after that text. */
  lemma {:induction false} FirstOccurrenceKept(s: string, sep: string, k: nat)
    requires |sep| > 0 && Find(s, sep, 0) == Some(k)
    ensures Find(s[..k] + sep, sep, 0) == Some(k)
  {
    var head := s[..k] + sep;
    assert head == s[..k + |sep|];
    forall j | 0 <= j < k
      ensures !OccursAt(head, sep, j)
    {
      assert !OccursAt(s, sep, j);
      if j + |sep| <= |head| {
        assert head[j..j + |sep|] == s[j..j + |sep|];
      }
    }
    assert head[k..k + |sep|] == sep;
    FindIsFirst(head, sep, k);
  }

  /** Each piece but the last ends exactly where the leftmost occurrence of the
      separator begins, and the last piece holds no occurrence at all. */
  predicate Leftmost(pieces: seq<string>, sep: string) {
    && |pieces| >= 1
    && (forall i :: 0 <= i < |pieces| - 1 ==> Find(pieces[i] + sep, sep, 0) == Some(|pieces[i]|))
    && Find(pieces[|pieces| - 1], sep, 0) == None
  }

  lemma {:induction false} LeftmostCons(head: string, tail: seq<string>, sep: string)
    requires Find(head + sep, sep, 0) == Some(|head|) && Leftmost(tail, sep)
    ensures Leftmost([head] + tail, sep)
  {
    var pieces := [head] + tail;
    forall i | 0 <= i < |pieces| - 1
      ensures Find(pieces[i] + sep, sep, 0) == Some(|pieces[i]|)
    {
      if i > 0 {
        assert pieces[i] == tail[i - 1];
      }
    }
    assert pieces[|pieces| - 1] == tail[|tail| - 1];
  }

  /** `Split` cuts at the leftmost occurrences only. */
  lemma {:induction false} SplitIsLeftmost(s: string, sep: string)
    requires |sep| > 0
    ensures Leftmost(Split(s, sep), sep)
    decreases |s|
  {
    match Find(s, sep, 0)
    case None =>
    case Some(k) =>
      var rest := s[k + |sep|..];
      assert Split(s, sep) == [s[..k]] + Split(rest, sep);
      SplitIsLeftmost(rest, sep);
      FirstOccurrenceKept(s, sep, k);
      LeftmostCons(s[..k], Split(rest, sep), sep);
  }

  /** A text that starts with the separator yields an empty first piece. */
  lemma LeadingSeparatorGivesEmptyPiece(s: string, sep: string)
    requires |sep| > 0 && OccursAt(s, sep, 0)
    ensures Split(s, sep)[0] == ""
  {
    assert Find(s, sep, 0) == Some(0);
  }

  /** A text without the separator is a single piece. */
  lemma NoSeparatorGivesOnePiece(s: string, sep: string)
    requires |sep| > 0 && forall k :: !OccursAt(s, sep, k)
    ensures Split(s, sep) == [s]
  {
  }
}

/** Cutting the process data into segments that each fit one datagram. */
module Segments {

  /** EC_MAXLRWDATA less the room kept for the clock datagram: 1518 - 14 - 2 - 10 - 2 - 4 - 20. */
  const LIMIT: nat := 1466

  /** EC_MAXIOSEGMENTS. */
  const TABLE: nat := 64

  function Sum(s: seq<nat>): nat {
    if s == [] then 0 else Sum(s[..|s| - 1]) + s[|s| - 1]
  }

  /** Where element `i` of consecutive pieces starts. */
  function Start(s: seq<nat>, i: nat): nat
    requires i <= |s|
  {
    Sum(s[..i])
  }

  /** The closed segments and the size of the current one. */
  datatype Cursor = Cursor(full: seq<nat>, size: nat)
  {
    function Table(): seq<nat> {
      full + [size]
    }
  }

  function Add(c: Cursor, span: nat, table: nat): Cursor {
    if c.size + span > LIMIT then
      if |c.full| < table - 1 then Cursor(c.full + [c.size], span) else c
    else
      c.(size := c.size + span)
  }

  /** Segments are filled in order; a span that does not fit any more starts the next one. When the
      table has no next entry the span is lost. */
  function Greedy(spans: seq<nat>, table: nat): (c: Cursor)
    ensures table > 0 ==> |c.full| < table
  {
    if spans == [] then Cursor([], 0)
    else Add(Greedy(spans[..|spans| - 1], table), spans[|spans| - 1], table)
  }

  /** How many segments the spans need when the table has no end. */
  function Needed(spans: seq<nat>): nat {
    |Greedy(spans, |spans| + 2).full| + 1
  }

  ghost predicate EachFits(spans: seq<nat>) {
    forall k | 0 <= k < |spans| :: spans[k] <= LIMIT
  }

  lemma SumAppend(s: seq<nat>, x: nat)
    ensures Sum(s + [x]) == Sum(s) + x
  {
    assert (s + [x])[..|s|] == s;
  }

  lemma {:induction false} SumConcat(a: seq<nat>, b: seq<nat>)
    ensures Sum(a + b) == Sum(a) + Sum(b)
  {
    if b == [] {
      assert a + b == a;
    } else {
      SumConcat(a, b[..|b| - 1]);
      assert (a + b)[..|a + b| - 1] == a + b[..|b| - 1];
    }
  }

  lemma {:induction false} StartsIncrease(s: seq<nat>, i: nat, j: nat)
    requires i <= j <= |s|
    ensures Start(s, i) <= Start(s, j) <= Sum(s)
    ensures i < |s| ==> Start(s, i + 1) == Start(s, i) + s[i]
  {
    assert s[..j] == s[..i] + s[i..j] && s == s[..j] + s[j..];
    SumConcat(s[..i], s[i..j]);
    SumConcat(s[..j], s[j..]);
    if i < |s| {
      assert s[..i + 1] == s[..i] + [s[i]];
      SumAppend(s[..i], s[i]);
    }
  }

  lemma {:induction false} NeededIsEnough(spans: seq<nat>, larger: nat)
    requires larger >= |spans| + 2
    ensures Greedy(spans, larger) == Greedy(spans, |spans| + 2)
    ensures |Greedy(spans, larger).full| <= |spans|
  {
    if spans != [] {
      var front := spans[..|spans| - 1];
      NeededIsEnough(front, larger);
      NeededIsEnough(front, |spans| + 2);
    }
  }

  lemma TableSum(c: Cursor)
    ensures Sum(c.Table()) == Sum(c.full) + c.size
  {
    SumAppend(c.full, c.size);
  }

  lemma {:induction false} SegmentsFit(spans: seq<nat>, table: nat)
    requires EachFits(spans)
    ensures Greedy(spans, table).size <= LIMIT && EachFits(Greedy(spans, table).full)
  {
    if spans != [] {
      SegmentsFit(spans[..|spans| - 1], table);
    }
  }

  /** A table loses nothing as long as the unlimited one stays within its size. */
  lemma {:induction false} SameUnlessFull(spans: seq<nat>, table: nat, larger: nat)
    requires 0 < table && |spans| + 2 <= larger && EachFits(spans)
    ensures var c := Greedy(spans, table);
            var u := Greedy(spans, larger);
            (|u.full| < table ==> c == u) &&
            if |u.full| < table then Sum(c.Table()) == Sum(spans) else Sum(c.Table()) < Sum(spans)
  {
    NeededIsEnough(spans, larger);
    if spans == [] {
      TableSum(Cursor([], 0));
    } else {
      var front, d := spans[..|spans| - 1], spans[|spans| - 1];
      SameUnlessFull(front, table, larger);
      NeededIsEnough(front, larger);
      SegmentsFit(front, table);
      var c, u := Greedy(front, table), Greedy(front, larger);
      hide Greedy;
      TableSum(c);
      TableSum(Add(c, d, table));
      SumAppend(c.full, c.size);
      hide Sum;
    }
  }

  /** The segments hold all spans if and only if the table has room for all segments needed, and
      none of them is longer than the limit. */
  lemma {:induction false} SegmentsHoldAll(spans: seq<nat>)
    requires EachFits(spans)
    ensures EachFits(Greedy(spans, TABLE).Table())
    ensures Sum(Greedy(spans, TABLE).Table()) == Sum(spans) <==> Needed(spans) <= TABLE
  {
    var larger := |spans| + 2 + TABLE;
    NeededIsEnough(spans, larger);
    SameUnlessFull(spans, TABLE, larger);
    SegmentsFit(spans, TABLE);
  }

  /** Piece `j` of `pieces` contains the range of element `k` of `spans`. */
  ghost predicate Contains(pieces: seq<nat>, j: nat, spans: seq<nat>, k: nat)
    requires j < |pieces| && k < |spans|
  {
    Start(pieces, j) <= Start(spans, k) && Start(spans, k) + spans[k] <= Start(pieces, j) + pieces[j]
  }

  lemma LastSpanContained(before: Cursor, front: seq<nat>, d: nat)
    requires Sum(before.Table()) == Sum(front)
    requires Sum(Add(before, d, TABLE).Table()) == Sum(front) + d
    ensures var after := Add(before, d, TABLE);
            Contains(after.Table(), |after.full|, front + [d], |front|)
  {
    var after := Add(before, d, TABLE);
    TableSum(before);
    TableSum(after);
    hide Sum;
    assert after.Table()[..|after.full|] == after.full;
    assert (front + [d])[..|front|] == front;
  }

  lemma EarlierSpanContained(before: Cursor, j: nat, front: seq<nat>, k: nat, d: nat)
    requires j < |before.Table()| && k < |front| && Contains(before.Table(), j, front, k)
    ensures var after := Add(before, d, TABLE);
            j < |after.Table()| && Contains(after.Table(), j, front + [d], k)
  {
    hide Sum;
    assert (front + [d])[..k] == front[..k];
    assert before.Table()[..j] == Add(before, d, TABLE).Table()[..j];
  }

  /** No span is cut: each lies inside one segment. */
  lemma {:induction false} SpanInSegment(spans: seq<nat>, k: nat) returns (j: nat)
    requires EachFits(spans) && Needed(spans) <= TABLE && k < |spans|
    ensures j < |Greedy(spans, TABLE).Table()| && Contains(Greedy(spans, TABLE).Table(), j, spans, k)
  {
    hide Contains, Needed, Add;
    var front, d := spans[..|spans| - 1], spans[|spans| - 1];
    assert spans == front + [d];
    var before := Greedy(front, TABLE);
    NeededGrows(spans);
    if k < |front| {
      j := SpanInSegment(front, k);
      EarlierSpanContained(before, j, front, k, d);
    } else {
      SegmentsHoldAll(front);
      SegmentsHoldAll(spans);
      j := |Greedy(spans, TABLE).full|;
      LastSpanContained(before, front, d);
    }
  }

  lemma NeededGrows(spans: seq<nat>)
    requires spans != []
    ensures Needed(spans[..|spans| - 1]) <= Needed(spans)
  {
    NeededIsEnough(spans[..|spans| - 1], |spans| + 2);
  }

  /** Spans that come later leave the closed segments alone and only add to the current one. */
  lemma {:induction false} LaterSpans(a: seq<nat>, b: seq<nat>, table: nat)
    ensures var c, d := Greedy(a, table), Greedy(a + b, table);
            |c.full| <= |d.full| && d.Table()[..|c.full|] == c.full && c.size <= d.Table()[|c.full|]
  {
    if b == [] {
      assert a + b == a;
    } else {
      assert (a + b)[..|a + b| - 1] == a + b[..|b| - 1];
      LaterSpans(a, b[..|b| - 1], table);
    }
  }
}

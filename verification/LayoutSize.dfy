/** Which groups of slaves have a layout that fits the segment table and the frames of a cycle. */
module LayoutSize {
  import opened FmmuMapping
  import opened Segments
  import opened IoMap
  import opened Pieces

  // ----- How long a slave's part can be.

  lemma {:induction false} ShapesAreBounded(sm: seq<Sm>, kind: nat, bits: nat, smc: nat, byteCount: nat, done: nat)
    requires |sm| == MAXSM && smc < MAXSM && done <= RoundUp(bits)
    ensures ShapeBytes(Shapes(sm, kind, bits, smc, byteCount, done)) <= RoundUp(bits) - done
    decreases MAXSM - smc, if done < RoundUp(bits) then 1 else 0
  {
    hide NextOf, Collected;
    if smc < MAXSM - 1 && done < RoundUp(bits) {
      var first := NextOf(sm, kind, smc);
      var (next, bytes) := Collected(sm, kind, bits, first, byteCount + sm[first].length);
      var size := if bytes + done > RoundUp(bits) then RoundUp(bits) - done else bytes;
      ShapesNext(sm, kind, bits, smc, byteCount, done);
      ShapesAreBounded(sm, kind, bits, next, bytes, done + size);
    }
  }

  /** A slave takes its whole bytes, and one more if it has to leave a byte that others have begun. */
  lemma SpanIsBounded(s: Slave, kind: nat, bit: nat)
    requires |s.sm| == MAXSM && bit < 8
    ensures Span(s, kind, bit) <= RoundUp(s.Bits(kind)) + 1
  {
    hide Shapes;
    ShapesAreBounded(s.sm, kind, s.Bits(kind), 0, 0, 0);
  }

  /** No slave has more data than a segment takes. */
  ghost predicate EachShort(list: seq<Slave>) {
    forall i | 0 <= i < |list| :: RoundUp(list[i].obits) < LIMIT && RoundUp(list[i].ibits) < LIMIT
  }

  /** The whole bytes of all slaves, and one more for each. */
  function TotalBytes(list: seq<Slave>, kind: nat): nat {
    if list == [] then 0
    else TotalBytes(list[..|list| - 1], kind) + RoundUp(list[|list| - 1].Bits(kind)) + 1
  }

  lemma {:induction false} SpansAreShort(list: seq<Slave>, kind: nat)
    requires HasSms(list) && EachShort(list)
    ensures EachFits(SpansOf(list, kind)) && Sum(SpansOf(list, kind)) <= TotalBytes(list, kind)
  {
    hide Span, BitAfter, EachFits, Sum;
    if list == [] {
      NoSpans();
    } else {
      var front, last := list[..|list| - 1], list[|list| - 1];
      SpansAreShort(front, kind);
      SpanIsBounded(last, kind, BitAfter(front, kind));
      OneMoreFits(SpansOf(front, kind), Span(last, kind, BitAfter(front, kind)));
      assert SpansOf(front, kind) + [] == SpansOf(front, kind);
    }
  }

  lemma NoSpans()
    ensures EachFits([]) && Sum([]) == 0
  {
  }

  lemma OneMoreFits(spans: seq<nat>, x: nat)
    requires EachFits(spans)
    ensures x <= LIMIT ==> EachFits(spans + [x])
    ensures Sum(spans + [x]) == Sum(spans) + x
  {
    SumAppend(spans, x);
  }

  lemma AllSpansAreShort(list: seq<Slave>, kind: nat)
    requires HasSms(list) && EachShort(list)
    ensures EachFits(AllSpans(list, kind)) && Sum(AllSpans(list, kind)) <= TotalBytes(list, kind) + 1
  {
    hide SpansOf, BitAfter, EachFits, Sum;
    SpansAreShort(list, kind);
    OneMoreFits(SpansOf(list, kind), 1);
    assert SpansOf(list, kind) + [] == SpansOf(list, kind);
  }

  // ----- How many segments a greedy cut needs.

  /** Two segments that follow each other are together longer than the limit. */
  ghost predicate PairsExceed(table: seq<nat>) {
    forall i | 0 <= i < |table| - 1 :: PairExceeds(table, i)
  }

  predicate PairExceeds(table: seq<nat>, i: nat)
    requires i + 1 < |table|
  {
    table[i] + table[i + 1] > LIMIT
  }

  lemma {:induction false} GreedyPairsExceed(spans: seq<nat>, table: nat)
    ensures PairsExceed(Greedy(spans, table).Table())
  {
    if spans != [] {
      var c := Greedy(spans[..|spans| - 1], table);
      GreedyPairsExceed(spans[..|spans| - 1], table);
      hide Greedy;
      AddedPairsExceed(c, spans[|spans| - 1], table);
    }
  }

  lemma AddedPairsExceed(c: Cursor, span: nat, table: nat)
    requires PairsExceed(c.Table())
    ensures PairsExceed(Add(c, span, table).Table())
  {
    var t, u := c.Table(), Add(c, span, table).Table();
    forall i | 0 <= i < |u| - 1 ensures PairExceeds(u, i) {
      if i + 1 < |t| {
        assert PairExceeds(t, i);
      }
    }
  }

  lemma {:induction false} PairsSum(table: seq<nat>, k: nat)
    requires PairsExceed(table) && |table| >= 2 * k
    ensures Sum(table) >= k * (LIMIT + 1)
    decreases k
  {
    if k > 0 {
      var n := |table|;
      var front := table[..n - 2];
      assert PairExceeds(table, n - 2);
      forall i | 0 <= i < |front| - 1 ensures PairExceeds(front, i) {
        assert PairExceeds(table, i);
      }
      PairsSum(front, k - 1);
      assert table[..n - 1] == front + [table[n - 2]] && table == table[..n - 1] + [table[n - 1]];
      SumAppend(front, table[n - 2]);
      SumAppend(table[..n - 1], table[n - 1]);
    }
  }

  /** Spans of less than `k` times the limit plus one need at most 2 `k` segments. */
  lemma NeededIsBounded(spans: seq<nat>, k: nat)
    requires EachFits(spans) && Sum(spans) < k * (LIMIT + 1)
    ensures Needed(spans) <= 2 * k
  {
    hide Greedy, Sum;
    var table := |spans| + 2;
    NeededIsEnough(spans, table);
    SameUnlessFull(spans, table, table);
    GreedyPairsExceed(spans, table);
    if Needed(spans) > 2 * k {
      PairsSum(Greedy(spans, table).Table(), k);
    }
  }

  /** A bound on each slave and one on all together make a layout fit the table of 64 segments. */
  lemma GroupFits(list: seq<Slave>)
    requires HasSms(list) && EachShort(list)
    requires TotalBytes(list, OUTPUTS) + TotalBytes(list, INPUTS) + 2 < 32 * (LIMIT + 1)
    ensures Fits(AllSpans(list, OUTPUTS), AllSpans(list, INPUTS))
  {
    GroupNeeds(list, 32);
  }

  lemma GroupNeeds(list: seq<Slave>, k: nat)
    requires HasSms(list) && EachShort(list)
    requires TotalBytes(list, OUTPUTS) + TotalBytes(list, INPUTS) + 2 < k * (LIMIT + 1)
    ensures var outs, ins := AllSpans(list, OUTPUTS), AllSpans(list, INPUTS);
            EachFits(outs + ins) && Needed(outs + ins) <= 2 * k
  {
    hide AllSpans, Sum, Needed;
    AllSpansAreShort(list, OUTPUTS);
    AllSpansAreShort(list, INPUTS);
    SumConcat(AllSpans(list, OUTPUTS), AllSpans(list, INPUTS));
    NeededIsBounded(AllSpans(list, OUTPUTS) + AllSpans(list, INPUTS), k);
  }
}

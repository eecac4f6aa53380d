/** Which logical ranges the cyclic datagrams address, and how the work counters add up. */
module Pieces {
  import opened Segments

  /** A datagram's logical range: `length` bytes from `addr`. */
  datatype Piece = Piece(addr: nat, length: nat)

  /** The pieces follow each other from `lo` and end at `hi`. */
  ghost predicate Partition(ps: seq<Piece>, lo: nat, hi: nat) {
    if ps == [] then lo == hi
    else ps[0].addr == lo && Partition(ps[1..], lo + ps[0].length, hi)
  }

  /** One datagram per segment from number `cur` on, as long as there is data left. */
  function OnePerSegment(segs: seq<nat>, cur: nat, addr: nat, length: int): (ps: seq<Piece>)
    requires cur < |segs|
    ensures ps != []
    decreases |segs| - cur
  {
    [Piece(addr, segs[cur])] +
    if length - segs[cur] != 0 && cur + 1 < |segs|
    then OnePerSegment(segs, cur + 1, addr + segs[cur], length - segs[cur]) else []
  }

  /** The inputs alone: the segment they start in is used from `offset` on. */
  function InputPieces(segs: seq<nat>, isegment: nat, offset: nat, addr: nat, length: int): (ps: seq<Piece>)
    requires isegment < |segs| && offset <= segs[isegment]
    ensures ps != []
  {
    OnePerSegment(segs[isegment := segs[isegment] - offset], isegment, addr, length)
  }

  /** The outputs alone: the segment they end in is used only so far. */
  function OutputPieces(segs: seq<nat>, cur: nat, addr: nat, length: nat): (ps: seq<Piece>)
    requires cur < |segs|
    ensures ps != []
    decreases |segs| - cur
  {
    var sub := if length < segs[cur] then length else segs[cur];
    [Piece(addr, sub)] +
    if length - sub != 0 && cur + 1 < |segs| then OutputPieces(segs, cur + 1, addr + sub, length - sub) else []
  }

  /** Sum of the elements from `cur` on. */
  function Rest(s: seq<nat>, cur: nat): nat
    requires cur <= |s|
    decreases |s| - cur
  {
    if cur == |s| then 0 else s[cur] + Rest(s, cur + 1)
  }

  lemma {:induction false} RestOfSum(s: seq<nat>, cur: nat)
    requires cur <= |s|
    ensures Start(s, cur) + Rest(s, cur) == Sum(s)
    decreases |s| - cur
  {
    if cur == |s| {
      assert s[..cur] == s;
    } else {
      StartsIncrease(s, cur, |s|);
      RestOfSum(s, cur + 1);
    }
  }

  /** Datagrams cover a range exactly when the segments do. */
  lemma {:induction false} SegmentsPartition(segs: seq<nat>, cur: nat, addr: nat, length: nat)
    requires cur < |segs| && length == Rest(segs, cur)
    ensures Partition(OnePerSegment(segs, cur, addr, length), addr, addr + length)
    decreases |segs| - cur
  {
    var ps := OnePerSegment(segs, cur, addr, length);
    if length - segs[cur] != 0 && cur + 1 < |segs| {
      SegmentsPartition(segs, cur + 1, addr + segs[cur], length - segs[cur]);
      assert ps[1..] == OnePerSegment(segs, cur + 1, addr + segs[cur], length - segs[cur]);
    } else {
      assert ps[1..] == [];
    }
  }

  lemma {:induction false} OutputsPartition(segs: seq<nat>, cur: nat, addr: nat, length: nat)
    requires cur < |segs| && length <= Rest(segs, cur)
    ensures Partition(OutputPieces(segs, cur, addr, length), addr, addr + length)
    decreases |segs| - cur
  {
    var ps := OutputPieces(segs, cur, addr, length);
    var sub := if length < segs[cur] then length else segs[cur];
    if length - sub != 0 && cur + 1 < |segs| {
      OutputsPartition(segs, cur + 1, addr + sub, length - sub);
      assert ps[1..] == OutputPieces(segs, cur + 1, addr + sub, length - sub);
    } else {
      assert ps[1..] == [];
    }
  }

  // ----- Both ways of sending address exactly what they should.

  /** A layout as `Group.Laid` describes it, with every slave's part short enough for a segment and
      no more segments than the table has. */
  ghost predicate Fits(outs: seq<nat>, ins: seq<nat>) {
    EachFits(outs + ins) && Needed(outs + ins) <= TABLE
  }

  function Table(outs: seq<nat>, ins: seq<nat>): seq<nat> {
    Greedy(outs + ins, TABLE).Table()
  }

  lemma {:induction false} NeededOfPrefix(a: seq<nat>, b: seq<nat>)
    ensures Needed(a) <= Needed(a + b)
  {
    if b == [] {
      assert a + b == a;
    } else {
      NeededGrows(a + b);
      assert (a + b)[..|a + b| - 1] == a + b[..|b| - 1];
      NeededOfPrefix(a, b[..|b| - 1]);
    }
  }

  /** Where the inputs begin in the segment table. */
  lemma InputsBegin(outs: seq<nat>, ins: seq<nat>)
    requires Fits(outs, ins)
    ensures var t := Table(outs, ins);
            var c := Greedy(outs, TABLE);
            Sum(t) == Sum(outs) + Sum(ins) &&
            |c.full| < |t| && c.size <= t[|c.full|] && Start(t, |c.full|) + c.size == Sum(outs)
  {
    hide Greedy, Sum, Needed;
    SegmentsHoldAll(outs + ins);
    SumConcat(outs, ins);
    NeededOfPrefix(outs, ins);
    assert EachFits(outs) by {
      assert forall k | 0 <= k < |outs| :: (outs + ins)[k] == outs[k];
    }
    SegmentsHoldAll(outs);
    LaterSpans(outs, ins, TABLE);
    TableSum(Greedy(outs, TABLE));
  }

  lemma {:induction false} RestOfChanged(s: seq<nat>, i: nat, x: nat, cur: nat)
    requires i < |s| && cur <= |s|
    ensures Rest(s[i := x], cur) == Rest(s, cur) + if cur <= i then x - s[i] else 0
    decreases |s| - cur
  {
    if cur < |s| {
      RestOfChanged(s, i, x, cur + 1);
    }
  }

  /** LRW datagrams address every byte of the image once. */
  lemma LrwCoversImage(outs: seq<nat>, ins: seq<nat>)
    requires Fits(outs, ins)
    ensures var n := Sum(outs) + Sum(ins);
            Partition(OnePerSegment(Table(outs, ins), 0, 0, n), 0, n)
  {
    hide Greedy, Sum, Needed, OnePerSegment, Partition, Rest;
    var t := Table(outs, ins);
    InputsBegin(outs, ins);
    RestOfSum(t, 0);
    StartOfAll(t);
    SegmentsPartition(t, 0, 0, Sum(t));
  }

  /** LRD datagrams address every input byte once. */
  lemma LrdCoversInputs(outs: seq<nat>, ins: seq<nat>)
    requires Fits(outs, ins)
    ensures var t := Table(outs, ins);
            var c := Greedy(outs, TABLE);
            |c.full| < |t| && c.size <= t[|c.full|] &&
            Partition(InputPieces(t, |c.full|, c.size, Sum(outs), Sum(ins)), Sum(outs), Sum(outs) + Sum(ins))
  {
    hide Greedy, Sum, Needed, InputPieces, Partition, Table, Start, EachFits;
    InputsBegin(outs, ins);
    InputsPartition(Table(outs, ins), |Greedy(outs, TABLE).full|, Greedy(outs, TABLE).size, Sum(outs), Sum(ins));
  }

  lemma InputsPartition(t: seq<nat>, k: nat, offset: nat, addr: nat, length: nat)
    requires k < |t| && offset <= t[k] && addr == Start(t, k) + offset && addr + length == Sum(t)
    ensures Partition(InputPieces(t, k, offset, addr, length), addr, addr + length)
  {
    hide Sum, OnePerSegment, Partition, Rest;
    RestOfSum(t, k);
    RestOfChanged(t, k, t[k] - offset, k);
    SegmentsPartition(t[k := t[k] - offset], k, addr, length);
  }

  /** LWR datagrams address every output byte once. */
  lemma LwrCoversOutputs(outs: seq<nat>, ins: seq<nat>)
    requires Fits(outs, ins)
    ensures Partition(OutputPieces(Table(outs, ins), 0, 0, Sum(outs)), 0, Sum(outs))
  {
    hide Greedy, Sum, Needed, OutputPieces, Partition, Rest;
    var t := Table(outs, ins);
    InputsBegin(outs, ins);
    RestOfSum(t, 0);
    StartOfAll(t);
    OutputsPartition(t, 0, 0, Sum(outs));
  }

  lemma StartOfAll(s: seq<nat>)
    ensures Start(s, 0) == 0
  {
    assert s[..0] == [];
  }

  function Length(ps: seq<Piece>): nat {
    if ps == [] then 0 else ps[0].length + Length(ps[1..])
  }

  lemma PartitionLength(ps: seq<Piece>, lo: nat, hi: nat)
    requires Partition(ps, lo, hi)
    ensures Length(ps) == hi - lo
  {
  }

  lemma {:induction false} PartitionInImage(ps: seq<Piece>, lo: nat, hi: nat, k: nat)
    requires Partition(ps, lo, hi) && k < |ps|
    ensures lo <= ps[k].addr && ps[k].addr + ps[k].length <= hi
  {
    PartitionLength(ps[1..], lo + ps[0].length, hi);
    if k > 0 {
      PartitionInImage(ps[1..], lo + ps[0].length, hi, k - 1);
    }
  }

  lemma {:induction false} AtMostTheTable(segs: seq<nat>, cur: nat, addr: nat, length: int)
    requires cur < |segs|
    ensures Length(OnePerSegment(segs, cur, addr, length)) <= Rest(segs, cur)
    decreases |segs| - cur
  {
    var ps := OnePerSegment(segs, cur, addr, length);
    if length - segs[cur] != 0 && cur + 1 < |segs| {
      AtMostTheTable(segs, cur + 1, addr + segs[cur], length - segs[cur]);
      assert ps[1..] == OnePerSegment(segs, cur + 1, addr + segs[cur], length - segs[cur]);
    } else {
      assert ps[1..] == [];
    }
  }

  lemma LrwFallsShort(spans: seq<nat>, n: nat)
    requires EachFits(spans) && Needed(spans) > TABLE && n == Sum(spans)
    ensures !Partition(OnePerSegment(Greedy(spans, TABLE).Table(), 0, 0, n), 0, n)
  {
    hide Greedy, Needed, OnePerSegment, Length, Rest, Sum;
    var t := Greedy(spans, TABLE).Table();
    SegmentsHoldAll(spans);
    NeverTooMuch(spans);
    RestOfSum(t, 0);
    StartOfAll(t);
    AtMostTheTable(t, 0, 0, n);
    if Partition(OnePerSegment(t, 0, 0, n), 0, n) {
      PartitionLength(OnePerSegment(t, 0, 0, n), 0, n);
    }
  }

  /** The LRW datagrams cover the image if and only if the segment table is long enough. */
  lemma LrwCoversIffTableSuffices(outs: seq<nat>, ins: seq<nat>)
    requires EachFits(outs + ins)
    ensures var n := Sum(outs) + Sum(ins);
            Partition(OnePerSegment(Table(outs, ins), 0, 0, n), 0, n) <==> Needed(outs + ins) <= TABLE
  {
    hide Greedy, Needed, OnePerSegment, Partition, Sum;
    SumConcat(outs, ins);
    if Needed(outs + ins) <= TABLE {
      LrwCoversImage(outs, ins);
    } else {
      LrwFallsShort(outs + ins, Sum(outs) + Sum(ins));
    }
  }

  lemma NeverTooMuch(spans: seq<nat>)
    requires EachFits(spans)
    ensures Sum(Greedy(spans, TABLE).Table()) <= Sum(spans)
  {
    SameUnlessFull(spans, TABLE, |spans| + 2 + TABLE);
  }
}

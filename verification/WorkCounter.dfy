/** The expected work counter. A slave adds 2 to a datagram that writes one of its output windows or a part of
    it, and 1 to a datagram that reads one of its input windows or a part of it; the master doubles the
    counters of write-only datagrams. */
module WorkCounter {
  import opened FmmuMapping
  import opened Segments
  import opened IoMap
  import opened Pieces

  predicate Overlaps(w: Fmmu, p: Piece) {
    !w.IsEmpty() && w.Begin() < 8 * (p.addr + p.length) && 8 * p.addr < w.End()
  }

  predicate Inside(w: Fmmu, p: Piece) {
    8 * p.addr <= w.Begin() && w.End() <= 8 * (p.addr + p.length)
  }

  /** How many windows one datagram reaches. */
  function Hits(ws: seq<Fmmu>, p: Piece): nat {
    if ws == [] then 0 else Hits(ws[..|ws| - 1], p) + if Overlaps(ws[|ws| - 1], p) then 1 else 0
  }

  function Total(ws: seq<Fmmu>, ps: seq<Piece>): nat {
    if ps == [] then 0 else Hits(ws, ps[0]) + Total(ws, ps[1..])
  }

  /** How many datagrams reach one window. */
  function Touches(w: Fmmu, ps: seq<Piece>): nat {
    if ps == [] then 0 else (if Overlaps(w, ps[0]) then 1 else 0) + Touches(w, ps[1..])
  }

  function NonEmpty(ws: seq<Fmmu>): nat {
    if ws == [] then 0 else NonEmpty(ws[..|ws| - 1]) + if ws[|ws| - 1].IsEmpty() then 0 else 1
  }

  lemma {:induction false} NotTouchedBefore(w: Fmmu, ps: seq<Piece>, lo: nat, hi: nat)
    requires Partition(ps, lo, hi) && w.End() <= 8 * lo
    ensures Touches(w, ps) == 0
  {
    if ps != [] {
      NotTouchedBefore(w, ps[1..], lo + ps[0].length, hi);
    }
  }

  lemma {:induction false} EmptyIsNotTouched(w: Fmmu, ps: seq<Piece>)
    requires w.IsEmpty()
    ensures Touches(w, ps) == 0
  {
    if ps != [] {
      EmptyIsNotTouched(w, ps[1..]);
    }
  }

  lemma {:induction false} TotalByWindow(ws: seq<Fmmu>, w: Fmmu, ps: seq<Piece>)
    ensures Total(ws + [w], ps) == Total(ws, ps) + Touches(w, ps)
  {
    if ps != [] {
      assert (ws + [w])[..|ws|] == ws;
      TotalByWindow(ws, w, ps[1..]);
    }
  }

  lemma {:induction false} NoWindows(ps: seq<Piece>)
    ensures Total([], ps) == 0
  {
    if ps != [] {
      NoWindows(ps[1..]);
    }
  }

  ghost predicate HasPiece(w: Fmmu, ps: seq<Piece>) {
    exists j | 0 <= j < |ps| :: Inside(w, ps[j])
  }

  /** No window is cut by a border between two datagrams. */
  ghost predicate Uncut(ws: seq<Fmmu>, ps: seq<Piece>) {
    forall i | 0 <= i < |ws| && !ws[i].IsEmpty() :: HasPiece(ws[i], ps)
  }

  /** How often windows are reached by more than the one datagram that each of them needs. */
  function Cuts(ws: seq<Fmmu>, ps: seq<Piece>): int {
    if ws == [] then 0 else
      var w := ws[|ws| - 1];
      Cuts(ws[..|ws| - 1], ps) + if w.IsEmpty() then 0 else Touches(w, ps) - 1
  }

  ghost predicate InRange(ws: seq<Fmmu>, lo: nat, hi: nat) {
    forall i | 0 <= i < |ws| :: 8 * lo <= ws[i].Begin() && ws[i].End() <= 8 * hi
  }

  lemma NotInsideLater(w: Fmmu, ps: seq<Piece>, lo: nat, hi: nat)
    requires Partition(ps, lo, hi) && w.Begin() < 8 * lo
    ensures !HasPiece(w, ps)
  {
    forall j | 0 <= j < |ps| ensures !Inside(w, ps[j]) {
      PartitionInImage(ps, lo, hi, j);
    }
  }

  lemma HasPieceNext(w: Fmmu, ps: seq<Piece>)
    requires ps != []
    ensures HasPiece(w, ps) <==> Inside(w, ps[0]) || HasPiece(w, ps[1..])
  {
    hide Inside;
    if HasPiece(w, ps) && !Inside(w, ps[0]) {
      var j :| 0 <= j < |ps| && Inside(w, ps[j]);
      assert ps[1..][j - 1] == ps[j];
    }
    if HasPiece(w, ps[1..]) {
      var j :| 0 <= j < |ps[1..]| && Inside(w, ps[1..][j]);
      assert ps[j + 1] == ps[1..][j];
    }
  }

  /** Every window is reached, and by one datagram alone if and only if none of their borders cuts it. */
  lemma {:induction false} TouchedOnceIff(w: Fmmu, ps: seq<Piece>, lo: nat, hi: nat)
    requires Partition(ps, lo, hi) && !w.IsEmpty() && 8 * lo <= w.Begin() && w.End() <= 8 * hi
    ensures Touches(w, ps) >= 1
    ensures Touches(w, ps) == 1 <==> HasPiece(w, ps)
  {
    hide HasPiece;
    var rest, mid := ps[1..], lo + ps[0].length;
    HasPieceNext(w, ps);
    if w.End() <= 8 * mid {
      NotTouchedBefore(w, rest, mid, hi);
    } else if 8 * mid <= w.Begin() {
      TouchedOnceIff(w, rest, mid, hi);
    } else {
      NotInsideLater(w, rest, mid, hi);
      assert Overlaps(w, rest[0]);
    }
  }

  /** The counters of all datagrams add up to the windows, and to the cuts. */
  lemma {:induction false} TotalCountsCuts(ws: seq<Fmmu>, ps: seq<Piece>)
    ensures Total(ws, ps) == NonEmpty(ws) + Cuts(ws, ps)
  {
    if ws == [] {
      NoWindows(ps);
    } else {
      var front, w := ws[..|ws| - 1], ws[|ws| - 1];
      TotalCountsCuts(front, ps);
      TotalByWindow(front, w, ps);
      assert ws == front + [w];
      if w.IsEmpty() {
        EmptyIsNotTouched(w, ps);
      }
    }
  }

  lemma {:induction false} NoCutsIff(ws: seq<Fmmu>, ps: seq<Piece>, lo: nat, hi: nat)
    requires Partition(ps, lo, hi) && InRange(ws, lo, hi)
    ensures Cuts(ws, ps) >= 0
    ensures Cuts(ws, ps) == 0 <==> Uncut(ws, ps)
  {
    hide HasPiece, Touches, Fmmu.IsEmpty;
    if ws != [] {
      var front, w := ws[..|ws| - 1], ws[|ws| - 1];
      NoCutsIff(front, ps, lo, hi);
      assert Uncut(ws, ps) <==> Uncut(front, ps) && (w.IsEmpty() || HasPiece(w, ps));
      if !w.IsEmpty() {
        TouchedOnceIff(w, ps, lo, hi);
      }
    }
  }

  /** The counters of all datagrams add up to the windows if and only if no window is cut. */
  lemma TotalCountsWindowsIff(ws: seq<Fmmu>, ps: seq<Piece>, lo: nat, hi: nat)
    requires Partition(ps, lo, hi) && InRange(ws, lo, hi)
    ensures Total(ws, ps) == NonEmpty(ws) <==> Uncut(ws, ps)
    ensures Total(ws, ps) >= NonEmpty(ws)
  {
    TotalCountsCuts(ws, ps);
    NoCutsIff(ws, ps, lo, hi);
  }

  // ----- Which datagram holds a window.

  lemma {:induction false} PieceOfSegment(segs: seq<nat>, cur: nat, addr: nat, length: nat, j: nat)
    requires cur <= j < |segs| && segs[j] > 0 && length == Rest(segs, cur)
    ensures Rest(segs, j) <= Rest(segs, cur)
    ensures Piece(addr + Rest(segs, cur) - Rest(segs, j), segs[j]) in OnePerSegment(segs, cur, addr, length)
    decreases j - cur
  {
    hide OnePerSegment, Rest;
    RestShrinks(segs, cur, j);
    PiecesStart(segs, cur, addr, length);
    if cur < j {
      RestShrinks(segs, cur + 1, j);
      RestNext(segs, cur);
      PieceOfSegment(segs, cur + 1, addr + segs[cur], length - segs[cur], j);
      PiecesNext(segs, cur, addr, length);
    }
  }

  lemma RestNext(segs: seq<nat>, cur: nat)
    requires cur < |segs|
    ensures Rest(segs, cur) == segs[cur] + Rest(segs, cur + 1)
  {
  }

  lemma PiecesStart(segs: seq<nat>, cur: nat, addr: nat, length: int)
    requires cur < |segs|
    ensures Piece(addr, segs[cur]) in OnePerSegment(segs, cur, addr, length)
  {
    assert OnePerSegment(segs, cur, addr, length)[0] == Piece(addr, segs[cur]);
  }

  lemma PiecesNext(segs: seq<nat>, cur: nat, addr: nat, length: int)
    requires cur + 1 < |segs| && length - segs[cur] != 0
    ensures forall p | p in OnePerSegment(segs, cur + 1, addr + segs[cur], length - segs[cur]) ::
              p in OnePerSegment(segs, cur, addr, length)
  {
    var rest := OnePerSegment(segs, cur + 1, addr + segs[cur], length - segs[cur]);
    assert OnePerSegment(segs, cur, addr, length) == [Piece(addr, segs[cur])] + rest;
  }

  lemma {:induction false} RestShrinks(s: seq<nat>, i: nat, j: nat)
    requires i <= j <= |s|
    ensures Rest(s, j) <= Rest(s, i)
    ensures j < |s| ==> s[j] <= Rest(s, i)
    decreases j - i
  {
    if i < j {
      RestShrinks(s, i + 1, j);
    }
  }

  lemma {:induction false} PieceOfOutputs(segs: seq<nat>, cur: nat, addr: nat, length: nat, j: nat)
    requires cur <= j < |segs| && segs[j] > 0
    requires Rest(segs, cur) - Rest(segs, j) < length <= Rest(segs, cur)
    ensures var before := Rest(segs, cur) - Rest(segs, j);
            before >= 0 &&
            Piece(addr + before, if length - before < segs[j] then length - before else segs[j])
              in OutputPieces(segs, cur, addr, length)
    decreases j - cur
  {
    RestShrinks(segs, cur, j);
    if cur < j {
      RestShrinks(segs, cur + 1, j);
      PieceOfOutputs(segs, cur + 1, addr + segs[cur], length - segs[cur], j);
    }
  }

  /** The segment that holds a window, which is not empty, of a slave with whole bytes. */
  lemma SegmentOfWindow(w: Fmmu, outs: seq<nat>, ins: seq<nat>) returns (j: nat)
    requires Fits(outs, ins) && InSpan(w, outs + ins) && !w.IsEmpty()
    ensures var t := Table(outs, ins);
            j < |t| && t[j] > 0 && Inside(w, Piece(Start(t, j), t[j]))
  {
    var spans := outs + ins;
    var k :| 0 <= k < |spans| && Begins(w, spans, k) && w.End() <= 8 * (Start(spans, k) + spans[k]);
    hide Greedy, Sum, Needed;
    j := SpanInSegment(spans, k);
  }

  lemma HasThisPiece(w: Fmmu, p: Piece, ps: seq<Piece>)
    requires p in ps && Inside(w, p)
    ensures HasPiece(w, ps)
  {
  }

  lemma SegmentIsSent(t: seq<nat>, j: nat)
    requires j < |t| && t[j] > 0
    ensures Piece(Start(t, j), t[j]) in OnePerSegment(t, 0, 0, Sum(t))
  {
    hide Sum, OnePerSegment, Rest, Start;
    RestOfSum(t, 0);
    RestOfSum(t, j);
    StartOfAll(t);
    PieceOfSegment(t, 0, 0, Sum(t), j);
  }

  lemma LrwHasPiece(w: Fmmu, outs: seq<nat>, ins: seq<nat>)
    requires Fits(outs, ins) && InSpan(w, outs + ins) && !w.IsEmpty()
    ensures HasPiece(w, OnePerSegment(Table(outs, ins), 0, 0, Sum(outs) + Sum(ins)))
  {
    hide Greedy, Sum, Needed, OnePerSegment, InSpan, Inside, HasPiece, Start, EachFits;
    hide Fmmu.Begin, Fmmu.End, Fmmu.IsEmpty;
    var t := Table(outs, ins);
    var j := SegmentOfWindow(w, outs, ins);
    InputsBegin(outs, ins);
    SegmentIsSent(t, j);
    HasThisPiece(w, Piece(Start(t, j), t[j]), OnePerSegment(t, 0, 0, Sum(t)));
  }

  /** A window behind the outputs is not in a segment before the one in which the inputs begin. */
  lemma InputSegment(w: Fmmu, t: seq<nat>, j: nat, k: nat, offset: nat)
    requires j < |t| && k < |t| && Inside(w, Piece(Start(t, j), t[j])) && !w.IsEmpty()
    requires 8 * (Start(t, k) + offset) <= w.Begin()
    ensures k <= j
  {
    hide Sum;
    if j < k {
      StartsIncrease(t, j, k);
      StartsIncrease(t, j + 1, k);
    }
  }

  /** The LRD datagram of segment `j`: the first one leaves out what belongs to the outputs. */
  function InputPiece(t: seq<nat>, k: nat, offset: nat, j: nat): Piece
    requires k <= j < |t| && offset <= t[k]
  {
    if j == k then Piece(Start(t, k) + offset, t[k] - offset) else Piece(Start(t, j), t[j])
  }

  lemma InputPieceIsSent(t: seq<nat>, k: nat, offset: nat, j: nat, addr: nat, length: nat)
    requires k <= j < |t| && offset <= t[k] && addr == Start(t, k) + offset && addr + length == Sum(t)
    requires InputPiece(t, k, offset, j).length > 0
    ensures InputPiece(t, k, offset, j) in InputPieces(t, k, offset, addr, length)
  {
    hide Sum, Rest, OnePerSegment;
    var t' := t[k := t[k] - offset];
    RestOfSum(t, k);
    RestOfSum(t, j);
    RestOfChanged(t, k, t[k] - offset, k);
    RestOfChanged(t, k, t[k] - offset, j);
    PieceOfSegment(t', k, addr, length, j);
  }

  lemma InsideInputPiece(w: Fmmu, t: seq<nat>, k: nat, offset: nat, j: nat)
    requires k <= j < |t| && offset <= t[k] && Inside(w, Piece(Start(t, j), t[j])) && !w.IsEmpty()
    requires 8 * (Start(t, k) + offset) <= w.Begin()
    ensures Inside(w, InputPiece(t, k, offset, j)) && InputPiece(t, k, offset, j).length > 0
  {
    hide Sum;
  }

  lemma LrdHasPiece(w: Fmmu, outs: seq<nat>, ins: seq<nat>)
    requires Fits(outs, ins) && InSpan(w, outs + ins) && !w.IsEmpty() && 8 * Sum(outs) <= w.Begin()
    ensures var t := Table(outs, ins);
            var c := Greedy(outs, TABLE);
            |c.full| < |t| && c.size <= t[|c.full|] &&
            HasPiece(w, InputPieces(t, |c.full|, c.size, Sum(outs), Sum(ins)))
  {
    hide Greedy, Sum, Needed, OnePerSegment, InSpan, Rest, Inside, HasPiece, InputPiece, InputPieces, Table;
    hide Fmmu.Begin, Fmmu.End, Fmmu.IsEmpty, Start;
    var t, c := Table(outs, ins), Greedy(outs, TABLE);
    var k := |c.full|;
    var j := SegmentOfWindow(w, outs, ins);
    InputsBegin(outs, ins);
    InputSegment(w, t, j, k, c.size);
    InsideInputPiece(w, t, k, c.size, j);
    InputPieceIsSent(t, k, c.size, j, Sum(outs), Sum(ins));
    HasThisPiece(w, InputPiece(t, k, c.size, j), InputPieces(t, k, c.size, Sum(outs), Sum(ins)));
  }

  lemma LwrHasPiece(w: Fmmu, outs: seq<nat>, ins: seq<nat>)
    requires Fits(outs, ins) && InSpan(w, outs + ins) && !w.IsEmpty() && w.End() <= 8 * Sum(outs)
    ensures HasPiece(w, OutputPieces(Table(outs, ins), 0, 0, Sum(outs)))
  {
    hide Greedy, Sum, Needed, OutputPieces, InSpan, Rest;
    var t := Table(outs, ins);
    var j := SegmentOfWindow(w, outs, ins);
    InputsBegin(outs, ins);
    RestOfSum(t, 0);
    RestOfSum(t, j);
    StartOfAll(t);
    PieceOfOutputs(t, 0, 0, Sum(outs), j);
  }

  /** A window is empty exactly if it has no bytes. */
  ghost predicate Sized(ws: seq<Fmmu>) {
    forall i | 0 <= i < |ws| :: ws[i].IsEmpty() <==> ws[i].logLength == 0
  }

  function Empties(ws: seq<Fmmu>): nat {
    if ws == [] then 0 else Empties(ws[..|ws| - 1]) + if ws[|ws| - 1].logLength == 0 then 1 else 0
  }

  ghost predicate NoneEmpty(ws: seq<Fmmu>) {
    forall i | 0 <= i < |ws| :: ws[i].logLength > 0
  }

  /** Inputs are counted when they are not empty; outputs are always counted. */
  lemma {:induction false} CountedWindows(ws: seq<Fmmu>)
    requires Sized(ws)
    ensures CountWindows(ws, INPUTS) == NonEmpty(ws)
    ensures CountWindows(ws, OUTPUTS) == NonEmpty(ws) + Empties(ws)
    ensures Empties(ws) == 0 <==> NoneEmpty(ws)
  {
    hide Fmmu.IsEmpty;
    if ws != [] {
      CountedWindows(ws[..|ws| - 1]);
    }
  }

  lemma SlaveIsSized(s: Slave, kind: nat)
    requires Holds(s, kind)
    ensures Sized(s.Windows(kind))
  {
    hide Shapes, ShapesOf, Bytes, Capacity;
  }

  lemma {:induction false} AllAreSized(slaves: seq<Slave>, kind: nat)
    requires forall i | 0 <= i < |slaves| :: Holds(slaves[i], kind)
    ensures Sized(AllWindows(slaves, kind))
  {
    hide Holds, Fmmu.IsEmpty;
    if slaves != [] {
      AllAreSized(slaves[..|slaves| - 1], kind);
      SlaveIsSized(slaves[|slaves| - 1], kind);
    }
  }

  /** What the master expects: outputs twice, inputs once. */
  function Expected(outputsWkc: nat, inputsWkc: nat): nat {
    outputsWkc * 2 + inputsWkc
  }

  /** The layout that `Group.MapGroup` leaves. */
  ghost predicate Layout(slaves: seq<Slave>, outs: seq<nat>, ins: seq<nat>, outputsWkc: nat, inputsWkc: nat) {
    Fits(outs, ins) &&
    Mapped(slaves, OUTPUTS, 0, Sum(outs), 0, outputsWkc, outs) &&
    Mapped(slaves, INPUTS, Sum(outs), Sum(outs) + Sum(ins), 0, inputsWkc, outs + ins)
  }

  lemma LayoutWindows(slaves: seq<Slave>, outs: seq<nat>, ins: seq<nat>, outputsWkc: nat, inputsWkc: nat)
    requires Layout(slaves, outs, ins, outputsWkc, inputsWkc)
    ensures var ow, iw := AllWindows(slaves, OUTPUTS), AllWindows(slaves, INPUTS);
            InRange(ow, 0, Sum(outs)) && InRange(iw, Sum(outs), Sum(outs) + Sum(ins)) &&
            outputsWkc == NonEmpty(ow) + Empties(ow) && inputsWkc == NonEmpty(iw) &&
            (Empties(ow) == 0 <==> NoneEmpty(ow))
  {
    hide AllWindows, Sum, BytesInSpans, Holds, CountWindows, NonEmpty, Empties, NoneEmpty, Sized;
    AllAreSized(slaves, OUTPUTS);
    AllAreSized(slaves, INPUTS);
    CountedWindows(AllWindows(slaves, OUTPUTS));
    CountedWindows(AllWindows(slaves, INPUTS));
  }

  /** A larger range holds the same windows. */
  lemma InLargerRange(ws: seq<Fmmu>, lo: nat, hi: nat, lo': nat, hi': nat)
    requires InRange(ws, lo, hi) && lo' <= lo && hi <= hi'
    ensures InRange(ws, lo', hi')
  {
  }

  /** The counter that the datagrams collect, and the expected one: cut windows count too often, and empty
      output windows are expected although no datagram can reach them. */
  ghost predicate Collects(slaves: seq<Slave>, written: seq<Piece>, read: seq<Piece>, expected: nat) {
    var ow, iw := AllWindows(slaves, OUTPUTS), AllWindows(slaves, INPUTS);
    2 * Total(ow, written) + Total(iw, read) == expected + 2 * Cuts(ow, written) + Cuts(iw, read) - 2 * Empties(ow) &&
    Cuts(ow, written) >= 0 && Cuts(iw, read) >= 0 &&
    (Cuts(ow, written) == 0 <==> Uncut(ow, written)) && (Cuts(iw, read) == 0 <==> Uncut(iw, read))
  }

  lemma LrwMeetsExpected(slaves: seq<Slave>, outs: seq<nat>, ins: seq<nat>, outputsWkc: nat, inputsWkc: nat)
    requires Layout(slaves, outs, ins, outputsWkc, inputsWkc)
    ensures var lrw := OnePerSegment(Table(outs, ins), 0, 0, Sum(outs) + Sum(ins));
            Collects(slaves, lrw, lrw, Expected(outputsWkc, inputsWkc))
  {
    hide Layout, AllWindows, Greedy, Sum, OnePerSegment, Total, NonEmpty, Cuts, Uncut, Empties, InRange;
    var lrw := OnePerSegment(Table(outs, ins), 0, 0, Sum(outs) + Sum(ins));
    LayoutWindows(slaves, outs, ins, outputsWkc, inputsWkc);
    LayoutFits(slaves, outs, ins, outputsWkc, inputsWkc);
    LrwCoversImage(outs, ins);
    PiecesCollect(slaves, lrw, 0, Sum(outs) + Sum(ins), lrw, 0, Sum(outs) + Sum(ins), Sum(outs), Sum(ins));
  }

  lemma LayoutFits(slaves: seq<Slave>, outs: seq<nat>, ins: seq<nat>, outputsWkc: nat, inputsWkc: nat)
    requires Layout(slaves, outs, ins, outputsWkc, inputsWkc)
    ensures Fits(outs, ins)
  {
  }

  lemma PiecesCollect(slaves: seq<Slave>, written: seq<Piece>, wlo: nat, whi: nat, read: seq<Piece>, rlo: nat, rhi: nat,
                      outs: nat, ins: nat)
    requires Partition(written, wlo, whi) && Partition(read, rlo, rhi)
    requires wlo == 0 && outs <= whi && rlo <= outs && outs + ins <= rhi
    requires InRange(AllWindows(slaves, OUTPUTS), 0, outs) && InRange(AllWindows(slaves, INPUTS), outs, outs + ins)
    ensures var ow, iw := AllWindows(slaves, OUTPUTS), AllWindows(slaves, INPUTS);
            Collects(slaves, written, read, 2 * (NonEmpty(ow) + Empties(ow)) + NonEmpty(iw))
  {
    hide AllWindows, Total, NonEmpty, Cuts, Uncut, Empties, InRange, Partition;
    var ow, iw := AllWindows(slaves, OUTPUTS), AllWindows(slaves, INPUTS);
    InLargerRange(ow, 0, outs, wlo, whi);
    InLargerRange(iw, outs, outs + ins, rlo, rhi);
    TotalCountsCuts(ow, written);
    TotalCountsCuts(iw, read);
    NoCutsIff(ow, written, wlo, whi);
    NoCutsIff(iw, read, rlo, rhi);
  }

  /** The same with separate LRD and LWR datagrams, whose write counters the master doubles. */
  lemma SeparateMeetsExpected(slaves: seq<Slave>, outs: seq<nat>, ins: seq<nat>, outputsWkc: nat, inputsWkc: nat)
    requires Layout(slaves, outs, ins, outputsWkc, inputsWkc)
    ensures var t := Table(outs, ins);
            var c := Greedy(outs, TABLE);
            |c.full| < |t| && c.size <= t[|c.full|] &&
            Collects(slaves, OutputPieces(t, 0, 0, Sum(outs)), InputPieces(t, |c.full|, c.size, Sum(outs), Sum(ins)),
                     Expected(outputsWkc, inputsWkc))
  {
    hide Layout, AllWindows, Greedy, Sum, InputPieces, OutputPieces, Total, NonEmpty, Cuts, Uncut, Empties, Table;
    hide InRange;
    LayoutWindows(slaves, outs, ins, outputsWkc, inputsWkc);
    LayoutFits(slaves, outs, ins, outputsWkc, inputsWkc);
    LrdCoversInputs(outs, ins);
    LwrCoversOutputs(outs, ins);
    var c := Greedy(outs, TABLE);
    PiecesCollect(slaves, OutputPieces(Table(outs, ins), 0, 0, Sum(outs)), 0, Sum(outs),
                  InputPieces(Table(outs, ins), |c.full|, c.size, Sum(outs), Sum(ins)), Sum(outs), Sum(outs) + Sum(ins),
                  Sum(outs), Sum(ins));
  }

  // ----- Slaves with whole bytes.

  /** Every slave has whole bytes in each direction, or nothing. */
  predicate ByteOriented(slaves: seq<Slave>) {
    forall i | 0 <= i < |slaves| ::
      (slaves[i].obits == 0 || slaves[i].obits >= 8) && (slaves[i].ibits == 0 || slaves[i].ibits >= 8)
  }

  ghost predicate AllInSpans(ws: seq<Fmmu>, spans: seq<nat>) {
    forall i | 0 <= i < |ws| :: InSpan(ws[i], spans)
  }

  lemma {:induction false} WindowsOfSlaves(slaves: seq<Slave>, kind: nat, spans: seq<nat>)
    requires (kind == OUTPUTS || kind == INPUTS) && ByteOriented(slaves) && BytesInSpans(slaves, kind, spans)
    requires forall i | 0 <= i < |slaves| :: Holds(slaves[i], kind)
    ensures AllInSpans(AllWindows(slaves, kind), spans)
  {
    hide InSpan, Capacity, Bytes, Shapes, ShapesOf;
    if slaves != [] {
      var n := |slaves| - 1;
      WindowsOfSlaves(slaves[..n], kind, spans);
      assert Holds(slaves[n], kind);
      var ws := slaves[n].Windows(kind);
      assert forall j | 0 <= j < |ws| :: InSpan(slaves[n].Windows(kind)[j], spans);
    }
  }

  lemma WindowsInSpans(slaves: seq<Slave>, outs: seq<nat>, ins: seq<nat>, outputsWkc: nat, inputsWkc: nat)
    requires Layout(slaves, outs, ins, outputsWkc, inputsWkc) && ByteOriented(slaves)
    ensures AllInSpans(AllWindows(slaves, OUTPUTS), outs + ins) && AllInSpans(AllWindows(slaves, INPUTS), outs + ins)
  {
    hide AllWindows, Greedy, Sum, InSpan, Holds, InOrder, CountWindows;
    WindowsOfSlaves(slaves, OUTPUTS, outs);
    WindowsOfSlaves(slaves, INPUTS, outs + ins);
    forall i | 0 <= i < |AllWindows(slaves, OUTPUTS)|
      ensures InSpan(AllWindows(slaves, OUTPUTS)[i], outs + ins)
    {
      InSpanGrows(AllWindows(slaves, OUTPUTS)[i], outs, ins);
    }
  }

  /** The datagrams do not cut any window of slaves with whole bytes. */
  lemma WholeBytesAreUncut(slaves: seq<Slave>, outs: seq<nat>, ins: seq<nat>, outputsWkc: nat, inputsWkc: nat)
    requires Layout(slaves, outs, ins, outputsWkc, inputsWkc) && ByteOriented(slaves)
    ensures var ow, iw := AllWindows(slaves, OUTPUTS), AllWindows(slaves, INPUTS);
            var t := Table(outs, ins);
            var c := Greedy(outs, TABLE);
            var lrw := OnePerSegment(t, 0, 0, Sum(outs) + Sum(ins));
            |c.full| < |t| && c.size <= t[|c.full|] &&
            Uncut(ow, lrw) && Uncut(iw, lrw) && Uncut(ow, OutputPieces(t, 0, 0, Sum(outs))) &&
            Uncut(iw, InputPieces(t, |c.full|, c.size, Sum(outs), Sum(ins)))
  {
    hide AllWindows, Greedy, Sum, InSpan, HasPiece, OnePerSegment, OutputPieces, InputPieces, Table, Layout;
    var ow, iw := AllWindows(slaves, OUTPUTS), AllWindows(slaves, INPUTS);
    LayoutWindows(slaves, outs, ins, outputsWkc, inputsWkc);
    LayoutFits(slaves, outs, ins, outputsWkc, inputsWkc);
    WindowsInSpans(slaves, outs, ins, outputsWkc, inputsWkc);
    LrdCoversInputs(outs, ins);
    var t, c := Table(outs, ins), Greedy(outs, TABLE);
    var lrw := OnePerSegment(t, 0, 0, Sum(outs) + Sum(ins));
    var lrd := InputPieces(t, |c.full|, c.size, Sum(outs), Sum(ins));
    var lwr := OutputPieces(t, 0, 0, Sum(outs));
    forall i | 0 <= i < |ow| && !ow[i].IsEmpty() ensures HasPiece(ow[i], lrw) && HasPiece(ow[i], lwr) {
      LrwHasPiece(ow[i], outs, ins);
      LwrHasPiece(ow[i], outs, ins);
    }
    forall i | 0 <= i < |iw| && !iw[i].IsEmpty() ensures HasPiece(iw[i], lrw) && HasPiece(iw[i], lrd) {
      LrwHasPiece(iw[i], outs, ins);
      LrdHasPiece(iw[i], outs, ins);
    }
  }
}

/** Two groups for which the master does not report the work counter that it expects: one with an empty
    output window, and one with a window that is cut. */
module WindowCases {
  import opened FmmuMapping
  import opened Segments
  import opened IoMap
  import opened Pieces
  import opened WorkCounter
  import opened NicDriver
  import opened Cycle

  /** Sync managers of which the first two are for outputs, `gap` bytes apart. */
  function TwoSms(first: nat, gap: nat, second: nat): (sm: seq<Sm>)
    ensures |sm| == MAXSM
  {
    [Sm(0x1000, first, OUTPUTS), Sm(0x1000 + first + gap, second, OUTPUTS)] + seq(6, _ => Sm(0, 0, 0))
  }

  lemma NextOfTwo(sm: seq<Sm>)
    requires |sm| == MAXSM && sm[0].kind == OUTPUTS && sm[1].kind == OUTPUTS
    ensures NextOf(sm, OUTPUTS, 0) == 0 && NextOf(sm, OUTPUTS, 1) == 1
  {
  }

  // ----- An empty output window.

  /** A slave with one byte, whose first sync manager for outputs is empty. */
  function Gapped(): Slave {
    Slave(TwoSms(0, 0x1000, 1), 8, 0, [Fmmu(0, 0, 0, 7, 0x1000), Fmmu(0, 0, 1, 7, 0x2000)], [], false)
  }

  lemma GappedShapes()
    ensures Shapes(Gapped().sm, OUTPUTS, 8, 0, 0, 0) == [(0x1000, 0), (0x2000, 1)]
  {
    hide Shapes, NextOf, Collected;
    var sm := Gapped().sm;
    NextOfTwo(sm);
    ShapesNext(sm, OUTPUTS, 8, 0, 0, 0);
    CollectedNext(sm, OUTPUTS, 8, 0, 0);
    ShapesNext(sm, OUTPUTS, 8, 1, 0, 0);
    CollectedNext(sm, OUTPUTS, 8, 1, 1);
    NoMoreShapes(sm, 8, 1, 1, 1);
  }

  lemma NoMoreShapes(sm: seq<Sm>, bits: nat, smc: nat, byteCount: nat, done: nat)
    requires |sm| == MAXSM && smc < MAXSM && done >= RoundUp(bits)
    ensures Shapes(sm, OUTPUTS, bits, smc, byteCount, done) == []
  {
  }

  lemma OneSlave(s: Slave, kind: nat)
    ensures AllWindows([s], kind) == s.Windows(kind)
  {
    assert [s][..0] == [];
    assert [] + s.Windows(kind) == s.Windows(kind);
  }

  lemma GappedHolds()
    ensures Holds(Gapped(), OUTPUTS) && Holds(Gapped(), INPUTS)
  {
    hide Shapes, Capacity;
    GappedShapes();
    var ws := Gapped().outs;
    assert ws[..1] == [ws[0]] && ws[..0] == [] && [ws[0]][..0] == [];
    assert Bytes(ws) == 1;
  }

  /** One slave with two output windows, of which the first one is empty. */
  lemma GappedLayout()
    ensures Layout([Gapped()], [1], [], 2, 0)
  {
    hide Shapes, Holds, BytesInSpans, Needed, Sum, CountWindows, AllWindows;
    GappedHolds();
    OneSlave(Gapped(), OUTPUTS);
    OneSlave(Gapped(), INPUTS);
    OneByte();
    GappedInSpans();
    OutputsAreCounted(Gapped().outs);
    assert [1] + [] == [1];
    NothingToMap([Gapped()], 1, [1]);
  }

  lemma OneByte()
    ensures Sum([1]) == 1 && Sum([]) == 0 && Needed([1]) == 1
  {
    GreedyNext([], 1, 3);
    SumAppend([], 1);
    assert [] + [1] == [1];
  }

  lemma GreedyNext(spans: seq<nat>, x: nat, table: nat)
    ensures Greedy(spans + [x], table) == Add(Greedy(spans, table), x, table)
  {
    assert (spans + [x])[..|spans|] == spans;
  }

  lemma {:induction false} OutputsAreCounted(ws: seq<Fmmu>)
    ensures CountWindows(ws, OUTPUTS) == |ws|
  {
    if ws != [] {
      OutputsAreCounted(ws[..|ws| - 1]);
    }
  }

  lemma NothingToMap(list: seq<Slave>, addr: nat, spans: seq<nat>)
    requires AllWindows(list, INPUTS) == [] && Sum(spans) == addr
    requires forall i | 0 <= i < |list| :: Holds(list[i], INPUTS) && list[i].ins == []
    ensures Mapped(list, INPUTS, addr, addr, 0, 0, spans)
  {
    hide Holds, AllWindows, Sum;
  }

  lemma GappedInSpans()
    ensures BytesInSpans([Gapped()], OUTPUTS, [1])
  {
    OneByte();
    FillsLastSpan(Gapped().outs, 0, 1, [], 1);
    assert [] + [1] == [1];
  }

  lemma GappedIsExact()
    ensures Exact([Gapped()], OUTPUTS, 0) && AllSpans([Gapped()], OUTPUTS) == [1]
  {
    hide Exact, Folded, AllSpans, Shapes;
    GappedShapes();
    var s := Gapped();
    AppendFills([], s.outs[0], 0);
    AppendFills([s.outs[0]], s.outs[1], 0);
    assert [] + [s.outs[0]] == [s.outs[0]] && [s.outs[0]] + [s.outs[1]] == s.outs;
    assert ShapeBytes([(0x1000, 0), (0x2000, 1)]) == 1;
    FoldedNothing(OUTPUTS, 0, []);
    FoldedOneMore([], s, OUTPUTS, 0, 0, 0, [], []);
    assert [] + [s] == [s] && [] + [1] == [1];
    FoldedAll([s], OUTPUTS, 0, 1, 0, [], [1]);
    ExactHasSms([s], OUTPUTS, 0);
    assert [] + AllSpans([s], OUTPUTS) == AllSpans([s], OUTPUTS);
  }

  /** ... so the master never reports what it expects, although every slave does its work. */
  lemma EmptyWindowIsNeverReached(blocked: bool, wire: seq<Packet>, first: nat)
    ensures Layout([Gapped()], [1], [], 2, 0) && Exact([Gapped()], OUTPUTS, 0) && AllSpans([Gapped()], OUTPUTS) == [1]
    ensures AllWorked([Gapped()], [1], [], blocked, wire, first) ==>
              Reported(wire, CyclePlan([1], [], blocked), first) != Expected(2, 0)
  {
    hide Layout, Balanced, NoneCut, CyclePlan, Reported, AllWorked, Expected, Fits, Exact, AllSpans, NoEmptyOutput;
    GappedLayout();
    GappedIsExact();
    LayoutFits([Gapped()], [1], [], 2, 0);
    GappedHasEmptyOutput();
    if AllWorked([Gapped()], [1], [], blocked, wire, first) {
      NeverMet([Gapped()], [1], [], 2, 0, blocked, wire, first);
    }
  }

  lemma GappedHasEmptyOutput()
    ensures !NoEmptyOutput([Gapped()]) && ByteOriented([Gapped()])
  {
    hide AllWindows;
    OneSlave(Gapped(), OUTPUTS);
    assert AllWindows([Gapped()], OUTPUTS)[0].logLength == 0;
  }

  /** Either an empty output window or a cut one, but not both: the expected counter is not met. */
  lemma NeverMet(slaves: seq<Slave>, outs: seq<nat>, ins: seq<nat>, outputsWkc: nat, inputsWkc: nat, blocked: bool,
                 wire: seq<Packet>, first: nat)
    requires Layout(slaves, outs, ins, outputsWkc, inputsWkc) && Fits(outs, ins)
    requires AllWorked(slaves, outs, ins, blocked, wire, first)
    requires if NoEmptyOutput(slaves) then !NoneCut(slaves, outs, ins, blocked) else ByteOriented(slaves)
    ensures Reported(wire, CyclePlan(outs, ins, blocked), first) != Expected(outputsWkc, inputsWkc)
  {
    hide Layout, Balanced, NoneCut, CyclePlan, Reported, AllWorked, Expected, Fits, NoEmptyOutput, ByteOriented;
    BalancedIff(slaves, outs, ins, outputsWkc, inputsWkc, blocked);
    CycleMeetsExpected(slaves, outs, ins, outputsWkc, inputsWkc, blocked, wire, first);
  }

  // ----- A window that is cut.

  /** A slave with outputs only. */
  function Output(bytes: nat, bits: nat, w: Fmmu): Slave {
    Slave(TwoSms(bytes, 0, 0), bits, 0, [w], [], false)
  }

  /** Slaves with 1465 bytes, 4, 7 and 7 bits of outputs. */
  function Cut(): seq<Slave> {
    [Output(1465, 8 * 1465, Fmmu(0, 0, 1465, 7, 0x1000)), Output(1, 4, Fmmu(1465, 0, 1, 3, 0x1000)),
     Output(1, 7, Fmmu(1465, 4, 2, 2, 0x1000)), Output(1, 7, Fmmu(1466, 3, 2, 1, 0x1000))]
  }

  function CutSpans(): seq<nat> {
    [1465, 0, 1, 1, 1]
  }

  /** The table for a number of segments. */
  lemma CutTable(table: nat)
    requires table > 2
    ensures Greedy(CutSpans(), table) == Cursor([1466], 2) && Sum(CutSpans()) == 1468
  {
    hide Greedy, Sum;
    NoSpansYet(table);
    GreedyNext([], 1465, table);
    GreedyNext([1465], 0, table);
    GreedyNext([1465, 0], 1, table);
    GreedyNext([1465, 0, 1], 1, table);
    GreedyNext([1465, 0, 1, 1], 1, table);
    SumAppend([], 1465);
    SumAppend([1465], 0);
    SumAppend([1465, 0], 1);
    SumAppend([1465, 0, 1], 1);
    SumAppend([1465, 0, 1, 1], 1);
    assert [] + [1465] == [1465] && [1465] + [0] == [1465, 0] && [1465, 0] + [1] == [1465, 0, 1];
    assert [1465, 0, 1] + [1] == [1465, 0, 1, 1] && [1465, 0, 1, 1] + [1] == CutSpans();
  }

  lemma NoSpansYet(table: nat)
    ensures Greedy([], table) == Cursor([], 0) && Sum([]) == 0
  {
  }

  lemma CutFits()
    ensures Fits(CutSpans(), []) && Table(CutSpans(), []) == [1466, 2]
  {
    hide Greedy;
    CutTable(TABLE);
    CutTable(|CutSpans()| + 2);
    assert CutSpans() + [] == CutSpans();
  }

  lemma CutWindows()
    ensures AllWindows(Cut(), OUTPUTS) == [Cut()[0].outs[0], Cut()[1].outs[0], Cut()[2].outs[0], Cut()[3].outs[0]]
    ensures AllWindows(Cut(), INPUTS) == []
  {
    hide AllWindows;
    var c := Cut();
    forall kind
      ensures AllWindows(c, kind) == c[0].Windows(kind) + c[1].Windows(kind) + c[2].Windows(kind) + c[3].Windows(kind)
    {
      AllWindowsAppend(c[..3], c[3], kind);
      AllWindowsAppend(c[..2], c[2], kind);
      AllWindowsAppend(c[..1], c[1], kind);
      OneSlave(c[0], kind);
      assert c == c[..3] + [c[3]] && c[..3] == c[..2] + [c[2]] && c[..2] == c[..1] + [c[1]] && c[..1] == [c[0]];
    }
  }

  lemma CutHolds(i: nat)
    requires i < 4
    ensures Holds(Cut()[i], OUTPUTS) && Holds(Cut()[i], INPUTS)
  {
    hide Shapes, Capacity;
    if i == 0 {
      CutShapes();
      var ws := Cut()[0].outs;
      assert ws[..0] == [];
      assert Bytes(ws) == 1465;
    }
  }

  lemma CutShapes()
    ensures Shapes(Cut()[0].sm, OUTPUTS, 8 * 1465, 0, 0, 0) == [(0x1000, 1465)]
  {
    hide Shapes, NextOf, Collected;
    var sm := Cut()[0].sm;
    NextOfTwo(sm);
    ShapesNext(sm, OUTPUTS, 8 * 1465, 0, 0, 0);
    CollectedNext(sm, OUTPUTS, 8 * 1465, 0, 1465);
    NoMoreShapes(sm, 8 * 1465, 0, 1465, 1465);
  }

  lemma CutInSpans()
    ensures BytesInSpans(Cut(), OUTPUTS, CutSpans())
  {
    hide Sum;
    NoSpansYet(TABLE);
    FillsLastSpan(Cut()[0].outs, 0, 1465, [], 1465);
    assert CutSpans() == [] + [1465] + [0, 1, 1, 1];
    forall j | 0 <= j < 1 {
      InSpanGrows(Cut()[0].outs[j], [] + [1465], [0, 1, 1, 1]);
    }
  }

  lemma CutIsPlaced()
    ensures |Cut()| == 4 && forall i | 0 <= i < 4 :: Cut()[i].Bits(OUTPUTS) > 0
    ensures var c := Cut();
            PlacedAt(c[0], OUTPUTS, 0, 0) && Span(c[0], OUTPUTS, 0) == 1465 && NextBit(c[0], OUTPUTS, 0) == 0 &&
            PlacedAt(c[1], OUTPUTS, 1465, 0) && Span(c[1], OUTPUTS, 0) == 0 && NextBit(c[1], OUTPUTS, 0) == 4 &&
            PlacedAt(c[2], OUTPUTS, 1465, 4) && Span(c[2], OUTPUTS, 4) == 1 && NextBit(c[2], OUTPUTS, 4) == 3 &&
            PlacedAt(c[3], OUTPUTS, 1466, 3) && Span(c[3], OUTPUTS, 3) == 1 && NextBit(c[3], OUTPUTS, 3) == 2
  {
    hide Shapes;
    CutShapes();
    var c := Cut();
    assert c[0].outs[..0] == [];
    assert ShapeBytes([(0x1000, 1465)]) == 1465;
    NextOfTwo(c[1].sm);
  }

  /** The mapping puts these slaves where they are. */
  lemma CutIsExact()
    ensures Exact(Cut(), OUTPUTS, 0) && AllSpans(Cut(), OUTPUTS) == CutSpans()
  {
    hide Exact, Folded, PlacedAt, Span, NextBit, AllSpans, Cut, Slave.Bits;
    CutIsPlaced();
    var c := Cut();
    assert [] + [c[0]] == [c[0]] && [c[0]] + [c[1]] == [c[0], c[1]] && [c[0], c[1]] + [c[2]] == [c[0], c[1], c[2]];
    assert [c[0], c[1], c[2]] + [c[3]] == c && [] + [1465] == [1465] && [1465] + [0] == [1465, 0];
    assert [1465, 0] + [1] == [1465, 0, 1] && [1465, 0, 1] + [1] == [1465, 0, 1, 1];
    FoldedNothing(OUTPUTS, 0, []);
    FoldedOneMore([], c[0], OUTPUTS, 0, 0, 0, [], []);
    FoldedOneMore([c[0]], c[1], OUTPUTS, 0, 1465, 0, [], [1465]);
    FoldedOneMore([c[0], c[1]], c[2], OUTPUTS, 0, 1465, 4, [], [1465, 0]);
    FoldedOneMore([c[0], c[1], c[2]], c[3], OUTPUTS, 0, 1466, 3, [], [1465, 0, 1]);
    FoldedAll(c, OUTPUTS, 0, 1467, 2, [], [1465, 0, 1, 1]);
    ExactHasSms(c, OUTPUTS, 0);
    assert [] + AllSpans(c, OUTPUTS) == AllSpans(c, OUTPUTS);
  }

  /** Where the mapping puts these slaves, and the four windows that it counts. */
  lemma CutLayout()
    ensures Layout(Cut(), CutSpans(), [], 4, 0)
  {
    hide Holds, BytesInSpans, Sum, CountWindows, AllWindows, Fits, Cut, CutSpans;
    CutFits();
    CutTable(TABLE);
    CutWindows();
    CutInSpans();
    CutIsInOrder();
    OutputsAreCounted(AllWindows(Cut(), OUTPUTS));
    forall i | 0 <= i < |Cut()| ensures Holds(Cut()[i], OUTPUTS) && Holds(Cut()[i], INPUTS) {
      CutHolds(i);
    }
    assert CutSpans() + [] == CutSpans();
    NothingToMap(Cut(), 1468, CutSpans());
  }

  lemma CutIsInOrder()
    ensures InOrder(AllWindows(Cut(), OUTPUTS), 0, 8 * 1468) && Sum([]) == 0
    ensures |Cut()| == 4 && forall i | 0 <= i < 4 :: Cut()[i].ins == []
  {
    CutWindows();
    hide AllWindows;
  }

  /** The third window begins in the last byte of the first datagram and ends in the second one. */
  lemma ThirdIsCut(blocked: bool)
    ensures Fits(CutSpans(), []) && !NoneCut(Cut(), CutSpans(), [], blocked) && NoEmptyOutput(Cut())
  {
    hide AllWindows, Greedy, Sum, Fits, Table;
    CutFits();
    CutTable(TABLE);
    CutWindows();
    NoSpansYet(TABLE);
    var ps := Written(CutSpans(), [], blocked);
    assert ps == [Piece(0, 1466), Piece(1466, 2)];
    assert !HasPiece(AllWindows(Cut(), OUTPUTS)[2], ps);
  }

  /** ... and therefore counts twice: the master does not report what it expects. */
  lemma CutWindowCountsTwice(blocked: bool, wire: seq<Packet>, first: nat)
    ensures Layout(Cut(), CutSpans(), [], 4, 0) && Exact(Cut(), OUTPUTS, 0) && AllSpans(Cut(), OUTPUTS) == CutSpans()
    ensures AllWorked(Cut(), CutSpans(), [], blocked, wire, first) ==>
              Reported(wire, CyclePlan(CutSpans(), [], blocked), first) != Expected(4, 0)
  {
    hide Layout, Balanced, NoneCut, CyclePlan, Reported, AllWorked, Expected, Fits, NoEmptyOutput, Cut, CutSpans;
    hide Exact, AllSpans;
    CutLayout();
    CutIsExact();
    ThirdIsCut(blocked);
    if AllWorked(Cut(), CutSpans(), [], blocked, wire, first) {
      NeverMet(Cut(), CutSpans(), [], 4, 0, blocked, wire, first);
    }
  }
}

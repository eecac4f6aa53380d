/** The process image of group 0: all outputs in slave order, then all inputs, cut into segments. */
module IoMap {
  import opened FmmuMapping
  import opened Segments

  datatype Slave = Slave(sm: seq<Sm>, obits: nat, ibits: nat, outs: seq<Fmmu>, ins: seq<Fmmu>, blockLrw: bool)
  {
    function Bits(kind: nat): nat {
      if kind == OUTPUTS then obits else ibits
    }

    function Windows(kind: nat): seq<Fmmu> {
      if kind == OUTPUTS then outs else ins
    }

    function WithWindows(kind: nat, ws: seq<Fmmu>): Slave {
      if kind == OUTPUTS then this.(outs := ws) else this.(ins := ws)
    }
  }

  /** All windows of a kind, in slave order. */
  function AllWindows(slaves: seq<Slave>, kind: nat): seq<Fmmu> {
    if slaves == [] then []
    else AllWindows(slaves[..|slaves| - 1], kind) + slaves[|slaves| - 1].Windows(kind)
  }

  /** Outputs count whatever their size; an input only counts if its window is not empty. */
  function CountWindows(ws: seq<Fmmu>, kind: nat): nat {
    if ws == [] then 0
    else CountWindows(ws[..|ws| - 1], kind)
         + if kind == OUTPUTS || ws[|ws| - 1].logLength > 0 then 1 else 0
  }

  /** A window lies inside one of the spans that follow each other from byte 0. */
  ghost predicate InSpan(w: Fmmu, spans: seq<nat>) {
    exists k | 0 <= k < |spans| :: Begins(w, spans, k) && w.End() <= 8 * (Start(spans, k) + spans[k])
  }

  ghost predicate Begins(w: Fmmu, spans: seq<nat>, k: nat)
    requires k < |spans|
  {
    8 * Start(spans, k) <= w.Begin()
  }

  /** Windows of byte-oriented slaves are not cut. */
  ghost predicate BytesInSpans(slaves: seq<Slave>, kind: nat, spans: seq<nat>) {
    forall i, j | 0 <= i < |slaves| && slaves[i].Bits(kind) >= 8 && 0 <= j < |slaves[i].Windows(kind)| ::
      InSpan(slaves[i].Windows(kind)[j], spans)
  }

  /** The segment table and the two cursor variables stand where the spans so far have put them. */
  ghost predicate Tracks(table: seq<nat>, current: nat, size: nat, spans: seq<nat>) {
    |table| == TABLE && current < TABLE &&
    Greedy(spans, TABLE) == Cursor(table[..current], size)
  }

  lemma InOrderConcat(a: seq<Fmmu>, b: seq<Fmmu>, lo: int, mid: int, hi: int)
    requires InOrder(a, lo, mid) && InOrder(b, mid, hi)
    ensures InOrder(a + b, lo, hi)
  {
    forall i, j | 0 <= i < j < |a + b| ensures (a + b)[i].End() <= (a + b)[j].Begin() {
      if i < |a| && j >= |a| {
        assert a[i].End() <= mid <= b[j - |a|].Begin();
      }
    }
  }

  lemma InSpanGrows(w: Fmmu, spans: seq<nat>, more: seq<nat>)
    requires InSpan(w, spans)
    ensures InSpan(w, spans + more)
  {
    var k :| 0 <= k < |spans| && Begins(w, spans, k) && w.End() <= 8 * (Start(spans, k) + spans[k]);
    assert (spans + more)[..k] == spans[..k];
    assert Begins(w, spans + more, k);
  }

  lemma FillsLastSpan(ws: seq<Fmmu>, lo: nat, hi: nat, spans: seq<nat>, d: nat)
    requires InOrder(ws, 8 * lo, 8 * hi) && Sum(spans) <= lo && hi == Sum(spans) + d
    ensures forall j | 0 <= j < |ws| :: InSpan(ws[j], spans + [d])
  {
    var k := |spans|;
    assert (spans + [d])[..k] == spans;
    forall j | 0 <= j < |ws| ensures InSpan(ws[j], spans + [d]) {
      assert Begins(ws[j], spans + [d], k);
    }
  }

  /** Adds what one slave takes to the current segment, or starts the next segment with it. */
  method AddSpan(table: array<nat>, current0: nat, size0: nat, span: nat, ghost spans: seq<nat>)
    returns (current: nat, size: nat)
    requires Tracks(table[..], current0, size0, spans)
    modifies table
    ensures Tracks(table[..], current, size, spans + [span])
  {
    assert (spans + [span])[..|spans|] == spans;
    current, size := current0, size0;
    if size + span > LIMIT {
      table[current] := size;
      assert table[..current0] == old(table[..current0]);
      if current < TABLE - 1 {
        current := current + 1;
        size := span;
        assert table[..current] == old(table[..current0]) + [size0];
      }
    } else {
      size := size + span;
    }
  }

  function Bytes(ws: seq<Fmmu>): nat {
    if ws == [] then 0 else Bytes(ws[..|ws| - 1]) + ws[|ws| - 1].logLength
  }

  lemma {:induction false} FilledBytes(ws: seq<Fmmu>, lo: nat, hi: nat)
    requires FillBytes(ws, lo, hi)
    ensures Bytes(ws) == hi - lo
  {
    if ws != [] {
      FilledBytes(ws[..|ws| - 1], lo, ws[|ws| - 1].logStart);
    }
  }

  ghost predicate WholeBytes(ws: seq<Fmmu>) {
    forall i | 0 <= i < |ws| :: ws[i].startBit == 0 && ws[i].endBit == 7
  }

  /** A slave has exactly its bits, or its whole bytes as far as its sync managers reach, in windows of
      adjoining sync managers. */
  ghost predicate Holds(s: Slave, kind: nat) {
    |s.sm| == MAXSM &&
    var ws, bits := s.Windows(kind), s.Bits(kind);
    if bits == 0 then ws == []
    else if bits < 8 then |ws| == 1 && ws[0].HasBits() && ws[0].End() - ws[0].Begin() == bits
    else WholeBytes(ws) && ShapesOf(ws) == Shapes(s.sm, kind, bits, 0, 0, 0) && Bytes(ws) <= RoundUp(bits) &&
         (Capacity(s.sm, kind, MAXSM - 1) >= RoundUp(bits) ==> Bytes(ws) == RoundUp(bits))
  }

  // ----- Where exactly everything goes.

  ghost predicate HasSms(list: seq<Slave>) {
    forall i | 0 <= i < |list| :: |list[i].sm| == MAXSM
  }

  function ShapeBytes(shapes: seq<(nat, nat)>): nat {
    if shapes == [] then 0 else shapes[0].1 + ShapeBytes(shapes[1..])
  }

  /** How many bytes the windows of a slave with whole bytes have. */
  function Size(s: Slave, kind: nat): nat
    requires |s.sm| == MAXSM
  {
    ShapeBytes(Shapes(s.sm, kind, s.Bits(kind), 0, 0, 0))
  }

  /** How many byte borders a slave moves the free position over, from bit `bit` on. */
  function Span(s: Slave, kind: nat, bit: nat): nat
    requires |s.sm| == MAXSM
  {
    if s.Bits(kind) < 8 then (bit + s.Bits(kind)) / 8 else RoundUp(bit) + Size(s, kind)
  }

  function NextBit(s: Slave, kind: nat, bit: nat): (b: nat)
    ensures b < 8
  {
    if s.Bits(kind) < 8 then (bit + s.Bits(kind)) % 8 else 0
  }

  /** The free bit after the slaves in `list`; slaves with fewer than eight bits share bytes. */
  function BitAfter(list: seq<Slave>, kind: nat): (b: nat)
    ensures b < 8
  {
    if list == [] then 0 else NextBit(list[|list| - 1], kind, BitAfter(list[..|list| - 1], kind))
  }

  /** The spans that the slaves in `list` take. */
  ghost function SpansOf(list: seq<Slave>, kind: nat): seq<nat>
    requires HasSms(list)
  {
    if list == [] then [] else
      var front, last := list[..|list| - 1], list[|list| - 1];
      SpansOf(front, kind) + if last.Bits(kind) > 0 then [Span(last, kind, BitAfter(front, kind))] else []
  }

  /** ... and the byte in which the last bits end. */
  ghost function AllSpans(list: seq<Slave>, kind: nat): seq<nat>
    requires HasSms(list)
  {
    SpansOf(list, kind) + if BitAfter(list, kind) > 0 then [1] else []
  }

  /** The windows of a slave when bit `bit` of byte `addr` is the first free one. */
  ghost predicate PlacedAt(s: Slave, kind: nat, addr: nat, bit: nat) {
    |s.sm| == MAXSM &&
    var ws, bits := s.Windows(kind), s.Bits(kind);
    if bits == 0 then ws == []
    else if bits < 8 then
      |ws| == 1 && ws[0].HasBits() && ws[0].Begin() == 8 * addr + bit && ws[0].End() == 8 * addr + bit + bits &&
      ws[0].physStart == s.sm[NextOf(s.sm, kind, 0)].start
    else
      FillBytes(ws, addr + RoundUp(bit), addr + Span(s, kind, bit)) && ShapesOf(ws) == Shapes(s.sm, kind, bits, 0, 0, 0)
  }

  /** All windows are where the slaves before leave off, from byte `addr0` on. */
  ghost predicate Exact(list: seq<Slave>, kind: nat, addr0: nat) {
    HasSms(list) &&
    (list != [] ==>
       var front, last := list[..|list| - 1], list[|list| - 1];
       Exact(front, kind, addr0) &&
       PlacedAt(last, kind, addr0 + Sum(SpansOf(front, kind)), BitAfter(front, kind)))
  }

  /** The free position and the spans are those of the slaves in `list`. */
  ghost predicate Folded(list: seq<Slave>, kind: nat, addr0: nat, addr: nat, bit: nat, base: seq<nat>,
                         spans: seq<nat>) {
    Exact(list, kind, addr0) && addr == addr0 + Sum(SpansOf(list, kind)) && bit == BitAfter(list, kind) &&
    spans == base + SpansOf(list, kind)
  }

  lemma FoldedNothing(kind: nat, addr0: nat, base: seq<nat>)
    ensures Folded([], kind, addr0, addr0, 0, base, base)
  {
    assert base + [] == base;
  }

  lemma FoldedOneMore(list: seq<Slave>, s: Slave, kind: nat, addr0: nat, addr: nat, bit: nat, base: seq<nat>,
                      spans: seq<nat>)
    requires Folded(list, kind, addr0, addr, bit, base, spans) && PlacedAt(s, kind, addr, bit)
    ensures var span := Span(s, kind, bit);
            if s.Bits(kind) > 0
            then Folded(list + [s], kind, addr0, addr + span, NextBit(s, kind, bit), base, spans + [span])
            else Folded(list + [s], kind, addr0, addr, bit, base, spans)
  {
    hide Sum, PlacedAt, Span, FillBytes, Shapes, ShapesOf;
    assert (list + [s])[..|list|] == list;
    HasSmsAppend(list, s, kind, addr, bit);
    var spans' := SpansOf(list, kind);
    assert (list + [s])[|list|] == s;
    if s.Bits(kind) > 0 {
      SumAppend(spans', Span(s, kind, bit));
      assert base + (spans' + [Span(s, kind, bit)]) == base + spans' + [Span(s, kind, bit)];
    } else {
      assert spans' + [] == spans';
    }
  }

  lemma HasSmsAppend(list: seq<Slave>, s: Slave, kind: nat, addr: nat, bit: nat)
    requires HasSms(list) && PlacedAt(s, kind, addr, bit)
    ensures HasSms(list + [s])
  {
    hide FillBytes, Shapes, ShapesOf, Span;
  }

  lemma {:induction false} BytesOfShapes(ws: seq<Fmmu>)
    ensures Bytes(ws) == ShapeBytes(ShapesOf(ws))
  {
    if ws != [] {
      var front, w := ws[..|ws| - 1], ws[|ws| - 1];
      BytesOfShapes(front);
      ShapesAppend(front, w);
      assert ws == front + [w];
      ShapeBytesAppend(ShapesOf(front), (w.physStart, w.logLength));
    }
  }

  lemma {:induction false} ShapeBytesAppend(shapes: seq<(nat, nat)>, x: (nat, nat))
    ensures ShapeBytes(shapes + [x]) == ShapeBytes(shapes) + x.1
  {
    if shapes == [] {
      assert shapes + [x] == [x] && [x][1..] == [];
    } else {
      assert (shapes + [x])[1..] == shapes[1..] + [x];
      ShapeBytesAppend(shapes[1..], x);
    }
  }

  lemma BytesPlacedAt(s: Slave, kind: nat, addr0: nat, bit0: nat, addr: nat)
    requires |s.sm| == MAXSM && s.Bits(kind) >= 8 && FillBytes(s.Windows(kind), addr0 + RoundUp(bit0), addr)
    requires ShapesOf(s.Windows(kind)) == Shapes(s.sm, kind, s.Bits(kind), 0, 0, 0)
    ensures PlacedAt(s, kind, addr0, bit0) && addr == addr0 + Span(s, kind, bit0)
  {
    hide Shapes, ShapesOf;
    FilledBytes(s.Windows(kind), addr0 + RoundUp(bit0), addr);
    BytesOfShapes(s.Windows(kind));
    FilledHi(s.Windows(kind), addr0 + RoundUp(bit0), addr);
  }

  lemma FilledHi(ws: seq<Fmmu>, lo: nat, hi: nat)
    requires FillBytes(ws, lo, hi)
    ensures lo <= hi
  {
  }

  /** What holds after the slaves in `list` have been mapped from byte `addr0` on. */
  ghost predicate Mapped(list: seq<Slave>, kind: nat, addr0: nat, addr: nat, bit: nat, wkc: nat, spans: seq<nat>) {
    bit < 8 &&
    InOrder(AllWindows(list, kind), 8 * addr0, 8 * addr + bit) &&
    wkc == CountWindows(AllWindows(list, kind), kind) &&
    Sum(spans) == addr &&
    BytesInSpans(list, kind, spans) &&
    forall i | 0 <= i < |list| :: Holds(list[i], kind)
  }

  lemma {:induction false} CountConcat(a: seq<Fmmu>, b: seq<Fmmu>, kind: nat)
    ensures CountWindows(a + b, kind) == CountWindows(a, kind) + CountWindows(b, kind)
  {
    if b == [] {
      assert a + b == a;
    } else {
      CountConcat(a, b[..|b| - 1], kind);
      assert (a + b)[..|a + b| - 1] == a + b[..|b| - 1];
    }
  }

  lemma AllWindowsAppend(list: seq<Slave>, s: Slave, kind: nat)
    ensures AllWindows(list + [s], kind) == AllWindows(list, kind) + s.Windows(kind)
  {
    assert (list + [s])[..|list|] == list;
  }

  lemma MappedOneMore(list: seq<Slave>, s: Slave, kind: nat, addr0: nat, addr1: nat, bit1: nat, addr: nat, bit: nat,
                      wkc: nat, spans: seq<nat>)
    requires Mapped(list, kind, addr0, addr1, bit1, wkc, spans) && s.Bits(kind) > 0 && |s.sm| == MAXSM
    requires addr1 <= addr && bit < 8
    requires InOrder(s.Windows(kind), 8 * addr1 + bit1, 8 * addr + bit)
    requires Holds(s, kind)
    requires s.Bits(kind) >= 8 ==> bit == 0
    ensures Mapped(list + [s], kind, addr0, addr, bit,
                   wkc + CountWindows(s.Windows(kind), kind), spans + [addr - addr1])
  {
    hide AllWindows, CountWindows, Sum, InOrder, InSpan, Holds, BytesInSpans, Capacity, Fmmu.Begin, Fmmu.End;
    AllWindowsAppend(list, s, kind);
    InOrderConcat(AllWindows(list, kind), s.Windows(kind), 8 * addr0, 8 * addr1 + bit1, 8 * addr + bit);
    CountConcat(AllWindows(list, kind), s.Windows(kind), kind);
    SumAppend(spans, addr - addr1);
    BytesStayInSpans(list, kind, spans, addr - addr1);
    if s.Bits(kind) >= 8 {
      InOrderWidens(s.Windows(kind), 8 * addr1 + bit1, 8 * addr1, 8 * addr, 8 * addr);
      FillsLastSpan(s.Windows(kind), addr1, addr, spans, addr - addr1);
    }
    BytesInSpansAppend(list, s, kind, spans + [addr - addr1]);
    IsInOrder(AllWindows(list, kind), 8 * addr0, 8 * addr1 + bit1);
  }

  lemma IsInOrder(ws: seq<Fmmu>, lo: int, hi: int)
    requires InOrder(ws, lo, hi)
    ensures lo <= hi
  {
  }

  lemma BytesInSpansAppend(list: seq<Slave>, s: Slave, kind: nat, spans: seq<nat>)
    requires BytesInSpans(list, kind, spans)
    requires s.Bits(kind) >= 8 ==> forall j | 0 <= j < |s.Windows(kind)| :: InSpan(s.Windows(kind)[j], spans)
    ensures BytesInSpans(list + [s], kind, spans)
  {
  }

  lemma InOrderWidens(ws: seq<Fmmu>, lo: int, lo': int, hi: int, hi': int)
    requires InOrder(ws, lo, hi) && lo' <= lo && hi <= hi'
    ensures InOrder(ws, lo', hi')
  {
  }

  lemma BytesStayInSpans(list: seq<Slave>, kind: nat, spans: seq<nat>, d: nat)
    requires BytesInSpans(list, kind, spans)
    ensures BytesInSpans(list, kind, spans + [d])
  {
    forall i, j | 0 <= i < |list| && list[i].Bits(kind) >= 8 && 0 <= j < |list[i].Windows(kind)|
      ensures InSpan(list[i].Windows(kind)[j], spans + [d])
    {
      InSpanGrows(list[i].Windows(kind)[j], spans, [d]);
    }
  }

  /** A slave without data of this kind changes nothing. */
  lemma MappedNoData(list: seq<Slave>, s: Slave, kind: nat, addr0: nat, addr: nat, bit: nat, wkc: nat, spans: seq<nat>)
    requires Mapped(list, kind, addr0, addr, bit, wkc, spans)
    requires s.Bits(kind) == 0 && s.Windows(kind) == [] && |s.sm| == MAXSM
    ensures Mapped(list + [s], kind, addr0, addr, bit, wkc, spans)
  {
    hide AllWindows, CountWindows, Sum, InOrder, InSpan, Capacity, Shapes, ShapesOf;
    AllWindowsAppend(list, s, kind);
    assert AllWindows(list, kind) + [] == AllWindows(list, kind);
  }

  /** The byte in which the last bits end belongs to this kind alone. */
  lemma MappedRoundUp(list: seq<Slave>, kind: nat, addr0: nat, addr: nat, bit: nat, wkc: nat, spans: seq<nat>)
    requires Mapped(list, kind, addr0, addr, bit, wkc, spans)
    ensures Mapped(list, kind, addr0, addr + 1, 0, wkc, spans + [1])
  {
    InOrderWidens(AllWindows(list, kind), 8 * addr0, 8 * addr0, 8 * addr + bit, 8 * (addr + 1));
    SumAppend(spans, 1);
    BytesStayInSpans(list, kind, spans, 1);
  }

  ghost predicate Fresh(list: seq<Slave>, kind: nat) {
    forall i | 0 <= i < |list| :: |list[i].sm| == MAXSM && list[i].Windows(kind) == []
  }

  lemma HoldsMapped(s: Slave, kind: nat, addr0: nat, bit0: nat, addr: nat)
    requires |s.sm| == MAXSM && s.Bits(kind) >= 8
    requires FillBytes(s.Windows(kind), addr0 + RoundUp(bit0), addr)
    requires ShapesOf(s.Windows(kind)) == Shapes(s.sm, kind, s.Bits(kind), 0, 0, 0)
    requires addr <= addr0 + RoundUp(bit0) + RoundUp(s.Bits(kind))
    requires Capacity(s.sm, kind, MAXSM - 1) >= RoundUp(s.Bits(kind)) ==>
               addr == addr0 + RoundUp(bit0) + RoundUp(s.Bits(kind))
    ensures Holds(s, kind) && addr0 <= addr
  {
    hide Shapes, ShapesOf, Capacity, Bytes;
    FilledBytes(s.Windows(kind), addr0 + RoundUp(bit0), addr);
  }

  /** One slave of the loop over all slaves. */
  method MapNext(s0: Slave, kind: nat, addr0: nat, bit0: nat) returns (s: Slave, addr: nat, bit: nat)
    requires (kind == OUTPUTS || kind == INPUTS) && |s0.sm| == MAXSM && s0.Bits(kind) > 0 && bit0 < 8
    ensures s == s0.WithWindows(kind, s.Windows(kind)) && Holds(s, kind)
    ensures addr0 <= addr && bit < 8 && (s0.Bits(kind) >= 8 ==> bit == 0)
    ensures InOrder(s.Windows(kind), 8 * addr0 + bit0, 8 * addr + bit)
    ensures PlacedAt(s, kind, addr0, bit0) && addr == addr0 + Span(s, kind, bit0) && bit == NextBit(s, kind, bit0)
  {
    hide FillBytes, Capacity, Shapes, ShapesOf, InOrder, Size, NextOf;
    var ws;
    ws, addr, bit := MapSlave(s0.sm, kind, s0.Bits(kind), addr0, bit0);
    s := s0.WithWindows(kind, ws);
    IsInOrder(ws, 8 * addr0 + bit0, 8 * addr + bit);
    if s0.Bits(kind) >= 8 {
      HoldsMapped(s, kind, addr0, bit0, addr);
      BytesPlacedAt(s, kind, addr0, bit0, addr);
    }
  }

  /** What holds after the slaves in `list`: `base` are the spans from before. */
  ghost predicate After(list: seq<Slave>, kind: nat, addr0: nat, addr: nat, bit: nat, wkc: nat, base: seq<nat>,
                        spans: seq<nat>) {
    Mapped(list, kind, addr0, addr, bit, wkc, spans) && Folded(list, kind, addr0, addr, bit, base, spans) &&
    base <= spans
  }

  /** One slave of the loop over all slaves, with its span. */
  method MapOne(s0: Slave, kind: nat, table: array<nat>, addr1: nat, bit1: nat, current1: nat, size1: nat, wkc1: nat,
                ghost list: seq<Slave>, ghost addr0: nat, ghost base: seq<nat>, ghost spans1: seq<nat>)
    returns (s: Slave, addr: nat, bit: nat, current: nat, size: nat, wkc: nat, ghost spans: seq<nat>)
    requires (kind == OUTPUTS || kind == INPUTS) && |s0.sm| == MAXSM && s0.Windows(kind) == [] && bit1 < 8
    requires Tracks(table[..], current1, size1, spans1) && After(list, kind, addr0, addr1, bit1, wkc1, base, spans1)
    modifies table
    ensures s == s0.WithWindows(kind, s.Windows(kind)) && bit < 8
    ensures Tracks(table[..], current, size, spans) && After(list + [s], kind, addr0, addr, bit, wkc, base, spans)
  {
    hide Mapped, Tracks, Holds, InOrder, Folded, PlacedAt, Span;
    s, addr, bit, current, size, wkc, spans := s0, addr1, bit1, current1, size1, wkc1, spans1;
    if s0.Bits(kind) > 0 {
      s, addr, bit := MapNext(s0, kind, addr1, bit1);
      current, size := AddSpan(table, current1, size1, addr - addr1, spans1);
      MappedOneMore(list, s, kind, addr0, addr1, bit1, addr, bit, wkc1, spans1);
      FoldedOneMore(list, s, kind, addr0, addr1, bit1, base, spans1);
      spans := spans1 + [addr - addr1];
      wkc := wkc1 + CountWindows(s.Windows(kind), kind);
    } else {
      MappedNoData(list, s, kind, addr0, addr, bit, wkc, spans);
      NoDataPlacedAt(s, kind, addr, bit);
      FoldedOneMore(list, s, kind, addr0, addr, bit, base, spans);
    }
  }

  /** The last bits of one direction do not share their byte with the other one. */
  method CloseByte(kind: nat, table: array<nat>, addr1: nat, bit: nat, current1: nat, size1: nat, ghost wkc: nat,
                   ghost list: seq<Slave>, ghost addr0: nat, ghost base: seq<nat>, ghost spans1: seq<nat>)
    returns (addr: nat, current: nat, size: nat, ghost spans: seq<nat>)
    requires Tracks(table[..], current1, size1, spans1) && After(list, kind, addr0, addr1, bit, wkc, base, spans1)
    modifies table
    ensures Tracks(table[..], current, size, spans) && Mapped(list, kind, addr0, addr, 0, wkc, spans)
    ensures Exact(list, kind, addr0) && spans == base + AllSpans(list, kind)
  {
    hide Mapped, Tracks, Folded, Exact, AllSpans;
    addr, current, size, spans := addr1, current1, size1, spans1;
    FoldedAll(list, kind, addr0, addr, bit, base, spans);
    ExactHasSms(list, kind, addr0);
    if bit > 0 {
      MappedRoundUp(list, kind, addr0, addr, bit, wkc, spans);
      addr := addr + 1;
      current, size := AddSpan(table, current, size, 1, spans);
      spans := spans + [1];
    }
  }

  method MapAll(slaves: array<Slave>, kind: nat, table: array<nat>, addr0: nat, current0: nat, size0: nat,
                ghost spans0: seq<nat>)
    returns (addr: nat, current: nat, size: nat, wkc: nat, ghost spans: seq<nat>)
    requires (kind == OUTPUTS || kind == INPUTS) && 0 < slaves.Length && Fresh(slaves[1..], kind)
    requires Tracks(table[..], current0, size0, spans0) && Sum(spans0) == addr0
    modifies slaves, table
    ensures Tracks(table[..], current, size, spans)
    ensures Mapped(slaves[1..], kind, addr0, addr, 0, wkc, spans)
    ensures Exact(slaves[1..], kind, addr0) && spans == spans0 + AllSpans(slaves[1..], kind)
    ensures slaves[0] == old(slaves[0])
    ensures forall i | 1 <= i < slaves.Length ::
              slaves[i] == old(slaves[i]).WithWindows(kind, slaves[i].Windows(kind))
  {
    hide After, Mapped, Tracks, Exact, AllSpans;
    var bit: nat := 0;
    addr, current, size, wkc, spans := addr0, current0, size0, 0, spans0;
    NothingBefore(kind, addr0, spans0);
    var slave := 1;
    assert slaves[1..slave] == [];
    while slave < slaves.Length
      invariant 1 <= slave <= slaves.Length && bit < 8
      invariant Tracks(table[..], current, size, spans)
      invariant After(slaves[1..slave], kind, addr0, addr, bit, wkc, spans0, spans)
      invariant slaves[0] == old(slaves[0])
      invariant forall i | slave <= i < slaves.Length :: slaves[i] == old(slaves[i])
      invariant forall i | 1 <= i < slave ::
                  slaves[i] == old(slaves[i]).WithWindows(kind, slaves[i].Windows(kind))
    {
      ghost var before := slaves[1..slave];
      assert slaves[slave] == old(slaves[1..])[slave - 1];
      var s;
      s, addr, bit, current, size, wkc, spans :=
        MapOne(slaves[slave], kind, table, addr, bit, current, size, wkc, before, addr0, spans0, spans);
      slaves[slave] := s;
      slave := slave + 1;
      assert slaves[1..slave] == before + [s];
    }
    assert slaves[1..slave] == slaves[1..];
    addr, current, size, spans :=
      CloseByte(kind, table, addr, bit, current, size, wkc, slaves[1..], addr0, spans0, spans);
  }

  lemma NothingBefore(kind: nat, addr0: nat, spans: seq<nat>)
    requires Sum(spans) == addr0
    ensures After([], kind, addr0, addr0, 0, 0, spans, spans)
  {
    hide Mapped, Folded;
    MappedNothing(kind, addr0, spans);
    FoldedNothing(kind, addr0, spans);
  }

  lemma NoDataPlacedAt(s: Slave, kind: nat, addr: nat, bit: nat)
    requires |s.sm| == MAXSM && s.Bits(kind) == 0 && s.Windows(kind) == []
    ensures PlacedAt(s, kind, addr, bit)
  {
  }

  lemma FoldedAll(list: seq<Slave>, kind: nat, addr0: nat, addr: nat, bit: nat, base: seq<nat>, spans: seq<nat>)
    requires Folded(list, kind, addr0, addr, bit, base, spans)
    ensures Exact(list, kind, addr0)
    ensures base + AllSpans(list, kind) == if bit > 0 then spans + [1] else spans
  {
    hide Exact, SpansOf;
    ExactHasSms(list, kind, addr0);
    if bit > 0 {
      assert base + (SpansOf(list, kind) + [1]) == base + SpansOf(list, kind) + [1];
    } else {
      assert SpansOf(list, kind) + [] == SpansOf(list, kind);
    }
  }

  lemma ExactHasSms(list: seq<Slave>, kind: nat, addr0: nat)
    requires Exact(list, kind, addr0)
    ensures HasSms(list)
  {
  }

  lemma MappedNothing(kind: nat, addr0: nat, spans: seq<nat>)
    requires Sum(spans) == addr0
    ensures Mapped([], kind, addr0, addr0, 0, 0, spans)
  {
  }

  /** Mapping inputs does not touch outputs. */
  lemma {:induction false} OutputsKept(a: seq<Slave>, b: seq<Slave>)
    requires |a| == |b| && forall i | 0 <= i < |a| :: b[i] == a[i].(ins := b[i].ins)
    ensures AllWindows(b, OUTPUTS) == AllWindows(a, OUTPUTS)
  {
    if a != [] {
      OutputsKept(a[..|a| - 1], b[..|b| - 1]);
    }
  }

  lemma PlacedKept(a: Slave, b: Slave, addr: nat, bit: nat)
    requires |a.sm| == MAXSM && b == a.(ins := b.ins)
    ensures Span(b, OUTPUTS, bit) == Span(a, OUTPUTS, bit) && NextBit(b, OUTPUTS, bit) == NextBit(a, OUTPUTS, bit)
    ensures PlacedAt(a, OUTPUTS, addr, bit) ==> PlacedAt(b, OUTPUTS, addr, bit)
  {
    hide FillBytes, Shapes, ShapesOf;
  }

  /** Spans depend on what slaves are, not on where they have been mapped. */
  lemma {:induction false} SameSpans(a: seq<Slave>, b: seq<Slave>, kind: nat)
    requires |a| == |b| && HasSms(a) && forall i | 0 <= i < |a| :: b[i] == a[i].(outs := b[i].outs, ins := b[i].ins)
    ensures HasSms(b) && SpansOf(b, kind) == SpansOf(a, kind) && BitAfter(b, kind) == BitAfter(a, kind)
    ensures AllSpans(b, kind) == AllSpans(a, kind)
  {
    hide Span, NextBit;
    if a != [] {
      var n := |a| - 1;
      SameSpans(a[..n], b[..n], kind);
      SameSpan(a[n], b[n], kind, BitAfter(a[..n], kind));
    }
  }

  lemma SameSpan(a: Slave, b: Slave, kind: nat, bit: nat)
    requires |a.sm| == MAXSM && b == a.(outs := b.outs, ins := b.ins)
    ensures Span(b, kind, bit) == Span(a, kind, bit) && NextBit(b, kind, bit) == NextBit(a, kind, bit)
  {
    hide Shapes;
  }

  lemma {:induction false} ExactKept(a: seq<Slave>, b: seq<Slave>, addr0: nat)
    requires |a| == |b| && Exact(a, OUTPUTS, addr0) && forall i | 0 <= i < |a| :: b[i] == a[i].(ins := b[i].ins)
    ensures Exact(b, OUTPUTS, addr0) && AllSpans(b, OUTPUTS) == AllSpans(a, OUTPUTS)
  {
    hide Sum, PlacedAt, SpansOf, BitAfter;
    SameSpans(a, b, OUTPUTS);
    if a != [] {
      var n := |a| - 1;
      ExactKept(a[..n], b[..n], addr0);
      SameSpans(a[..n], b[..n], OUTPUTS);
      PlacedKept(a[n], b[n], addr0 + Sum(SpansOf(a[..n], OUTPUTS)), BitAfter(a[..n], OUTPUTS));
    }
  }

  lemma MappedKept(a: seq<Slave>, b: seq<Slave>, addr: nat, wkc: nat, spans: seq<nat>)
    requires |a| == |b| && forall i | 0 <= i < |a| :: b[i] == a[i].(ins := b[i].ins)
    requires Mapped(a, OUTPUTS, 0, addr, 0, wkc, spans)
    ensures Mapped(b, OUTPUTS, 0, addr, 0, wkc, spans)
  {
    hide AllWindows, CountWindows, Sum, InOrder, InSpan, Capacity, Bytes, Shapes, ShapesOf;
    OutputsKept(a, b);
  }

  /** The second loop over all slaves. */
  method MapInputs(slaves: array<Slave>, table: array<nat>, addr0: nat, current0: nat, size0: nat,
                   ghost outs: seq<nat>, ghost outputsWkc: nat)
    returns (addr: nat, current: nat, size: nat, wkc: nat, ghost spans: seq<nat>)
    requires 0 < slaves.Length && Fresh(slaves[1..], INPUTS)
    requires Tracks(table[..], current0, size0, outs) && Sum(outs) == addr0
    requires Mapped(slaves[1..], OUTPUTS, 0, addr0, 0, outputsWkc, outs)
    requires Exact(slaves[1..], OUTPUTS, 0) && outs == AllSpans(slaves[1..], OUTPUTS)
    modifies slaves, table
    ensures Tracks(table[..], current, size, spans)
    ensures Exact(slaves[1..], OUTPUTS, 0) && outs == AllSpans(slaves[1..], OUTPUTS)
    ensures Exact(slaves[1..], INPUTS, addr0) && spans == outs + AllSpans(slaves[1..], INPUTS)
    ensures Mapped(slaves[1..], OUTPUTS, 0, addr0, 0, outputsWkc, outs)
    ensures Mapped(slaves[1..], INPUTS, addr0, addr, 0, wkc, spans) && Sum(spans) == addr
    ensures forall i | 1 <= i < slaves.Length :: slaves[i] == old(slaves[i]).(ins := slaves[i].ins)
  {
    hide Mapped, Tracks, Sum, Fresh, Exact, AllSpans;
    ghost var before := slaves[1..];
    addr, current, size, wkc, spans := MapAll(slaves, INPUTS, table, addr0, current0, size0, outs);
    forall i | 1 <= i < slaves.Length ensures slaves[i] == old(slaves[i]).(ins := slaves[i].ins) {
    }
    MappedKept(before, slaves[1..], addr0, outputsWkc, outs);
    ExactKept(before, slaves[1..], 0);
    IsMapped(slaves[1..], INPUTS, addr0, addr, 0, wkc, spans);
  }

  method CountBlocked(slaves: array<Slave>) returns (n: nat)
    requires 0 < slaves.Length
    ensures n > 0 <==> exists i | 1 <= i < slaves.Length :: slaves[i].blockLrw
  {
    n := 0;
    var i := 1;
    while i < slaves.Length
      invariant 1 <= i <= slaves.Length
      invariant n > 0 <==> exists k | 1 <= k < i :: slaves[k].blockLrw
    {
      if slaves[i].blockLrw {
        n := n + 1;
      }
      i := i + 1;
    }
  }

  lemma NoSegments(table: seq<nat>)
    requires |table| == TABLE
    ensures Tracks(table, 0, 0, []) && Sum([]) == 0
  {
    assert table[..0] == [];
  }

  lemma CursorOf(table: seq<nat>, current: nat, size: nat, spans: seq<nat>)
    requires Tracks(table, current, size, spans)
    ensures |Greedy(spans, TABLE).full| == current && Greedy(spans, TABLE).size == size
  {
  }

  lemma CloseTable(table: seq<nat>, current: nat, size: nat, spans: seq<nat>)
    requires Tracks(table, current, size, spans)
    ensures current < |table|
    ensures table[current := size][..current + 1] == Greedy(spans, TABLE).Table()
  {
  }

  lemma IsMapped(list: seq<Slave>, kind: nat, addr0: nat, addr: nat, bit: nat, wkc: nat, spans: seq<nat>)
    requires Mapped(list, kind, addr0, addr, bit, wkc, spans)
    ensures Sum(spans) == addr >= 0
  {
  }

  lemma InputsStayFresh(a: seq<Slave>, b: seq<Slave>)
    requires |a| == |b| && Fresh(a, INPUTS)
    requires forall i | 0 <= i < |a| :: b[i] == a[i].WithWindows(OUTPUTS, b[i].Windows(OUTPUTS))
    ensures Fresh(b, INPUTS)
  {
  }

  class Group {
    var obytes: nat
    var ibytes: nat
    var nsegments: nat
    var isegment: nat
    var ioffset: nat
    var outputsWkc: nat
    var inputsWkc: nat
    var blockLrw: nat
    const ioSegment: array<nat>

    constructor ()
      ensures fresh(this) && fresh(ioSegment) && ioSegment.Length == TABLE
    {
      obytes, ibytes, nsegments, isegment, ioffset, outputsWkc, inputsWkc, blockLrw := 0, 0, 0, 0, 0, 0, 0, 0;
      ioSegment := new nat[TABLE](_ => 0);
    }

    /** The layout of the group: `outs` and `ins` are the spans that the output and input parts of
        the slaves take, in slave order. */
    ghost predicate Laid(outs: seq<nat>, ins: seq<nat>)
      reads this, ioSegment
    {
      obytes == Sum(outs) && ibytes == Sum(ins) &&
      isegment == |Greedy(outs, TABLE).full| && ioffset == Greedy(outs, TABLE).size &&
      0 < nsegments <= ioSegment.Length && ioSegment[..nsegments] == Greedy(outs + ins, TABLE).Table()
    }

    /** Maps all slaves. Record 0 of the list is the master's. */
    method MapGroup(slaves: array<Slave>) returns (size: nat, ghost outs: seq<nat>, ghost ins: seq<nat>)
      requires ioSegment.Length == TABLE && 0 < slaves.Length
      requires Fresh(slaves[1..], OUTPUTS) && Fresh(slaves[1..], INPUTS)
      modifies this, slaves, ioSegment
      ensures size == obytes + ibytes && Laid(outs, ins)
      ensures Mapped(slaves[1..], OUTPUTS, 0, obytes, 0, outputsWkc, outs)
      ensures Mapped(slaves[1..], INPUTS, obytes, obytes + ibytes, 0, inputsWkc, outs + ins)
      ensures Exact(slaves[1..], OUTPUTS, 0) && outs == AllSpans(slaves[1..], OUTPUTS)
      ensures Exact(slaves[1..], INPUTS, obytes) && ins == AllSpans(slaves[1..], INPUTS)
      ensures forall i | 1 <= i < slaves.Length ::
                slaves[i] == old(slaves[i]).(outs := slaves[i].outs, ins := slaves[i].ins)
      ensures blockLrw > 0 <==> old(blockLrw) > 0 || exists i | 1 <= i < slaves.Length :: slaves[i].blockLrw
    {
      hide Mapped, Sum, Greedy, Tracks, Exact, AllSpans, HasSms, Fresh;
      NoSegments(ioSegment[..]);
      ghost var before := slaves[1..];
      var addr, current, segmentsize, wkc;
      addr, current, segmentsize, wkc, outs := MapAll(slaves, OUTPUTS, ioSegment, 0, 0, 0, []);
      InputsStayFresh(before, slaves[1..]);
      IsMapped(slaves[1..], OUTPUTS, 0, addr, 0, wkc, outs);
      CursorOf(ioSegment[..], current, segmentsize, outs);
      obytes, outputsWkc := addr, wkc;
      isegment, ioffset := current, segmentsize;
      ghost var spans;
      addr, current, segmentsize, wkc, spans := MapInputs(slaves, ioSegment, addr, current, segmentsize, outs, wkc);
      ins := spans[|outs|..];
      assert spans == outs + ins;
      SumConcat(outs, ins);
      inputsWkc, ibytes := wkc, addr - obytes;
      CloseTable(ioSegment[..], current, segmentsize, spans);
      ioSegment[current] := segmentsize;
      nsegments := current + 1;
      var blocked := CountBlocked(slaves);
      blockLrw := blockLrw + blocked;
      size := addr;
    }
  }
}

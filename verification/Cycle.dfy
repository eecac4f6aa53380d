/** What a whole cycle achieves. */
module Cycle {
  import opened Basics
  import opened NicDriver
  import opened FmmuMapping
  import opened Segments
  import opened Pieces
  import opened ProcessData
  import opened WorkCounter
  import opened IoMap
  import opened LayoutSize
  import opened SlaveList
  import opened DistributedClock

  lemma {:induction false} PiecesInImage(cmd: Cmd, ps: seq<Piece>, lo: nat, hi: nat)
    requires Partition(ps, lo, hi) && (cmd == Lrd || cmd == Lwr || cmd == Lrw)
    ensures InImage(Requests(cmd, ps), hi)
  {
    forall k | 0 <= k < |ps| ensures ps[k].addr + ps[k].length <= hi {
      PartitionInImage(ps, lo, hi, k);
    }
  }

  /** The requests of a cycle for a layout: with LRW, or with LRD and LWR if LRW is blocked. */
  ghost function CyclePlan(outs: seq<nat>, ins: seq<nat>, blocked: bool): seq<Request>
    requires Fits(outs, ins)
  {
    LrdCoversInputs(outs, ins);
    Plan(Table(outs, ins), |Greedy(outs, TABLE).full|, Greedy(outs, TABLE).size, Sum(outs), Sum(ins), blocked)
  }

  /** The datagrams of a cycle by which outputs are written. */
  ghost function Written(outs: seq<nat>, ins: seq<nat>, blocked: bool): seq<Piece>
    requires Fits(outs, ins)
  {
    if blocked then OutputPieces(Table(outs, ins), 0, 0, Sum(outs))
    else OnePerSegment(Table(outs, ins), 0, 0, Sum(outs) + Sum(ins))
  }

  /** The datagrams of a cycle by which inputs are read. */
  ghost function ReadBy(outs: seq<nat>, ins: seq<nat>, blocked: bool): seq<Piece>
    requires Fits(outs, ins)
  {
    LrdCoversInputs(outs, ins);
    if blocked
    then InputPieces(Table(outs, ins), |Greedy(outs, TABLE).full|, Greedy(outs, TABLE).size, Sum(outs), Sum(ins))
    else OnePerSegment(Table(outs, ins), 0, 0, Sum(outs) + Sum(ins))
  }

  /** Everything that is sent lies inside the process image. */
  lemma PlanInImage(outs: seq<nat>, ins: seq<nat>, blocked: bool)
    requires Fits(outs, ins)
    ensures InImage(CyclePlan(outs, ins, blocked), Sum(outs) + Sum(ins))
  {
    hide Greedy, Sum, Needed, OnePerSegment, InputPieces, OutputPieces, Partition;
    var t, c := Table(outs, ins), Greedy(outs, TABLE);
    LrwCoversImage(outs, ins);
    LrdCoversInputs(outs, ins);
    LwrCoversOutputs(outs, ins);
    PiecesInImage(Lrw, OnePerSegment(t, 0, 0, Sum(outs) + Sum(ins)), 0, Sum(outs) + Sum(ins));
    PiecesInImage(Lrd, InputPieces(t, |c.full|, c.size, Sum(outs), Sum(ins)), Sum(outs), Sum(outs) + Sum(ins));
    PiecesInImage(Lwr, OutputPieces(t, 0, 0, Sum(outs)), 0, Sum(outs));
  }

  // ----- Arrival order.

  ghost predicate EachOnce(wire: seq<Packet>, first: nat, n: nat) {
    forall k | 0 <= k < n :: Unique(wire, IndexOf(first, k))
  }

  lemma {:induction false} SameFound(image: seq<byte>, a: seq<Packet>, b: seq<Packet>, rs: seq<Request>,
                                     first: nat, clock: bool, n: nat)
    requires n <= |rs| && InImage(rs, |image|) && GoodWire(a, rs, first, clock) && GoodWire(b, rs, first, clock)
    requires forall k | 0 <= k < |rs| :: Find(a, IndexOf(first, k)) == Find(b, IndexOf(first, k))
    ensures Image(image, a, rs, first, clock, n) == Image(image, b, rs, first, clock, n)
    ensures Counter(a, rs, first, n) == Counter(b, rs, first, n)
    ensures Any(a, first, n) == Any(b, first, n)
  {
    if n > 0 {
      SameFound(image, a, b, rs, first, clock, n - 1);
    }
  }

  /** The order in which the frames arrive makes no difference to the process image or the counter. */
  lemma OrderDoesNotMatter(image: seq<byte>, a: seq<Packet>, b: seq<Packet>, rs: seq<Request>, first: nat, clock: bool)
    requires multiset(a) == multiset(b) && EachOnce(a, first, |rs|) && EachOnce(b, first, |rs|)
    requires InImage(rs, |image|) && GoodWire(a, rs, first, clock)
    ensures GoodWire(b, rs, first, clock)
    ensures Image(image, a, rs, first, clock, |rs|) == Image(image, b, rs, first, clock, |rs|)
    ensures Counter(a, rs, first, |rs|) == Counter(b, rs, first, |rs|)
    ensures Any(a, first, |rs|) == Any(b, first, |rs|)
  {
    hide Find, Unique, IndexOf, Answers;
    forall k | 0 <= k < |rs| ensures Find(a, IndexOf(first, k)) == Find(b, IndexOf(first, k)) {
      FindPermuted(a, b, IndexOf(first, k));
    }
    SameFound(image, a, b, rs, first, clock, |rs|);
  }

  // ----- No frame lost.

  /** Every frame of the cycle is among the arrivals. */
  ghost predicate Complete(wire: seq<Packet>, first: nat, n: nat) {
    forall k | 0 <= k < n :: Find(wire, IndexOf(first, k)).Some?
  }

  /** The data of the first `n` answers, one after the other. */
  function Joined(wire: seq<Packet>, first: nat, n: nat): seq<byte> {
    if n == 0 then [] else
      var f := Find(wire, IndexOf(first, n - 1));
      Joined(wire, first, n - 1) + if f.Some? then f.value.first.data else []
  }

  lemma {:induction false} PieceStart(ps: seq<Piece>, lo: nat, hi: nat, k: nat)
    requires Partition(ps, lo, hi) && k < |ps|
    ensures ps[k].addr == lo + Length(ps[..k])
  {
    if k > 0 {
      PieceStart(ps[1..], lo + ps[0].length, hi, k - 1);
      assert ps[..k][1..] == ps[1..][..k - 1];
    }
  }

  lemma {:induction false} LengthAppend(ps: seq<Piece>, p: Piece)
    ensures Length(ps + [p]) == Length(ps) + p.length
  {
    if ps != [] {
      LengthAppend(ps[1..], p);
      assert (ps + [p])[1..] == ps[1..] + [p];
    }
  }

  lemma PatchEnd(image: seq<byte>, lo: nat, at: nat, data: seq<byte>, front: seq<byte>)
    requires lo <= at && at + |data| <= |image| && image[lo..at] == front
    ensures Patch(image, at, data)[lo..at + |data|] == front + data
    ensures Patch(image, at, data)[..lo] == image[..lo]
  {
  }

  /** The first requests are reads of consecutive pieces from byte `lo` on. */
  ghost predicate ReadsPieces(rs: seq<Request>, cmd: Cmd, ps: seq<Piece>) {
    (cmd == Lrd || cmd == Lrw) && |ps| <= |rs| && forall k | 0 <= k < |ps| :: rs[k] == Request(cmd, ps[k])
  }

  lemma {:induction false} ReadsAreJoined(image: seq<byte>, wire: seq<Packet>, rs: seq<Request>, cmd: Cmd,
                                          ps: seq<Piece>,
                                          lo: nat, hi: nat, first: nat, clock: bool, n: nat)
    requires Partition(ps, lo, hi) && hi <= |image| && n <= |ps| <= |rs| && ReadsPieces(rs, cmd, ps)
    requires InImage(rs, |image|) && GoodWire(wire, rs, first, clock) && Complete(wire, first, |ps|)
    ensures |Joined(wire, first, n)| == Length(ps[..n]) && lo + Length(ps[..n]) <= |image|
    ensures var r := Image(image, wire, rs, first, clock, n);
            r[lo..lo + Length(ps[..n])] == Joined(wire, first, n) && r[..lo] == image[..lo]
  {
    hide Partition, Length, Find, IndexOf, Image, GoodWire, InImage, Answers, Patch, Complete, ReadsPieces, Joined;
    if n == 0 {
      assert ps[..0] == [];
      NoLength();
      NothingJoined(wire, first);
      NoAnswersYet(image, wire, rs, first, clock);
      PartitionOrder(ps, lo, hi);
    } else {
      ReadsAreJoined(image, wire, rs, cmd, ps, lo, hi, first, clock, n - 1);
      PieceStart(ps, lo, hi, n - 1);
      PartitionInImage(ps, lo, hi, n - 1);
      LengthAppend(ps[..n - 1], ps[n - 1]);
      assert ps[..n] == ps[..n - 1] + [ps[n - 1]];
      ReadIsPatched(image, wire, rs, cmd, ps, first, clock, n - 1);
      PatchEnd(Image(image, wire, rs, first, clock, n - 1), lo, ps[n - 1].addr,
               Find(wire, IndexOf(first, n - 1)).value.first.data, Joined(wire, first, n - 1));
    }
  }

  lemma ReadIsPatched(image: seq<byte>, wire: seq<Packet>, rs: seq<Request>, cmd: Cmd, ps: seq<Piece>, first: nat,
                      clock: bool, k: nat)
    requires k < |ps| && ReadsPieces(rs, cmd, ps) && InImage(rs, |image|) && GoodWire(wire, rs, first, clock)
    requires Complete(wire, first, |ps|) && ps[k].addr + ps[k].length <= |image|
    ensures var f := Find(wire, IndexOf(first, k));
            f.Some? && |f.value.first.data| == ps[k].length &&
            Image(image, wire, rs, first, clock, k + 1) ==
              Patch(Image(image, wire, rs, first, clock, k), ps[k].addr, f.value.first.data) &&
            Joined(wire, first, k + 1) == Joined(wire, first, k) + f.value.first.data
  {
    hide Find, IndexOf, Image, GoodWire, InImage, Answers, Patch;
    UnfoldAnswers(image, wire, rs, first, clock, k);
    assert rs[k] == Request(cmd, ps[k]);
  }

  lemma PartitionOrder(ps: seq<Piece>, lo: nat, hi: nat)
    requires Partition(ps, lo, hi)
    ensures lo <= hi
  {
    PartitionLength(ps, lo, hi);
  }

  lemma NoLength()
    ensures Length([]) == 0
  {
  }

  /** Writes leave the image alone. */
  lemma {:induction false} WritesChangeNothing(image: seq<byte>, wire: seq<Packet>, rs: seq<Request>, first: nat,
                                               clock: bool, m: nat, n: nat)
    requires m <= n <= |rs| && InImage(rs, |image|) && GoodWire(wire, rs, first, clock)
    requires forall k | m <= k < |rs| :: rs[k].cmd == Lwr
    ensures Image(image, wire, rs, first, clock, n) == Image(image, wire, rs, first, clock, m)
  {
    hide Find, IndexOf, Image, GoodWire, InImage;
    if m < n {
      WritesChangeNothing(image, wire, rs, first, clock, m, n - 1);
      UnfoldAnswers(image, wire, rs, first, clock, n - 1);
    }
  }

  /** With LRW the frames of a cycle read all of the image. */
  lemma ReadsAll(outs: seq<nat>, ins: seq<nat>)
    requires Fits(outs, ins)
    ensures var rs, n := CyclePlan(outs, ins, false), Sum(outs) + Sum(ins);
            var ps := OnePerSegment(Table(outs, ins), 0, 0, n);
            if n == 0 then rs == [] else ReadsPieces(rs, Lrw, ps) && |rs| == |ps| && Partition(ps, 0, n)
  {
    hide Greedy, Sum, Needed, OnePerSegment, Table, Partition, InputPieces;
    LrwCoversImage(outs, ins);
  }

  /** If no LRW frame is lost, the process image becomes the answers' data, one after the other. */
  lemma LrwFillsImage(image: seq<byte>, wire: seq<Packet>, outs: seq<nat>, ins: seq<nat>, first: nat, clock: bool)
    requires Fits(outs, ins) && Sum(outs) + Sum(ins) <= |image|
    requires var rs := CyclePlan(outs, ins, false);
             InImage(rs, |image|) && GoodWire(wire, rs, first, clock) && Complete(wire, first, |rs|)
    ensures var rs := CyclePlan(outs, ins, false);
            Image(image, wire, rs, first, clock, |rs|)[..Sum(outs) + Sum(ins)] == Joined(wire, first, |rs|)
  {
    hide Greedy, Sum, OnePerSegment, Image, GoodWire, InImage, Partition, CyclePlan, ReadsPieces, Fits, Complete;
    hide Joined;
    var rs, n := CyclePlan(outs, ins, false), Sum(outs) + Sum(ins);
    ReadsAll(outs, ins);
    if n == 0 {
      NothingJoined(wire, first);
    } else {
      var ps := OnePerSegment(Table(outs, ins), 0, 0, n);
      PartitionLength(ps, 0, n);
      ReadsAreJoined(image, wire, rs, Lrw, ps, 0, n, first, clock, |ps|);
      assert ps[..|ps|] == ps;
    }
  }

  /** How many frames of a cycle read, if LRW is blocked. */
  ghost function ReadFrames(outs: seq<nat>, ins: seq<nat>): nat
    requires Fits(outs, ins)
  {
    if Sum(ins) == 0 then 0 else |ReadBy(outs, ins, true)|
  }

  /** First the reads, then the writes. */
  lemma ReadsThenWrites(outs: seq<nat>, ins: seq<nat>)
    requires Fits(outs, ins)
    ensures var rs, n := CyclePlan(outs, ins, true), ReadFrames(outs, ins);
            n <= |rs| && (forall k | n <= k < |rs| :: rs[k].cmd == Lwr) &&
            (Sum(ins) > 0 ==> ReadsPieces(rs, Lrd, ReadBy(outs, ins, true)))
  {
    hide Greedy, Sum, OnePerSegment, InputPieces, OutputPieces, Table, Partition;
    LrdCoversInputs(outs, ins);
  }

  /** If LRW is blocked and no LRD frame is lost, the inputs become the answers' data, and the outputs stay
      as they are. */
  lemma LrdFillsInputs(image: seq<byte>, wire: seq<Packet>, outs: seq<nat>, ins: seq<nat>, first: nat, clock: bool)
    requires Fits(outs, ins) && Sum(outs) + Sum(ins) <= |image|
    requires var rs := CyclePlan(outs, ins, true);
             InImage(rs, |image|) && GoodWire(wire, rs, first, clock) && Complete(wire, first, ReadFrames(outs, ins))
    ensures var rs := CyclePlan(outs, ins, true);
            var r := Image(image, wire, rs, first, clock, |rs|);
            r[..Sum(outs)] == image[..Sum(outs)] &&
            r[Sum(outs)..Sum(outs) + Sum(ins)] == Joined(wire, first, ReadFrames(outs, ins))
  {
    hide Greedy, Sum, InputPieces, Image, GoodWire, InImage, Partition, Table, CyclePlan, ReadsPieces, Fits, Complete;
    hide Joined;
    LrdCoversInputs(outs, ins);
    ReadsThenWrites(outs, ins);
    var rs, n := CyclePlan(outs, ins, true), ReadFrames(outs, ins);
    WritesChangeNothing(image, wire, rs, first, clock, n, |rs|);
    if Sum(ins) == 0 {
      NoAnswersYet(image, wire, rs, first, clock);
      NothingJoined(wire, first);
    } else {
      var ps := ReadBy(outs, ins, true);
      PartitionLength(ps, Sum(outs), Sum(outs) + Sum(ins));
      ReadsAreJoined(image, wire, rs, Lrd, ps, Sum(outs), Sum(outs) + Sum(ins), first, clock, |ps|);
      assert ps[..|ps|] == ps;
    }
  }

  lemma NothingJoined(wire: seq<Packet>, first: nat)
    ensures Joined(wire, first, 0) == []
  {
  }

  // ----- The counter.

  /** What the slaves add to a datagram. */
  function Work(r: Request, ow: seq<Fmmu>, iw: seq<Fmmu>): nat {
    if r.cmd == Lrd then Hits(iw, r.piece)
    else if r.cmd == Lwr then Hits(ow, r.piece)
    else 2 * Hits(ow, r.piece) + Hits(iw, r.piece)
  }

  /** All frames come back with the work of the slaves in them. */
  ghost predicate Worked(wire: seq<Packet>, rs: seq<Request>, first: nat, ow: seq<Fmmu>, iw: seq<Fmmu>) {
    forall k | 0 <= k < |rs| ::
      Find(wire, IndexOf(first, k)).Some? &&
      Find(wire, IndexOf(first, k)).value.first.wkc == Work(rs[k], ow, iw)
  }

  function AllWork(rs: seq<Request>, ow: seq<Fmmu>, iw: seq<Fmmu>): nat {
    if rs == [] then 0 else
      var r := rs[|rs| - 1];
      AllWork(rs[..|rs| - 1], ow, iw) + if r.cmd == Lwr then 2 * Work(r, ow, iw) else Work(r, ow, iw)
  }

  lemma {:induction false} CounterIsWork(wire: seq<Packet>, rs: seq<Request>, first: nat, ow: seq<Fmmu>,
                                         iw: seq<Fmmu>, n: nat)
    requires Worked(wire, rs, first, ow, iw) && n <= |rs|
    ensures Counter(wire, rs, first, n) == AllWork(rs[..n], ow, iw)
  {
    if n > 0 {
      CounterIsWork(wire, rs, first, ow, iw, n - 1);
      assert rs[..n][..n - 1] == rs[..n - 1];
    }
  }

  lemma {:induction false} TotalAppend(ws: seq<Fmmu>, ps: seq<Piece>, p: Piece)
    ensures Total(ws, ps + [p]) == Total(ws, ps) + Hits(ws, p)
  {
    if ps == [] {
      assert ps + [p] == [p] && [p][1..] == [];
    } else {
      TotalAppend(ws, ps[1..], p);
      assert (ps + [p])[1..] == ps[1..] + [p];
    }
  }

  lemma {:induction false} WorkOfRequests(before: seq<Request>, cmd: Cmd, ps: seq<Piece>, ow: seq<Fmmu>, iw: seq<Fmmu>)
    requires cmd == Lrd || cmd == Lwr || cmd == Lrw
    ensures AllWork(before + Requests(cmd, ps), ow, iw) == AllWork(before, ow, iw) +
              (if cmd == Lrd then 0 else 2 * Total(ow, ps)) + if cmd == Lwr then 0 else Total(iw, ps)
  {
    hide Total, Hits, AllWork;
    if ps == [] {
      assert before + Requests(cmd, ps) == before;
      NoPieces(ow);
      NoPieces(iw);
    } else {
      var n := |ps| - 1;
      WorkOfRequests(before, cmd, ps[..n], ow, iw);
      TotalAppend(ow, ps[..n], ps[n]);
      TotalAppend(iw, ps[..n], ps[n]);
      assert ps == ps[..n] + [ps[n]];
      WorkAppend(before + Requests(cmd, ps[..n]), Request(cmd, ps[n]), ow, iw);
      assert before + Requests(cmd, ps) == before + Requests(cmd, ps[..n]) + [Request(cmd, ps[n])];
    }
  }

  lemma NoPieces(ws: seq<Fmmu>)
    ensures Total(ws, []) == 0
  {
  }

  lemma WorkAppend(rs: seq<Request>, r: Request, ow: seq<Fmmu>, iw: seq<Fmmu>)
    ensures AllWork(rs + [r], ow, iw) == AllWork(rs, ow, iw) + (if r.cmd == Lwr then 2 else 1) * Work(r, ow, iw)
  {
    hide Work;
    assert (rs + [r])[..|rs|] == rs;
  }

  /** There is nothing to reach in an empty range. */
  lemma {:induction false} NothingToReach(ws: seq<Fmmu>, ps: seq<Piece>, at: nat)
    requires InRange(ws, at, at)
    ensures Total(ws, ps) == 0
  {
    if ws == [] {
      NoWindows(ps);
    } else {
      var front, w := ws[..|ws| - 1], ws[|ws| - 1];
      NothingToReach(front, ps, at);
      TotalByWindow(front, w, ps);
      EmptyIsNotTouched(w, ps);
      assert ws == front + [w];
    }
  }

  lemma WorkOfLrw(ps: seq<Piece>, ow: seq<Fmmu>, iw: seq<Fmmu>)
    ensures AllWork(Requests(Lrw, ps), ow, iw) == 2 * Total(ow, ps) + Total(iw, ps)
  {
    hide Total, Work;
    WorkOfRequests([], Lrw, ps, ow, iw);
    assert [] + Requests(Lrw, ps) == Requests(Lrw, ps);
  }

  lemma WorkOfParts(hasIn: bool, lrd: seq<Piece>, hasOut: bool, lwr: seq<Piece>, ow: seq<Fmmu>, iw: seq<Fmmu>)
    ensures AllWork((if hasIn then Requests(Lrd, lrd) else []) + (if hasOut then Requests(Lwr, lwr) else []), ow, iw)
         == (if hasIn then Total(iw, lrd) else 0) + if hasOut then 2 * Total(ow, lwr) else 0
  {
    hide Total, Work;
    var inputPart := if hasIn then Requests(Lrd, lrd) else [];
    WorkOfRequests([], Lrd, lrd, ow, iw);
    assert [] + Requests(Lrd, lrd) == Requests(Lrd, lrd);
    WorkOfRequests(inputPart, Lwr, lwr, ow, iw);
    assert inputPart + [] == inputPart;
  }

  /** What the master reports after a cycle. */
  function Reported(wire: seq<Packet>, rs: seq<Request>, first: nat): int {
    if Any(wire, first, |rs|) then Counter(wire, rs, first, |rs|) else NOFRAME
  }

  lemma ReportsWork(wire: seq<Packet>, rs: seq<Request>, first: nat, ow: seq<Fmmu>, iw: seq<Fmmu>)
    requires Worked(wire, rs, first, ow, iw)
    ensures Reported(wire, rs, first) == if rs == [] then NOFRAME else AllWork(rs, ow, iw)
  {
    hide AllWork, Find, IndexOf, Work;
    CounterIsWork(wire, rs, first, ow, iw, |rs|);
    assert rs[..|rs|] == rs;
    if rs != [] {
      assert Find(wire, IndexOf(first, |rs| - 1)).Some?;
    }
  }

  lemma PlanIsEmptyIff(outs: seq<nat>, ins: seq<nat>, blocked: bool)
    requires Fits(outs, ins)
    ensures CyclePlan(outs, ins, blocked) == [] <==> Sum(outs) + Sum(ins) == 0
  {
    hide Greedy, Sum, Needed, Table;
  }

  lemma PlanCollects(slaves: seq<Slave>, outs: seq<nat>, ins: seq<nat>, outputsWkc: nat, inputsWkc: nat, blocked: bool)
    requires Layout(slaves, outs, ins, outputsWkc, inputsWkc) && Fits(outs, ins)
    ensures Collects(slaves, Written(outs, ins, blocked), ReadBy(outs, ins, blocked), Expected(outputsWkc, inputsWkc))
  {
    hide Layout, Greedy, Sum, OnePerSegment, InputPieces, OutputPieces, Collects, Table;
    if blocked {
      SeparateMeetsExpected(slaves, outs, ins, outputsWkc, inputsWkc);
    } else {
      LrwMeetsExpected(slaves, outs, ins, outputsWkc, inputsWkc);
    }
  }

  /** What the slaves add in a cycle without losses. */
  lemma WorkOfPlan(outs: seq<nat>, ins: seq<nat>, blocked: bool, ow: seq<Fmmu>, iw: seq<Fmmu>)
    requires Fits(outs, ins) && InRange(ow, 0, Sum(outs)) && InRange(iw, Sum(outs), Sum(outs) + Sum(ins))
    requires Sum(outs) + Sum(ins) > 0
    ensures AllWork(CyclePlan(outs, ins, blocked), ow, iw) ==
              2 * Total(ow, Written(outs, ins, blocked)) + Total(iw, ReadBy(outs, ins, blocked))
  {
    hide Greedy, Sum, Total, OnePerSegment, InputPieces, OutputPieces, AllWork, Table, InRange, Requests;
    LrdCoversInputs(outs, ins);
    if blocked {
      WorkOfParts(Sum(ins) > 0, ReadBy(outs, ins, true), Sum(outs) > 0, Written(outs, ins, true), ow, iw);
      if Sum(outs) == 0 {
        NothingToReach(ow, Written(outs, ins, true), 0);
      }
      if Sum(ins) == 0 {
        NothingToReach(iw, ReadBy(outs, ins, true), Sum(outs));
      }
    } else {
      WorkOfLrw(Written(outs, ins, false), ow, iw);
    }
  }

  /** Cut windows and empty output windows: the first count too often, the second not at all. */
  ghost predicate Balanced(slaves: seq<Slave>, outs: seq<nat>, ins: seq<nat>, blocked: bool)
    requires Fits(outs, ins)
  {
    var ow, iw := AllWindows(slaves, OUTPUTS), AllWindows(slaves, INPUTS);
    2 * Cuts(ow, Written(outs, ins, blocked)) + Cuts(iw, ReadBy(outs, ins, blocked)) == 2 * Empties(ow)
  }

  /** No window is cut by a border between two datagrams of a cycle. */
  ghost predicate NoneCut(slaves: seq<Slave>, outs: seq<nat>, ins: seq<nat>, blocked: bool)
    requires Fits(outs, ins)
  {
    Uncut(AllWindows(slaves, OUTPUTS), Written(outs, ins, blocked)) &&
    Uncut(AllWindows(slaves, INPUTS), ReadBy(outs, ins, blocked))
  }

  ghost predicate NoEmptyOutput(slaves: seq<Slave>) {
    NoneEmpty(AllWindows(slaves, OUTPUTS))
  }

  /** All slaves do their work in a cycle. */
  ghost predicate AllWorked(slaves: seq<Slave>, outs: seq<nat>, ins: seq<nat>, blocked: bool, wire: seq<Packet>,
                            first: nat)
    requires Fits(outs, ins)
  {
    Worked(wire, CyclePlan(outs, ins, blocked), first, AllWindows(slaves, OUTPUTS), AllWindows(slaves, INPUTS))
  }

  /** In a cycle without losses the master reports the counter it expects if and only if there is any
      process data, and cut windows and empty output windows make up for each other. */
  lemma CycleMeetsExpected(slaves: seq<Slave>, outs: seq<nat>, ins: seq<nat>, outputsWkc: nat, inputsWkc: nat,
                           blocked: bool, wire: seq<Packet>, first: nat)
    requires Layout(slaves, outs, ins, outputsWkc, inputsWkc) && Fits(outs, ins)
    requires AllWorked(slaves, outs, ins, blocked, wire, first)
    ensures Reported(wire, CyclePlan(outs, ins, blocked), first) == Expected(outputsWkc, inputsWkc) <==>
              Sum(outs) + Sum(ins) > 0 && Balanced(slaves, outs, ins, blocked)
  {
    hide AllWindows, Sum, NonEmpty, Worked, Reported, CyclePlan, AllWork, Layout, Fits, Cuts, Empties, Total, Uncut;
    hide InRange, Written, ReadBy;
    var ow, iw := AllWindows(slaves, OUTPUTS), AllWindows(slaves, INPUTS);
    ReportsWork(wire, CyclePlan(outs, ins, blocked), first, ow, iw);
    PlanIsEmptyIff(outs, ins, blocked);
    LayoutWindows(slaves, outs, ins, outputsWkc, inputsWkc);
    if Sum(outs) + Sum(ins) > 0 {
      WorkOfPlan(outs, ins, blocked, ow, iw);
      PlanCollects(slaves, outs, ins, outputsWkc, inputsWkc, blocked);
    }
  }

  /** Without empty output windows: if and only if no window is cut. Without slaves that have single bits:
      if and only if no output window is empty. */
  lemma BalancedIff(slaves: seq<Slave>, outs: seq<nat>, ins: seq<nat>, outputsWkc: nat, inputsWkc: nat, blocked: bool)
    requires Layout(slaves, outs, ins, outputsWkc, inputsWkc) && Fits(outs, ins)
    ensures NoEmptyOutput(slaves) ==> (Balanced(slaves, outs, ins, blocked) <==> NoneCut(slaves, outs, ins, blocked))
    ensures NoneCut(slaves, outs, ins, blocked) ==> (Balanced(slaves, outs, ins, blocked) <==> NoEmptyOutput(slaves))
    ensures ByteOriented(slaves) ==> NoneCut(slaves, outs, ins, blocked)
  {
    hide AllWindows, Sum, NonEmpty, Layout, Fits, Cuts, Empties, Total, Uncut, InRange, NoneEmpty, Written, ReadBy;
    hide ByteOriented;
    PlanCollects(slaves, outs, ins, outputsWkc, inputsWkc, blocked);
    LayoutWindows(slaves, outs, ins, outputsWkc, inputsWkc);
    if ByteOriented(slaves) {
      WholeBytesAreNotCut(slaves, outs, ins, outputsWkc, inputsWkc, blocked);
    }
  }

  lemma WholeBytesAreNotCut(slaves: seq<Slave>, outs: seq<nat>, ins: seq<nat>, outputsWkc: nat, inputsWkc: nat,
                            blocked: bool)
    requires Layout(slaves, outs, ins, outputsWkc, inputsWkc) && Fits(outs, ins) && ByteOriented(slaves)
    ensures NoneCut(slaves, outs, ins, blocked)
  {
    hide AllWindows, Sum, Layout, Fits, Uncut, ByteOriented, Greedy, Table, OnePerSegment, InputPieces, OutputPieces;
    WholeBytesAreUncut(slaves, outs, ins, outputsWkc, inputsWkc);
  }

  lemma LaidIsPlanned(g: Group, outs: seq<nat>, ins: seq<nat>)
    requires g.ioSegment.Length == TABLE && g.Laid(outs, ins) && Fits(outs, ins)
    ensures g.isegment < |g.ioSegment[..g.nsegments]| && g.ioffset <= g.ioSegment[..g.nsegments][g.isegment]
    ensures Plan(g.ioSegment[..g.nsegments], g.isegment, g.ioffset, g.obytes, g.ibytes, g.blockLrw > 0) ==
              CyclePlan(outs, ins, g.blockLrw > 0)
  {
    hide Greedy, Sum, Needed, Plan;
    LrdCoversInputs(outs, ins);
  }

  lemma InLargerImage(rs: seq<Request>, size: nat, larger: nat)
    requires InImage(rs, size) && size <= larger
    ensures InImage(rs, larger)
  {
  }

  /** With a clock, the first frame of a cycle also spreads the time of slave `dcNext`, and no other one does. */
  ghost predicate AsksForTime(sent: seq<Frame>, clock: bool, dcNext: nat, configadr: seq<nat>) {
    forall k | 0 <= k < |sent| ::
      if clock && k == 0 then
        |sent[0].more| == 1 && sent[0].more[0].cmd == Frmw && |sent[0].more[0].data| == 8 &&
        dcNext < |configadr| && sent[0].more[0].addr == configadr[dcNext] + 0x1_0000 * 0x910
      else sent[k].more == []
  }

  /** A cycle: everything is sent, then `wire` arrives, and the master is ready for the next cycle. */
  method Exchange(m: Master, g: Group, clock: bool, dcNext: nat, configadr: seq<nat>, wire: seq<Packet>,
                  ghost outs: seq<nat>, ghost ins: seq<nat>)
    returns (wkc: int)
    requires clock ==> dcNext < |configadr|
    requires m.Idle() && g.ioSegment.Length == TABLE && g.Laid(outs, ins) && Fits(outs, ins)
    requires g.obytes + g.ibytes <= m.iomap.Length
    requires var rs := CyclePlan(outs, ins, g.blockLrw > 0);
             |rs| <= MAXBUF && GoodWire(wire, rs, IndexOf(m.port.lastidx, 1), clock)
    modifies m, m.port, m.port.rxbufstat, m.port.rxbuf, m.stack, m.iomap
    ensures m.Idle()
    ensures var rs := CyclePlan(outs, ins, g.blockLrw > 0);
            var first := IndexOf(old(m.port.lastidx), 1);
            InImage(rs, m.iomap.Length) &&
            m.iomap[..] == Image(old(m.iomap[..]), wire, rs, first, clock, |rs|) &&
            wkc == Reported(wire, rs, first)
    ensures |m.sent| == |CyclePlan(outs, ins, g.blockLrw > 0)| && AsksForTime(m.sent, clock, dcNext, configadr)
  {
    hide Greedy, Sum, Needed, Plan, Find, IndexOf, GoodWire, Image, Counter, Any, InImage, CyclePlan, Fits;
    PlanInImage(outs, ins, g.blockLrw > 0);
    LaidIsPlanned(g, outs, ins);
    InLargerImage(CyclePlan(outs, ins, g.blockLrw > 0), g.obytes + g.ibytes, m.iomap.Length);
    var _ := m.SendProcessData(g, clock, dcNext, configadr, outs, ins);
    m.port.wire := wire;
    wkc := m.ReceiveProcessData(clock);
  }

  // ----- Mapping and exchange together.

  lemma {:induction false} FewPieces(segs: seq<nat>, cur: nat, addr: nat, length: int)
    requires cur < |segs|
    ensures |OnePerSegment(segs, cur, addr, length)| <= |segs| - cur
    decreases |segs| - cur
  {
    if length - segs[cur] != 0 && cur + 1 < |segs| {
      FewPieces(segs, cur + 1, addr + segs[cur], length - segs[cur]);
    }
  }

  lemma {:induction false} FewOutputs(segs: seq<nat>, cur: nat, addr: nat, length: nat)
    requires cur < |segs|
    ensures |OutputPieces(segs, cur, addr, length)| <= |segs| - cur
    decreases |segs| - cur
  {
    var sub := if length < segs[cur] then length else segs[cur];
    if length - sub != 0 && cur + 1 < |segs| {
      FewOutputs(segs, cur + 1, addr + sub, length - sub);
    }
  }

  /** A cycle needs no more frames than twice the number of segments. */
  lemma PlanIsShort(outs: seq<nat>, ins: seq<nat>, blocked: bool)
    requires Fits(outs, ins)
    ensures |CyclePlan(outs, ins, blocked)| <= 2 * Needed(outs + ins)
  {
    hide Sum, OnePerSegment, OutputPieces, Partition;
    var t, c := Table(outs, ins), Greedy(outs, TABLE);
    LrdCoversInputs(outs, ins);
    TableIsNeeded(outs + ins);
    FewPieces(t, 0, 0, Sum(outs) + Sum(ins));
    FewPieces(t[|c.full| := t[|c.full|] - c.size], |c.full|, Sum(outs), Sum(ins));
    FewOutputs(t, 0, 0, Sum(outs));
  }

  lemma TableIsNeeded(spans: seq<nat>)
    requires EachFits(spans) && Needed(spans) <= TABLE
    ensures |Greedy(spans, TABLE).Table()| == Needed(spans)
  {
    hide Sum, Greedy;
    var larger := |spans| + 2 + TABLE;
    NeededIsEnough(spans, larger);
    SameUnlessFull(spans, TABLE, larger);
  }

  /** A group whose layout fits the segment table, and each of whose cycles fits the sixteen buffers. */
  ghost predicate Exchangeable(slaves: seq<Slave>, blocked: bool) {
    HasSms(slaves) && Fits(AllSpans(slaves, OUTPUTS), AllSpans(slaves, INPUTS)) &&
    |GroupPlan(slaves, blocked)| <= MAXBUF
  }

  /** The requests of a cycle for a group of slaves. */
  ghost function GroupPlan(slaves: seq<Slave>, blocked: bool): seq<Request>
    requires HasSms(slaves) && Fits(AllSpans(slaves, OUTPUTS), AllSpans(slaves, INPUTS))
  {
    CyclePlan(AllSpans(slaves, OUTPUTS), AllSpans(slaves, INPUTS), blocked)
  }

  /** In particular a group in which no slave has more data than a segment takes, and all slaves together
      have no more than four full segments. */
  lemma SmallGroupFits(slaves: seq<Slave>, blocked: bool)
    requires HasSms(slaves) && EachShort(slaves)
    requires TotalBytes(slaves, OUTPUTS) + TotalBytes(slaves, INPUTS) + 2 < 4 * (LIMIT + 1)
    ensures Exchangeable(slaves, blocked)
  {
    hide AllSpans, Needed, Sum, CyclePlan;
    GroupNeeds(slaves, 4);
    PlanIsShort(AllSpans(slaves, OUTPUTS), AllSpans(slaves, INPUTS), blocked);
  }

  ghost predicate Blocked(before: nat, slaves: seq<Slave>) {
    before > 0 || exists i | 0 <= i < |slaves| :: slaves[i].blockLrw
  }

  lemma SameGroup(a: seq<Slave>, b: seq<Slave>)
    requires HasSms(a) && |a| == |b|
    requires forall i | 0 <= i < |a| :: b[i] == a[i].(outs := b[i].outs, ins := b[i].ins)
    ensures HasSms(b) && AllSpans(b, OUTPUTS) == AllSpans(a, OUTPUTS) && AllSpans(b, INPUTS) == AllSpans(a, INPUTS)
  {
    hide AllSpans;
    SameSpans(a, b, OUTPUTS);
    SameSpans(a, b, INPUTS);
  }

  /** What is known about the counter of a group that has been mapped, if all slaves do their work. */
  ghost predicate Meets(wkc: int, expected: nat, slaves: seq<Slave>, outs: seq<nat>, ins: seq<nat>, blocked: bool)
    requires Fits(outs, ins)
  {
    (wkc == expected <==> Sum(outs) + Sum(ins) > 0 && Balanced(slaves, outs, ins, blocked)) &&
    (NoEmptyOutput(slaves) ==> (Balanced(slaves, outs, ins, blocked) <==> NoneCut(slaves, outs, ins, blocked))) &&
    (NoneCut(slaves, outs, ins, blocked) ==> (Balanced(slaves, outs, ins, blocked) <==> NoEmptyOutput(slaves))) &&
    (ByteOriented(slaves) ==> NoneCut(slaves, outs, ins, blocked))
  }

  lemma MappedMeetsExpected(slaves: seq<Slave>, outputsWkc: nat, inputsWkc: nat, blocked: bool, wire: seq<Packet>,
                            first: nat, outs: seq<nat>, ins: seq<nat>)
    requires Fits(outs, ins)
    requires Mapped(slaves, OUTPUTS, 0, Sum(outs), 0, outputsWkc, outs)
    requires Mapped(slaves, INPUTS, Sum(outs), Sum(outs) + Sum(ins), 0, inputsWkc, outs + ins)
    requires AllWorked(slaves, outs, ins, blocked, wire, first)
    ensures Meets(Reported(wire, CyclePlan(outs, ins, blocked), first), Expected(outputsWkc, inputsWkc),
                  slaves, outs, ins, blocked)
  {
    hide Mapped, Sum, AllWorked, Reported, CyclePlan, Fits, ByteOriented, Balanced, NoneCut, NoEmptyOutput;
    CycleMeetsExpected(slaves, outs, ins, outputsWkc, inputsWkc, blocked, wire, first);
    BalancedIff(slaves, outs, ins, outputsWkc, inputsWkc, blocked);
  }

  /** From the slaves' descriptions to the counter of a cycle: the group is mapped, then one cycle is
      exchanged. If all slaves do their work, the counter is the expected one if and only if there is any
      process data, and cut windows and empty output windows make up for each other. */
  method MapAndExchange(m: Master, g: Group, slaves: array<Slave>, clock: bool, dcNext: nat, configadr: seq<nat>,
                        wire: seq<Packet>)
    returns (expected: nat, wkc: int)
    requires clock ==> dcNext < |configadr|
    requires m.Idle() && g.ioSegment.Length == TABLE && 0 < slaves.Length
    requires Fresh(slaves[1..], OUTPUTS) && Fresh(slaves[1..], INPUTS)
    requires Exchangeable(slaves[1..], Blocked(g.blockLrw, slaves[1..]))
    requires Sum(AllSpans(slaves[1..], OUTPUTS)) + Sum(AllSpans(slaves[1..], INPUTS)) <= m.iomap.Length
    requires GoodWire(wire, GroupPlan(slaves[1..], Blocked(g.blockLrw, slaves[1..])), IndexOf(m.port.lastidx, 1), clock)
    modifies g, slaves, g.ioSegment, m, m.port, m.port.rxbufstat, m.port.rxbuf, m.stack, m.iomap
    ensures m.Idle()
    ensures var list := old(slaves[1..]);
            var blocked := Blocked(old(g.blockLrw), list);
            var outs, ins := AllSpans(list, OUTPUTS), AllSpans(list, INPUTS);
            var rs := GroupPlan(list, blocked);
            var first := IndexOf(old(m.port.lastidx), 1);
            InImage(rs, m.iomap.Length) &&
            m.iomap[..] == Image(old(m.iomap[..]), wire, rs, first, clock, |rs|) && wkc == Reported(wire, rs, first) &&
            (AllWorked(slaves[1..], outs, ins, blocked, wire, first) ==>
               Meets(wkc, expected, slaves[1..], outs, ins, blocked))
    ensures AsksForTime(m.sent, clock, dcNext, configadr)
    ensures |m.sent| == |GroupPlan(old(slaves[1..]), Blocked(old(g.blockLrw), old(slaves[1..])))|
  {
    hide AsksForTime;
    hide Mapped, Exact, Sum, AllSpans, HasSms, Fits, CyclePlan, GoodWire, InImage, Image, Reported, AllWorked;
    hide AllWindows, IndexOf, Meets, Fresh;
    ghost var list := slaves[1..];
    ghost var blocked := Blocked(g.blockLrw, list);
    var size;
    ghost var outs, ins;
    size, outs, ins := g.MapGroup(slaves);
    SameGroup(list, slaves[1..]);
    BlockedInArray(slaves[..], list);
    LaidSizes(g, outs, ins);
    ghost var windows := slaves[1..];
    ghost var first := IndexOf(m.port.lastidx, 1);
    wkc := Exchange(m, g, clock, dcNext, configadr, wire, outs, ins);
    expected := g.outputsWkc * 2 + g.inputsWkc;
    if AllWorked(windows, outs, ins, blocked, wire, first) {
      MappedMeetsExpected(windows, g.outputsWkc, g.inputsWkc, blocked, wire, first, outs, ins);
    }
  }

  /** From the slave table to the clock datagram of a cycle: the clocks are configured, the group is mapped, and
      one cycle is exchanged. `configadr` are the station addresses. If any slave has a clock, the first frame
      spreads the time of the first one that has. */
  method ConfigureAndExchange(m: Master, g: Group, slaves: array<Slave>, list: array<SlaveInfo>, latched: seq<Latch>,
                              configadr: seq<nat>, wire: seq<Packet>)
    returns (expected: nat, wkc: int)
    requires 0 < list.Length == |latched| == |configadr| && Ordered(list[..])
    requires m.Idle() && g.ioSegment.Length == TABLE && 0 < slaves.Length
    requires Fresh(slaves[1..], OUTPUTS) && Fresh(slaves[1..], INPUTS)
    requires Exchangeable(slaves[1..], Blocked(g.blockLrw, slaves[1..]))
    requires Sum(AllSpans(slaves[1..], OUTPUTS)) + Sum(AllSpans(slaves[1..], INPUTS)) <= m.iomap.Length
    requires GoodWire(wire, GroupPlan(slaves[1..], Blocked(g.blockLrw, slaves[1..])), IndexOf(m.port.lastidx, 1),
                      AnyClock(list[..], list.Length - 1))
    modifies list, g, slaves, g.ioSegment, m, m.port, m.port.rxbufstat, m.port.rxbuf, m.stack, m.iomap
    ensures m.Idle()
    ensures forall f | 1 <= f < list.Length && old(list[f]).hasdc && (forall k | 1 <= k < f :: !old(list[k]).hasdc) ::
              AsksForTime(m.sent, true, f, configadr)
    ensures (forall k | 1 <= k < list.Length :: !old(list[k]).hasdc) ==>
              forall k | 0 <= k < |m.sent| :: m.sent[k].more == []
  {
    hide Exact, Sum, AllSpans, HasSms, Fits, CyclePlan, GoodWire, InImage, Image, Reported, AllWorked, Chained;
    hide AllWindows, IndexOf, Meets, Fresh, Exchangeable, Mapped, AnyClock, Run;
    ghost var before := list[..];
    var hasdc := ConfigDc(list, latched);
    SameAny(before, list[..], list.Length - 1);
    forall f | 1 <= f < list.Length && before[f].hasdc && (forall k | 1 <= k < f :: !before[k].hasdc)
      ensures hasdc && list[..][0].dcNext == f
    {
      FirstInChain(list[..], list.Length - 1, f);
    }
    if hasdc {
      FirstIsThere(list[..], list.Length - 1);
    }
    NobodyHasClock(before, list.Length - 1);
    expected, wkc := MapAndExchange(m, g, slaves, hasdc, list[0].dcNext, configadr, wire);
  }

  lemma NobodyHasClock(list: seq<SlaveInfo>, n: nat)
    requires n < |list|
    ensures !AnyClock(list, n) <==> forall k | 1 <= k <= n :: !list[k].hasdc
  {
  }

  lemma BlockedInArray(all: seq<Slave>, list: seq<Slave>)
    requires |all| == |list| + 1 && forall k | 0 <= k < |list| :: list[k].blockLrw == all[k + 1].blockLrw
    ensures (exists i | 1 <= i < |all| :: all[i].blockLrw) <==> (exists k | 0 <= k < |list| :: list[k].blockLrw)
  {
    if i :| 1 <= i < |all| && all[i].blockLrw {
      assert list[i - 1].blockLrw;
    }
  }

  lemma LaidSizes(g: Group, outs: seq<nat>, ins: seq<nat>)
    requires g.ioSegment.Length == TABLE && g.Laid(outs, ins)
    ensures g.obytes == Sum(outs) && g.ibytes == Sum(ins)
  {
  }
}

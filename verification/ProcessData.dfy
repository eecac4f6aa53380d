/** One cycle: send all process data, then collect the answers. */
module ProcessData {
  import opened Basics
  import opened NicDriver
  import opened Segments
  import opened Pieces
  import IoMap

  /** The register of the system time, and its size. */
  const SYSTEM_TIME: nat := 0x910
  const TIME_SIZE: nat := 8

  /** A process data datagram that was sent, in the order of sending. */
  datatype Request = Request(cmd: Cmd, piece: Piece)

  /** A stack entry: where the data of a frame belongs. */
  datatype Entry = Entry(idx: nat, data: nat, length: nat)

  function Requests(cmd: Cmd, ps: seq<Piece>): (rs: seq<Request>)
    ensures |rs| == |ps| && forall k | 0 <= k < |rs| :: rs[k] == Request(cmd, ps[k])
  {
    seq(|ps|, k requires 0 <= k < |ps| => Request(cmd, ps[k]))
  }

  /** The requests of one cycle: LRW for everything, or LRD for the inputs and LWR for the outputs
      when LRW is blocked. */
  function Plan(segs: seq<nat>, isegment: nat, ioffset: nat, obytes: nat, ibytes: nat, blocked: bool): seq<Request>
    requires isegment < |segs| && ioffset <= segs[isegment]
  {
    if obytes + ibytes == 0 then []
    else if blocked then Separate(segs, isegment, ioffset, obytes, ibytes)
    else Requests(Lrw, OnePerSegment(segs, 0, 0, obytes + ibytes))
  }

  function Separate(segs: seq<nat>, isegment: nat, ioffset: nat, obytes: nat, ibytes: nat): seq<Request>
    requires isegment < |segs| && ioffset <= segs[isegment]
  {
    (if ibytes > 0 then Requests(Lrd, InputPieces(segs, isegment, ioffset, obytes, ibytes)) else []) +
    (if obytes > 0 then Requests(Lwr, OutputPieces(segs, 0, 0, obytes)) else [])
  }

  /** Requests are process data requests and stay inside the process image. */
  ghost predicate InImage(rs: seq<Request>, size: nat) {
    forall k | 0 <= k < |rs| ::
      (rs[k].cmd == Lrd || rs[k].cmd == Lwr || rs[k].cmd == Lrw) &&
      rs[k].piece.addr + rs[k].piece.length <= size
  }

  /** The buffer of the `k`-th frame of a cycle whose first frame got index `first`. */
  function IndexOf(first: nat, k: nat): nat {
    (first + k) % MAXBUF
  }

  /** Sixteen frames in a row have sixteen different buffers. */
  lemma IndicesDiffer(first: nat)
    ensures forall j, k | 0 <= j < MAXBUF && 0 <= k < MAXBUF && j != k :: IndexOf(first, j) != IndexOf(first, k)
    ensures forall k: nat :: IndexOf(first, k) < MAXBUF
  {
  }

  /** ... and together they have all of them. */
  lemma AllIndices(first: nat)
    requires first < MAXBUF
    ensures forall i | 0 <= i < MAXBUF :: IndexOf(first, Distance(first, i)) == i
  {
  }

  lemma NextIndex(first: nat, n: nat)
    ensures var last := IndexOf(first, n + MAXBUF - 1);
            IndexOf(first, n) == if last + 1 >= MAXBUF then 0 else last + 1
  {
  }

  // ----- What the answers amount to.

  /** The answer to a request: a datagram of the same kind and size, followed by the clock datagram in
      the frame that asked for the time. */
  ghost predicate Answers(f: Frame, r: Request, clock: bool) {
    f.first.cmd == r.cmd && |f.first.data| == r.piece.length &&
    if clock then |f.more| == 1 && |f.more[0].data| == TIME_SIZE else f.more == []
  }

  /** Whatever arrives for the requests of this cycle answers them. With a clock the first frame is
      not lost. */
  ghost predicate GoodWire(wire: seq<Packet>, rs: seq<Request>, first: nat, clock: bool) {
    (forall k | 0 <= k < |rs| ::
       Find(wire, IndexOf(first, k)).Some? ==>
         Answers(Find(wire, IndexOf(first, k)).value, rs[k], clock && k == 0)) &&
    (clock && rs != [] ==> Find(wire, IndexOf(first, 0)).Some?)
  }

  /** The work counter after the first `n` requests; writes count twice, as they do with LRW. */
  function Counter(wire: seq<Packet>, rs: seq<Request>, first: nat, n: nat): nat
    requires n <= |rs|
  {
    if n == 0 then 0 else
      var f := Find(wire, IndexOf(first, n - 1));
      Counter(wire, rs, first, n - 1) +
      if f.None? then 0 else if rs[n - 1].cmd == Lwr then 2 * f.value.first.wkc else f.value.first.wkc
  }

  /** Whether anything came back for the first `n` requests. */
  predicate Any(wire: seq<Packet>, first: nat, n: nat) {
    n > 0 && (Find(wire, IndexOf(first, n - 1)).Some? || Any(wire, first, n - 1))
  }

  /** The time in a frame that asked for it. */
  function ClockOf(f: Option<Frame>): seq<byte> {
    if f.Some? && f.value.more != [] then f.value.more[0].data else []
  }

  /** Puts `data` at offset `at`. */
  function Patch(image: seq<byte>, at: nat, data: seq<byte>): (r: seq<byte>)
    requires at + |data| <= |image|
    ensures |r| == |image|
  {
    image[..at] + data + image[at + |data|..]
  }

  /** The process image after the first `n` requests: the data of every read that was answered is in
      its place, and nothing else has changed. */
  ghost function Image(image: seq<byte>, wire: seq<Packet>, rs: seq<Request>, first: nat, clock: bool,
                       n: nat): (r: seq<byte>)
    requires n <= |rs| && InImage(rs, |image|) && GoodWire(wire, rs, first, clock)
    ensures |r| == |image|
  {
    if n == 0 then image else
      var before := Image(image, wire, rs, first, clock, n - 1);
      var f := Find(wire, IndexOf(first, n - 1));
      if f.None? || rs[n - 1].cmd == Lwr then before
      else Patch(before, rs[n - 1].piece.addr, f.value.first.data)
  }

  lemma NoAnswersYet(image: seq<byte>, wire: seq<Packet>, rs: seq<Request>, first: nat, clock: bool)
    requires InImage(rs, |image|) && GoodWire(wire, rs, first, clock)
    ensures Image(image, wire, rs, first, clock, 0) == image
    ensures Counter(wire, rs, first, 0) == 0 && !Any(wire, first, 0)
  {
  }

  lemma UnfoldAnswers(image: seq<byte>, wire: seq<Packet>, rs: seq<Request>, first: nat, clock: bool, k: nat)
    requires k < |rs| && InImage(rs, |image|) && GoodWire(wire, rs, first, clock)
    ensures var f, r := Find(wire, IndexOf(first, k)), rs[k];
            var before := Image(image, wire, rs, first, clock, k);
            (f.Some? ==> Answers(f.value, r, clock && k == 0) && |f.value.first.data| == r.piece.length) &&
            (clock && k == 0 ==> f.Some?) &&
            Image(image, wire, rs, first, clock, k + 1) ==
              (if f.None? || r.cmd == Lwr then before else Patch(before, r.piece.addr, f.value.first.data)) &&
            Counter(wire, rs, first, k + 1) == Counter(wire, rs, first, k) +
              (if f.None? then 0 else if r.cmd == Lwr then 2 * f.value.first.wkc else f.value.first.wkc) &&
            (Any(wire, first, k + 1) <==> f.Some? || Any(wire, first, k))
  {
  }

  // ----- ... and byte by byte, frame by frame.

  /** Request `k` is a read that was answered, and byte `b` of the image is its. */
  ghost predicate Brings(wire: seq<Packet>, rs: seq<Request>, first: nat, k: nat, b: nat) {
    k < |rs| && rs[k].cmd != Lwr && Find(wire, IndexOf(first, k)).Some? &&
    rs[k].piece.addr <= b < rs[k].piece.addr + rs[k].piece.length
  }

  ghost predicate Brought(wire: seq<Packet>, rs: seq<Request>, first: nat, k: nat, b: nat, x: byte) {
    Brings(wire, rs, first, k, b) &&
    var data := Find(wire, IndexOf(first, k)).value.first.data;
    |data| == rs[k].piece.length && x == data[b - rs[k].piece.addr]
  }

  lemma ImageStep(image: seq<byte>, wire: seq<Packet>, rs: seq<Request>, first: nat, clock: bool, k: nat, b: nat)
    requires k < |rs| && InImage(rs, |image|) && GoodWire(wire, rs, first, clock) && b < |image|
    ensures var before, after := Image(image, wire, rs, first, clock, k), Image(image, wire, rs, first, clock, k + 1);
            if Brings(wire, rs, first, k, b) then Brought(wire, rs, first, k, b, after[b]) else after[b] == before[b]
  {
    UnfoldAnswers(image, wire, rs, first, clock, k);
    IsInImage(rs, |image|, k);
    hide Find, IndexOf, Image, GoodWire, InImage, Answers;
  }

  /** Byte `b` is the one that request `k` brought, and no later one did. */
  ghost predicate BringsLast(wire: seq<Packet>, rs: seq<Request>, first: nat, k: nat, n: nat, b: nat) {
    k < n && Brings(wire, rs, first, k, b) && forall j: nat | k < j < n :: !Brings(wire, rs, first, j, b)
  }

  /** Every byte of the image is the one that the last answered read of it brought, or has not changed. */
  lemma {:induction false} ImageAt(image: seq<byte>, wire: seq<Packet>, rs: seq<Request>, first: nat, clock: bool,
                                   n: nat, b: nat)
    requires n <= |rs| && InImage(rs, |image|) && GoodWire(wire, rs, first, clock) && b < |image|
    ensures (forall k: nat | k < n :: !Brings(wire, rs, first, k, b)) ==>
              Image(image, wire, rs, first, clock, n)[b] == image[b]
    ensures forall k: nat | BringsLast(wire, rs, first, k, n, b) ::
              Brought(wire, rs, first, k, b, Image(image, wire, rs, first, clock, n)[b])
  {
    hide Brought, Brings, Find, IndexOf, Image, GoodWire, InImage;
    if n == 0 {
      NoAnswersYet(image, wire, rs, first, clock);
    } else {
      ImageAt(image, wire, rs, first, clock, n - 1, b);
      ImageStep(image, wire, rs, first, clock, n - 1, b);
      forall k: nat | BringsLast(wire, rs, first, k, n, b)
        ensures Brought(wire, rs, first, k, b, Image(image, wire, rs, first, clock, n)[b])
      {
        if k < n - 1 {
          assert BringsLast(wire, rs, first, k, n - 1, b);
        }
      }
    }
  }

  lemma IsInImage(rs: seq<Request>, size: nat, k: nat)
    requires InImage(rs, size) && k < |rs|
    ensures rs[k].piece.addr + rs[k].piece.length <= size
    ensures rs[k].cmd == Lrd || rs[k].cmd == Lwr || rs[k].cmd == Lrw
  {
  }

  /** What each of the first `n` requests adds to the counter. */
  function Counts(wire: seq<Packet>, rs: seq<Request>, first: nat, n: nat): (c: seq<nat>)
    requires n <= |rs|
    ensures |c| == n
  {
    seq(n, k requires 0 <= k < n =>
      match Find(wire, IndexOf(first, k))
      case None => 0
      case Some(f) => if rs[k].cmd == Lwr then f.first.wkc + f.first.wkc else f.first.wkc)
  }

  /** The counter is the sum over all answered requests, and there is one if anything is answered. */
  lemma {:induction false} CounterIsSum(wire: seq<Packet>, rs: seq<Request>, first: nat, n: nat)
    requires n <= |rs|
    ensures Counter(wire, rs, first, n) == Sum(Counts(wire, rs, first, n))
    ensures Any(wire, first, n) <==> exists k: nat :: k < n && Find(wire, IndexOf(first, k)).Some?
  {
    hide Find, IndexOf;
    if n > 0 {
      CounterIsSum(wire, rs, first, n - 1);
      assert Counts(wire, rs, first, n)[..n - 1] == Counts(wire, rs, first, n - 1);
      if Find(wire, IndexOf(first, n - 1)).Some? {
        assert Any(wire, first, n);
      }
    }
  }

  class Master {
    const port: Port
    const iomap: array<byte>
    const stack: array<Entry>
    var pushed: nat
    var pulled: nat
    var dcTime: seq<byte>
    var dcLength: nat
    /** The frames sent in this cycle, and the requests in them. */
    ghost var sent: seq<Frame>
    ghost var flight: seq<Request>
    ghost var first: nat

    constructor (size: nat)
      ensures Idle() && iomap.Length == size && fresh(iomap) && fresh(stack)
      ensures fresh(port) && fresh(port.rxbufstat) && fresh(port.rxbuf)
    {
      port := new Port();
      iomap := new byte[size](_ => 0);
      stack := new Entry[MAXBUF](_ => Entry(0, 0, 0));
      pushed, pulled, dcTime, dcLength := 0, 0, seq(TIME_SIZE, _ => 0), 0;
      sent, flight, first := [], [], 1;
    }

    ghost predicate Valid()
      reads this, port
    {
      port.Valid() && stack.Length == MAXBUF && pulled <= pushed <= MAXBUF && |dcTime| == TIME_SIZE
    }

    /** Between cycles: all buffers are free. */
    ghost predicate Idle()
      reads this, port, port.rxbufstat
    {
      Valid() && pushed == 0 && pulled == 0 && forall i | 0 <= i < MAXBUF :: port.rxbufstat[i] == Empty
    }

    /** The frames of this cycle are under way, each with its own buffer and stack entry, if there are
        not more of them than buffers. */
    ghost predicate InFlight()
      reads this, port, port.rxbufstat, stack
    {
      Valid() && first < MAXBUF && |sent| == |flight| &&
      (|flight| <= MAXBUF ==>
         pushed == |flight| && port.lastidx == IndexOf(first, |flight| + MAXBUF - 1) &&
         (forall k | 0 <= k < |flight| ::
            sent[k].index == IndexOf(first, k) &&
            stack[k] == Entry(IndexOf(first, k), flight[k].piece.addr, flight[k].piece.length) &&
            port.rxbufstat[IndexOf(first, k)] == Tx) &&
         forall k | |flight| <= k < MAXBUF :: port.rxbufstat[IndexOf(first, k)] == Empty)
    }

    method PushIndex(idx: nat, data: nat, length: nat)
      requires Valid()
      modifies this`pushed, stack
      ensures Valid()
      ensures if old(pushed) < MAXBUF
              then pushed == old(pushed) + 1 && stack[..] == old(stack[..])[old(pushed) := Entry(idx, data, length)]
              else pushed == old(pushed) && stack[..] == old(stack[..])
    {
      if pushed < MAXBUF {
        stack[pushed] := Entry(idx, data, length);
        pushed := pushed + 1;
      }
    }

    method PullIndex() returns (pos: int)
      requires Valid()
      modifies this`pulled
      ensures Valid()
      ensures if old(pulled) < pushed then pos == old(pulled) && pulled == old(pulled) + 1
              else pos == -1 && pulled == old(pulled)
    {
      pos := -1;
      if pulled < pushed {
        pos := pulled;
        pulled := pulled + 1;
      }
    }

    /** The buffer for the next frame is the next one in cyclic order. */
    method NextBuffer() returns (idx: nat)
      requires InFlight()
      modifies port`lastidx, port.rxbufstat
      ensures port.Valid() && idx < MAXBUF && port.lastidx == idx
      ensures |flight| < MAXBUF ==> idx == IndexOf(first, |flight|)
      ensures InFlightBut(idx)
    {
      NextIndex(first, |flight|);
      IndicesDiffer(first);
      hide IndexOf;
      idx := port.GetIndex();
    }

    /** The datagram that spreads the time of the slave with station address `station` to all others. */
    function ClockDatagram(station: nat): Datagram
      reads this`dcTime
    {
      Datagram(Frmw, station + 0x1_0000 * SYSTEM_TIME, dcTime, 0)
    }

    method SetupFrame(idx: nat, cmd: Cmd, logAdr: nat, length: nat, data: nat, clock: bool, station: nat)
      returns (f: Frame)
      requires data + length <= iomap.Length
      ensures f.index == idx && f.more == if clock then [ClockDatagram(station)] else []
      ensures f.first ==
                Datagram(cmd, logAdr, if cmd == Lrd then seq(length, _ => 0) else iomap[data..data + length], 0)
    {
      var payload := if cmd == Lrd then seq(length, _ => 0 as byte) else iomap[data..data + length];
      f := Frame(idx, Datagram(cmd, logAdr, payload, 0), []);
      if clock {
        f := f.(more := [Datagram(Frmw, station + 0x1_0000 * SYSTEM_TIME, dcTime, 0)]);
      }
    }

    /** What a frame of this cycle carries: outputs are sent, inputs leave room, and `more` follows. */
    ghost predicate Carries(f: Frame, r: Request, more: seq<Datagram>)
      reads iomap
    {
      r.piece.addr + r.piece.length <= iomap.Length && f.more == more &&
      f.first == Datagram(r.cmd, r.piece.addr,
                          if r.cmd == Lrd then seq(r.piece.length, _ => 0)
                          else iomap[r.piece.addr..r.piece.addr + r.piece.length], 0)
    }

    /** All frames sent so far; the first one carries the clock datagram, if there is one. */
    ghost predicate AllCarry(ask: seq<Datagram>)
      reads this, iomap
    {
      |sent| == |flight| && forall k | 0 <= k < |flight| :: Carries(sent[k], flight[k], if k == 0 then ask else [])
    }

    /** The first frame is yet to be sent, with the clock datagram in it. */
    ghost predicate WithClock(withClock: bool, station: nat, ask: seq<Datagram>)
      reads this`flight, this`dcTime
    {
      (withClock <==> ask != [] && flight == []) && (ask == [] || ask == [ClockDatagram(station)])
    }

    /** Sends a frame and remembers where its data belongs. */
    method Dispatch(idx: nat, frame: Frame, data: nat, length: nat, ghost r: Request)
      requires InFlightBut(idx) && frame.index == idx && r.piece == Piece(data, length)
      modifies this`pushed, this`sent, this`flight, port.rxbufstat, stack
      ensures InFlight() && sent == old(sent) + [frame] && flight == old(flight) + [r]
    {
      IndicesDiffer(first);
      LastIndex(first, |flight| + 1);
      hide IndexOf;
      port.SetBufStat(idx, Tx);
      sent := sent + [frame];
      PushIndex(idx, data, length);
      flight := flight + [r];
    }

    /** As `InFlight`, with a buffer allocated for the next frame. */
    ghost predicate InFlightBut(idx: nat)
      reads this, port, port.rxbufstat, stack
    {
      Valid() && first < MAXBUF && |sent| == |flight| && idx < MAXBUF && port.lastidx == idx &&
      (|flight| <= MAXBUF ==>
         pushed == |flight| && (|flight| < MAXBUF ==> idx == IndexOf(first, |flight|)) &&
         (|flight| < MAXBUF ==> forall k | 0 <= k < |flight| ::
            sent[k].index == IndexOf(first, k) &&
            stack[k] == Entry(IndexOf(first, k), flight[k].piece.addr, flight[k].piece.length) &&
            port.rxbufstat[IndexOf(first, k)] == Tx) &&
         forall k | |flight| < k < MAXBUF :: port.rxbufstat[IndexOf(first, k)] == Empty)
    }

    /** Builds a frame, sends it and remembers where its data belongs. */
    method Emit(cmd: Cmd, logAdr: nat, length: nat, data: nat, withClock: bool, station: nat, ghost ask: seq<Datagram>)
      requires InFlight() && AllCarry(ask) && data == logAdr && data + length <= iomap.Length
      requires WithClock(withClock, station, ask)
      modifies this`pushed, this`sent, this`flight, this`dcLength, port`lastidx, port.rxbufstat, stack
      ensures InFlight() && pulled == old(pulled) && AllCarry(ask) && WithClock(false, station, ask)
      ensures flight == old(flight) + [Request(cmd, Piece(logAdr, length))]
      ensures dcLength == if withClock then length else old(dcLength)
    {
      hide IndexOf, Carries, InFlight;
      ghost var r := Request(cmd, Piece(logAdr, length));
      var idx := NextBuffer();
      var frame := SetupFrame(idx, cmd, logAdr, length, data, withClock, station);
      IsCarried(frame, r, if |flight| == 0 then ask else []);
      if withClock {
        dcLength := length;
      }
      Dispatch(idx, frame, data, length, r);
    }

    lemma IsCarried(f: Frame, r: Request, more: seq<Datagram>)
      requires r.piece.addr + r.piece.length <= iomap.Length && f.more == more
      requires f.first == Datagram(r.cmd, r.piece.addr,
                                   if r.cmd == Lrd then seq(r.piece.length, _ => 0)
                                   else iomap[r.piece.addr..r.piece.addr + r.piece.length], 0)
      ensures Carries(f, r, more)
    {
    }

    /** The loop over segments: from segment `cur` on, one datagram each. */
    method SendSegments(g: IoMap.Group, cmd: Cmd, cur0: nat, ghost segs: seq<nat>, logAdr0: nat, data0: nat,
                        length0: nat, offset: nat, withClock: bool, station: nat, ghost ask: seq<Datagram>)
      returns (first': bool)
      requires InFlight() && AllCarry(ask) && WithClock(withClock, station, ask)
      requires 0 < g.nsegments <= g.ioSegment.Length && cur0 < g.nsegments && offset <= g.ioSegment[cur0]
      requires segs == g.ioSegment[..g.nsegments][cur0 := g.ioSegment[cur0] - offset]
      requires data0 == logAdr0 && logAdr0 + length0 <= iomap.Length
      requires Partition(OnePerSegment(segs, cur0, logAdr0, length0), logAdr0, logAdr0 + length0)
      modifies this`pushed, this`sent, this`flight, this`dcLength, port`lastidx, port.rxbufstat, stack
      ensures InFlight() && AllCarry(ask) && pulled == old(pulled) && !first' && WithClock(false, station, ask)
      ensures flight == old(flight) + Requests(cmd, OnePerSegment(segs, cur0, logAdr0, length0))
      ensures withClock ==> dcLength == OnePerSegment(segs, cur0, logAdr0, length0)[0].length
      ensures !withClock ==> dcLength == old(dcLength)
    {
      hide InFlight, AllCarry, OnePerSegment, Partition;
      first' := withClock;
      var cur: nat, logAdr: nat, data: nat, length: int := cur0, logAdr0, data0, length0;
      ghost var whole := OnePerSegment(segs, cur0, logAdr0, length0);
      ghost var end := logAdr0 + length0;
      ghost var n: nat := 0;
      var again := true;
      while again
        invariant InFlight() && AllCarry(ask) && pulled == old(pulled) && n <= |whole|
        invariant first' == (withClock && n == 0) && WithClock(first', station, ask)
        invariant n == 0 ==> again && flight == old(flight)
        invariant flight == old(flight) + Requests(cmd, whole[..n])
        invariant dcLength == if withClock && n > 0 then whole[0].length else old(dcLength)
        invariant again ==>
                    cur0 <= cur < g.nsegments && data == logAdr <= end && (n == 0 <==> cur == cur0) &&
                    whole[n..] == OnePerSegment(segs, cur, logAdr, length) &&
                    Partition(whole[n..], logAdr, end)
        invariant !again ==> n == |whole|
        decreases g.nsegments - cur, again
      {
        var sublength := g.ioSegment[cur];
        if cur == cur0 {
          sublength := sublength - offset;
        }
        assert sublength == segs[cur];
        OneMorePiece(cmd, whole, n, segs, cur, logAdr, length, end);
        Emit(cmd, logAdr, sublength, data, first', station, ask);
        first' := false;
        cur := cur + 1;
        length := length - sublength;
        logAdr := logAdr + sublength;
        data := data + sublength;
        n := n + 1;
        again := length != 0 && cur < g.nsegments;
      }
      assert whole[..|whole|] == whole;
    }

    /** The loop that writes the outputs alone. */
    method SendOutputs(g: IoMap.Group, ghost segs: seq<nat>, withClock: bool, station: nat, ghost ask: seq<Datagram>)
      requires InFlight() && AllCarry(ask) && WithClock(withClock, station, ask)
      requires 0 < g.nsegments <= g.ioSegment.Length && segs == g.ioSegment[..g.nsegments]
      requires g.obytes <= iomap.Length
      requires Partition(OutputPieces(segs, 0, 0, g.obytes), 0, g.obytes)
      modifies this`pushed, this`sent, this`flight, this`dcLength, port`lastidx, port.rxbufstat, stack
      ensures InFlight() && AllCarry(ask) && pulled == old(pulled)
      ensures flight == old(flight) + Requests(Lwr, OutputPieces(segs, 0, 0, g.obytes))
      ensures withClock ==> dcLength == OutputPieces(segs, 0, 0, g.obytes)[0].length
      ensures !withClock ==> dcLength == old(dcLength)
    {
      hide InFlight, AllCarry, OutputPieces, Partition;
      var first' := withClock;
      var cur: nat, logAdr: nat, data: nat, length: nat := 0, 0, 0, g.obytes;
      ghost var whole := OutputPieces(segs, 0, 0, g.obytes);
      ghost var n: nat := 0;
      var again := true;
      while again
        invariant InFlight() && AllCarry(ask) && pulled == old(pulled) && n <= |whole|
        invariant first' == (withClock && n == 0) && WithClock(first', station, ask)
        invariant n == 0 ==> again && flight == old(flight)
        invariant flight == old(flight) + Requests(Lwr, whole[..n])
        invariant dcLength == if withClock && n > 0 then whole[0].length else old(dcLength)
        invariant again ==>
                    cur < g.nsegments && data == logAdr <= g.obytes &&
                    whole[n..] == OutputPieces(segs, cur, logAdr, length) &&
                    Partition(whole[n..], logAdr, g.obytes)
        invariant !again ==> n == |whole|
        decreases g.nsegments - cur, again
      {
        var sublength := g.ioSegment[cur];
        if length - sublength < 0 {
          sublength := length;
        }
        assert segs[cur] == g.ioSegment[cur];
        OneMoreOutput(whole, n, segs, cur, logAdr, length, g.obytes);
        Emit(Lwr, logAdr, sublength, data, first', station, ask);
        first' := false;
        cur := cur + 1;
        length := length - sublength;
        logAdr := logAdr + sublength;
        data := data + sublength;
        n := n + 1;
        again := length != 0 && cur < g.nsegments;
      }
      assert whole[..|whole|] == whole;
    }

    /** LRD for the inputs, then LWR for the outputs. */
    method SendSeparate(g: IoMap.Group, clock: bool, station: nat, ghost ask: seq<Datagram>, ghost segs: seq<nat>)
      requires InFlight() && AllCarry(ask) && flight == [] && pulled == 0 && WithClock(clock, station, ask)
      requires 0 < g.nsegments <= g.ioSegment.Length && segs == g.ioSegment[..g.nsegments]
      requires g.obytes + g.ibytes <= iomap.Length && g.isegment < |segs| && g.ioffset <= segs[g.isegment]
      requires Partition(InputPieces(segs, g.isegment, g.ioffset, g.obytes, g.ibytes), g.obytes, g.obytes + g.ibytes)
      requires Partition(OutputPieces(segs, 0, 0, g.obytes), 0, g.obytes)
      modifies this`pushed, this`sent, this`flight, this`dcLength, port`lastidx, port.rxbufstat, stack
      ensures InFlight() && AllCarry(ask) && pulled == 0
      ensures flight == Separate(segs, g.isegment, g.ioffset, g.obytes, g.ibytes)
      ensures clock && flight != [] ==> dcLength == flight[0].piece.length
    {
      hide InFlight, AllCarry, OnePerSegment, OutputPieces, Partition;
      var first' := clock;
      if g.ibytes > 0 {
        assert g.ioSegment[g.isegment] == segs[g.isegment];
        first' := SendSegments(g, Lrd, g.isegment, segs[g.isegment := segs[g.isegment] - g.ioffset],
                               g.obytes, g.obytes, g.ibytes, g.ioffset, first', station, ask);
      }
      if g.obytes > 0 {
        SendOutputs(g, segs, first', station, ask);
      }
    }

    /** Sends the process data of a group whose layout fits the segment table. `outs` and `ins` are the spans
        of the layout, `configadr` the station addresses of the slaves, and `dcNext` is the first slave with a
        clock. With a clock the first frame spreads its time. */
    method SendProcessData(g: IoMap.Group, clock: bool, dcNext: nat, configadr: seq<nat>, ghost outs: seq<nat>,
                           ghost ins: seq<nat>)
      returns (wkc: nat)
      requires Idle() && g.ioSegment.Length == TABLE && g.Laid(outs, ins) && Fits(outs, ins)
      requires g.obytes + g.ibytes <= iomap.Length && (clock ==> dcNext < |configadr|)
      modifies this`pushed, this`sent, this`flight, this`first, this`dcLength
      modifies port`lastidx, port.rxbufstat, stack
      ensures InFlight() && pulled == 0
      ensures var segs := g.ioSegment[..g.nsegments];
              g.isegment < |segs| && g.ioffset <= segs[g.isegment] &&
              flight == Plan(segs, g.isegment, g.ioffset, g.obytes, g.ibytes, g.blockLrw > 0)
      ensures |sent| == |flight| && InImage(flight, iomap.Length)
      ensures forall k | 0 <= k < |sent| ::
                var at, end := flight[k].piece.addr, flight[k].piece.addr + flight[k].piece.length;
                sent[k].first.cmd == flight[k].cmd && sent[k].first.addr == at && sent[k].first.wkc == 0 &&
                sent[k].first.data == if flight[k].cmd == Lrd then seq(end - at, _ => 0) else iomap[at..end]
      ensures forall k | 0 <= k < |sent| ::
                if clock && k == 0
                then |sent[0].more| == 1 && sent[0].more[0].cmd == Frmw && sent[0].more[0].data == dcTime &&
                     sent[0].more[0].addr == configadr[dcNext] + 0x1_0000 * 0x910
                else sent[k].more == []
      ensures clock && flight != [] ==> dcLength == flight[0].piece.length
      ensures wkc == if g.obytes + g.ibytes > 0 then 1 else 0
      ensures first == IndexOf(old(port.lastidx), 1)
    {
      hide InFlight, AllCarry, OnePerSegment, OutputPieces, InputPieces, Partition, Greedy, Sum, Needed, Separate;
      hide InImage, Plan, Fits;
      sent, flight := [], [];
      first := if port.lastidx + 1 >= MAXBUF then 0 else port.lastidx + 1;
      var station := if clock then configadr[dcNext] else 0;
      ghost var ask := if clock then [ClockDatagram(station)] else [];
      StartsInFlight(ask);
      wkc := SendPlan(g, clock, station, ask, outs, ins);
      SentCarries(ask);
    }

    method SendPlan(g: IoMap.Group, clock: bool, station: nat, ghost ask: seq<Datagram>, ghost outs: seq<nat>,
                    ghost ins: seq<nat>)
      returns (wkc: nat)
      requires InFlight() && AllCarry(ask) && flight == [] && pulled == 0 && WithClock(clock, station, ask)
      requires g.ioSegment.Length == TABLE && g.Laid(outs, ins) && Fits(outs, ins)
      requires g.obytes + g.ibytes <= iomap.Length
      modifies this`pushed, this`sent, this`flight, this`dcLength, port`lastidx, port.rxbufstat, stack
      ensures InFlight() && AllCarry(ask) && pulled == 0
      ensures var segs := g.ioSegment[..g.nsegments];
              g.isegment < |segs| && g.ioffset <= segs[g.isegment] &&
              flight == Plan(segs, g.isegment, g.ioffset, g.obytes, g.ibytes, g.blockLrw > 0)
      ensures PlannedCmds()
      ensures clock && flight != [] ==> dcLength == flight[0].piece.length
      ensures wkc == if g.obytes + g.ibytes > 0 then 1 else 0
    {
      hide InFlight, AllCarry, OnePerSegment, OutputPieces, InputPieces, Partition, Greedy, Sum, Needed;
      ghost var segs := g.ioSegment[..g.nsegments];
      LrdCoversInputs(outs, ins);
      LwrCoversOutputs(outs, ins);
      LrwCoversImage(outs, ins);
      wkc := 0;
      var length := g.obytes + g.ibytes;
      if length > 0 {
        wkc := 1;
        if g.blockLrw > 0 {
          SendSeparate(g, clock, station, ask, segs);
        } else {
          assert segs[0 := segs[0] - 0] == segs && g.ioSegment[0] == segs[0];
          var data := if g.obytes > 0 then 0 else g.obytes;
          var _ := SendSegments(g, Lrw, 0, segs, 0, data, length, 0, clock, station, ask);
        }
      }
    }

    ghost predicate PlannedCmds()
      reads this`flight
    {
      forall k | 0 <= k < |flight| :: flight[k].cmd == Lrd || flight[k].cmd == Lwr || flight[k].cmd == Lrw
    }

    lemma StartsInFlight(ask: seq<Datagram>)
      requires Idle() && sent == [] && flight == [] && first == IndexOf(port.lastidx, 1)
      ensures InFlight() && AllCarry(ask)
    {
    }

    lemma SentCarries(ask: seq<Datagram>)
      requires AllCarry(ask) && PlannedCmds()
      ensures |sent| == |flight| && InImage(flight, iomap.Length)
      ensures forall k | 0 <= k < |sent| :: Carries(sent[k], flight[k], if k == 0 then ask else [])
    {
      forall k | 0 <= k < |flight| ensures flight[k].piece.addr + flight[k].piece.length <= iomap.Length {
        assert Carries(sent[k], flight[k], if k == 0 then ask else []);
      }
    }

    // ----- Receiving.

    /** Uses the answer in a buffer. The first frame of a cycle with a clock also brings the time; its
        own counter is then the one in front of the clock datagram. */
    method TakeAnswer(pos: nat, first': bool, wkc0: nat, wkc2: int, ghost r: Request) returns (wkc: nat)
      requires Valid() && pos < pushed && stack[pos].idx < MAXBUF
      requires var f := port.rxbuf[stack[pos].idx];
               Answers(f, r, first') && wkc2 == f.Wkc() &&
               stack[pos] == Entry(stack[pos].idx, r.piece.addr, r.piece.length)
      requires r.piece.addr + r.piece.length <= iomap.Length && (r.cmd == Lrd || r.cmd == Lwr || r.cmd == Lrw)
      requires first' ==> wkc0 == 0 && dcLength == r.piece.length
      modifies this`dcTime, iomap
      ensures var f := port.rxbuf[stack[pos].idx];
              iomap[..] ==
                (if r.cmd == Lwr then old(iomap[..]) else Patch(old(iomap[..]), r.piece.addr, f.first.data)) &&
              wkc == wkc0 + (if r.cmd == Lwr then 2 * f.first.wkc else f.first.wkc) &&
              dcTime == (if first' then f.more[0].data else old(dcTime))
    {
      var f := port.rxbuf[stack[pos].idx];
      wkc := wkc0;
      if f.first.cmd == Lrd || f.first.cmd == Lrw {
        if first' {
          CopyIn(stack[pos].data, f.first.data, dcLength);
          wkc := f.first.wkc;
          dcTime := f.more[0].data;
        } else {
          CopyIn(stack[pos].data, f.first.data, stack[pos].length);
          wkc := wkc + wkc2;
        }
      } else if f.first.cmd == Lwr {
        if first' {
          wkc := f.first.wkc * 2;
          dcTime := f.more[0].data;
        } else {
          wkc := wkc + wkc2 * 2;
        }
      }
    }

    method CopyIn(at: nat, data: seq<byte>, length: nat)
      requires at + length <= iomap.Length && |data| == length
      modifies iomap
      ensures iomap[..] == Patch(old(iomap[..]), at, data)
    {
      forall i | 0 <= i < length {
        iomap[at + i] := data[i];
      }
    }

    /** What holds when `k` of the frames of this cycle have been dealt with. */
    ghost predicate Collecting(k: nat, full: seq<Packet>)
      reads this`flight, this`first, port, port.rxbufstat, port.rxbuf, stack
    {
      port.Valid() && stack.Length == MAXBUF >= |flight| && first < MAXBUF && k <= |flight| &&
      (forall j | k <= j < |flight| ::
         stack[j] == Entry(IndexOf(first, j), flight[j].piece.addr, flight[j].piece.length) &&
         port.Pending(IndexOf(first, j), full)) &&
      (forall j | 0 <= j < MAXBUF && (j < k || |flight| <= j) :: port.rxbufstat[IndexOf(first, j)] == Empty)
    }

    /** Waits for one frame of the cycle, uses it and releases its buffer. */
    method CollectOne(pos: nat, first': bool, wkc0: nat, ghost full: seq<Packet>) returns (wkc: nat, got: bool)
      requires Valid() && pushed == |flight| && Collecting(pos, full) && pos < |flight| && InImage(flight, iomap.Length)
      requires first' ==> wkc0 == 0 && dcLength == flight[pos].piece.length
      requires var f := Find(full, IndexOf(first, pos));
               f.Some? ==> Answers(f.value, flight[pos], first')
      modifies this`dcTime, port`wire, port.rxbufstat, port.rxbuf, iomap
      ensures Valid() && Collecting(pos + 1, full)
      ensures var f, r := Find(full, IndexOf(first, pos)), flight[pos];
              got == f.Some? &&
              iomap[..] == (if f.None? || r.cmd == Lwr then old(iomap[..])
                            else Patch(old(iomap[..]), r.piece.addr, f.value.first.data)) &&
              wkc == wkc0 + (if f.None? then 0
                             else if r.cmd == Lwr then 2 * f.value.first.wkc else f.value.first.wkc) &&
              dcTime == (if first' && f.Some? then ClockOf(f) else old(dcTime))
    {
      IndicesDiffer(first);
      hide IndexOf, Find;
      var idx := stack[pos].idx;
      var wkc2 := port.WaitInFrame(idx, full);
      wkc, got := wkc0, false;
      if wkc2 > NOFRAME {
        wkc := TakeAnswer(pos, first', wkc0, wkc2, flight[pos]);
        got := true;
      }
      port.SetBufStat(idx, Empty);
    }

    /** What the first `k` answers amount to. */
    ghost predicate Gathered(k: nat, image: seq<byte>, full: seq<Packet>, clock: bool, sum: nat, valid: bool,
                             time: seq<byte>)
      reads this`flight, this`first, this`dcTime, iomap
    {
      k <= |flight| && InImage(flight, |image|) && GoodWire(full, flight, first, clock) &&
      iomap[..] == Image(image, full, flight, first, clock, k) &&
      sum == Counter(full, flight, first, k) && valid == Any(full, first, k) &&
      dcTime == if clock && k > 0 then ClockOf(Find(full, IndexOf(first, 0))) else time
    }

    method CollectNext(k: nat, first': bool, sum0: nat, valid0: bool,
                       ghost image: seq<byte>, ghost full: seq<Packet>, ghost clock: bool, ghost time: seq<byte>)
      returns (sum: nat, valid: bool, first'': bool)
      requires Valid() && pushed == |flight| && Collecting(k, full) && k < |flight|
      requires Gathered(k, image, full, clock, sum0, valid0, time) && |image| == iomap.Length
      requires first' == (clock && k == 0) && (first' ==> dcLength == flight[0].piece.length)
      modifies this`dcTime, port`wire, port.rxbufstat, port.rxbuf, iomap
      ensures Valid() && Collecting(k + 1, full)
      ensures Gathered(k + 1, image, full, clock, sum, valid, time) && !first''
    {
      UnfoldAnswers(image, full, flight, first, clock, k);
      hide Find, IndexOf, Answers, Image, Counter, Any, Collecting, GoodWire;
      if first' {
        NoAnswersYet(image, full, flight, first, clock);
      }
      var got;
      sum, got := CollectOne(k, first', sum0, full);
      valid := valid0 || got;
      first'' := first' && !got;
    }

    /** The loop over the stack of sent frames. */
    method CollectAll(clock: bool, ghost image: seq<byte>, ghost full: seq<Packet>)
      returns (sum: nat, valid: bool)
      requires Valid() && pushed == |flight| && pulled == 0 && Collecting(0, full)
      requires Gathered(0, image, full, clock, 0, false, dcTime) && |image| == iomap.Length
      requires clock && flight != [] ==> dcLength == flight[0].piece.length
      modifies this`pulled, this`dcTime, port`wire, port.rxbufstat, port.rxbuf, iomap
      ensures Valid() && Collecting(|flight|, full)
      ensures Gathered(|flight|, image, full, clock, sum, valid, old(dcTime))
    {
      hide Collecting, Gathered;
      var first' := clock;
      sum, valid := 0, false;
      var pos := PullIndex();
      ghost var k: nat := 0;
      while pos >= 0
        invariant Valid() && Collecting(k, full)
        invariant if pos >= 0 then pos == k < |flight| && pulled == k + 1 else k == |flight| && pulled == k
        invariant Gathered(k, image, full, clock, sum, valid, old(dcTime))
        invariant first' == (clock && k == 0)
        decreases |flight| - k, pos
      {
        sum, valid, first' := CollectNext(pos, first', sum, valid, image, full, clock, old(dcTime));
        k := k + 1;
        pos := PullIndex();
      }
    }

    /** Collects the answers of the cycle. `port.wire` is what arrives for it, in any order, with any
        frames missing, repeated or foreign. */
    method ReceiveProcessData(clock: bool) returns (wkc: int)
      requires InFlight() && |flight| <= MAXBUF && pulled == 0 && InImage(flight, iomap.Length)
      requires GoodWire(port.wire, flight, first, clock)
      requires clock && flight != [] ==> dcLength == flight[0].piece.length
      modifies this`pushed, this`pulled, this`dcTime, port`wire, port.rxbufstat, port.rxbuf, iomap
      ensures Idle()
      ensures var full := old(port.wire);
              iomap[..] == Image(old(iomap[..]), full, flight, first, clock, |flight|) &&
              wkc == (if Any(full, first, |flight|) then Counter(full, flight, first, |flight|) else NOFRAME) &&
              if clock && flight != [] then
                var f := Find(full, IndexOf(first, 0));
                f.Some? && |f.value.more| == 1 && dcTime == f.value.more[0].data
              else dcTime == old(dcTime)
    {
      ghost var full := port.wire;
      ghost var before := iomap[..];
      StartsCollecting();
      if clock && flight != [] {
        UnfoldAnswers(before, full, flight, first, clock, 0);
      }
      NoAnswersYet(before, full, flight, first, clock);
      hide InFlight, Find, IndexOf, Image, Counter, Any, Collecting, GoodWire;
      var sum, valid := CollectAll(clock, before, full);
      EndsCollecting(full);
      pushed, pulled := 0, 0;
      wkc := if valid then sum else NOFRAME;
    }

    lemma EndsCollecting(full: seq<Packet>)
      requires Collecting(|flight|, full)
      ensures port.Valid() && forall i | 0 <= i < MAXBUF :: port.rxbufstat[i] == Empty
    {
      forall i | 0 <= i < MAXBUF ensures port.rxbufstat[i] == Empty {
        AllIndices(first);
        assert IndexOf(first, Distance(first, i)) == i;
      }
    }

    lemma StartsCollecting()
      requires InFlight() && |flight| <= MAXBUF
      ensures Valid() && pushed == |flight| && Collecting(0, port.wire)
    {
      IndicesDiffer(first);
    }
  }

  lemma OneMorePiece(cmd: Cmd, whole: seq<Piece>, n: nat, segs: seq<nat>, cur: nat, addr: nat, length: int, end: nat)
    requires cur < |segs| && n <= |whole|
    requires whole[n..] == OnePerSegment(segs, cur, addr, length) && Partition(whole[n..], addr, end)
    ensures n < |whole| && whole[n] == Piece(addr, segs[cur]) && addr + segs[cur] <= end
    ensures Partition(whole[n + 1..], addr + segs[cur], end)
    ensures whole[n + 1..] == if length - segs[cur] != 0 && cur + 1 < |segs|
                              then OnePerSegment(segs, cur + 1, addr + segs[cur], length - segs[cur]) else []
    ensures Requests(cmd, whole[..n + 1]) == Requests(cmd, whole[..n]) + [Request(cmd, Piece(addr, segs[cur]))]
  {
    var ps := whole[n..];
    assert ps[0] == whole[n] && ps[1..] == whole[n + 1..];
    PartitionLength(ps[1..], addr + segs[cur], end);
  }

  lemma OneMoreOutput(whole: seq<Piece>, n: nat, segs: seq<nat>, cur: nat, addr: nat, length: nat, end: nat)
    requires cur < |segs| && n <= |whole|
    requires whole[n..] == OutputPieces(segs, cur, addr, length) && Partition(whole[n..], addr, end)
    ensures var sub := if length < segs[cur] then length else segs[cur];
            n < |whole| && whole[n] == Piece(addr, sub) && addr + sub <= end &&
            Partition(whole[n + 1..], addr + sub, end) &&
            whole[n + 1..] == (if length - sub != 0 && cur + 1 < |segs|
                               then OutputPieces(segs, cur + 1, addr + sub, length - sub) else []) &&
            Requests(Lwr, whole[..n + 1]) == Requests(Lwr, whole[..n]) + [Request(Lwr, Piece(addr, sub))]
  {
    var ps := whole[n..];
    assert ps[0] == whole[n] && ps[1..] == whole[n + 1..];
    PartitionLength(ps[1..], addr + ps[0].length, end);
  }

  lemma LastIndex(first: nat, n: nat)
    requires n > 0
    ensures IndexOf(first, n + MAXBUF - 1) == IndexOf(first, n - 1)
  {
  }
}

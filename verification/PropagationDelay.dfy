/** The measured propagation delays against the true ones. */
module PropagationDelay {
  import opened ClockLines
  import opened Network
  import opened SlaveList
  import opened Topology
  import opened DistributedClock

  function PortsUp(n: Net): Ports
    requires n.Slave?
  {
    Ports(true, n.p1.Slave?, n.p2.Slave?, n.p3.Slave?)
  }

  /** What the time register of a downstream port holds after the frame has passed. */
  function Stamp(p: Place, port: nat): int
    requires p.net.Slave?
  {
    var kid := p.net.At(port);
    if kid.Slave? then kid.Back(p.net.Leaves(port, p.entry)) + p.net.clock else kid.stale
  }

  function Registers(p: Place): Latch
    requires p.net.Slave?
  {
    Latch(p.entry + p.net.clock, Stamp(p, 1), Stamp(p, 2), Stamp(p, 3))
  }

  ghost predicate IsReport(p: Place, s: SlaveInfo, l: Latch) {
    p.net.Slave? && s.hasdc == p.net.dc && s.topology == p.net.Links() && s.activeports == PortsUp(p.net) &&
    (p.net.dc ==> l == Registers(p))
  }

  /** What the slaves of a network report: whether they have a clock, their links, and the times that the
      clocks latched when the frame passed. Record 0 of both lists is not about a slave. */
  ghost predicate Reports(root: Net, list: seq<SlaveInfo>, latched: seq<Latch>) {
    root.Slave? && |list| == |latched| == 1 + root.Size() && AllReport(root, list, latched)
  }

  ghost predicate AllReport(root: Net, list: seq<SlaveInfo>, latched: seq<Latch>)
    requires root.Slave? && |list| == |latched| == 1 + root.Size()
  {
    forall i | 1 <= i < |list| :: IsReport(SlaveAt(root, i), list[i], latched[i])
  }

  /** The same with the parents filled in, and clocks in all splits. */
  ghost predicate Describes(root: Net, list: seq<SlaveInfo>, latched: seq<Latch>) {
    Reports(root, list, latched) && SplitsHaveClocks(root) && HasParents(root, list)
  }

  ghost predicate HasParents(root: Net, list: seq<SlaveInfo>)
    requires root.Slave? && |list| == 1 + root.Size()
  {
    forall i | 1 <= i < |list| :: list[i].parent == SlaveAt(root, i).parent
  }

  /** A record holds the time stamps of the slave at `p`. */
  ghost predicate Stamped(p: Place, s: SlaveInfo) {
    p.net.Slave? && s.activeports == PortsUp(p.net) && s.topology == p.net.Links() && s.entryport == 0 &&
    Latch(s.rtA, s.rtB, s.rtC, s.rtD) == Registers(p)
  }

  lemma EntersAtPortZero(p: Place, s: SlaveInfo)
    requires p.net.Slave? && s.activeports == PortsUp(p.net)
    requires Latch(s.rtA, s.rtB, s.rtC, s.rtD) == Registers(p)
    ensures EntryPort(s) == 0
  {
    assert Has(s.activeports, 0);
  }

  /** The stamp on the port before `port` is the time at which the frame was handed to `port`. */
  lemma PortBefore(p: Place, s: SlaveInfo, port: nat)
    requires Stamped(p, s) && (port == 0 || IsDownPort(port))
    requires port == 0 ==> s.topology > 1
    ensures PortTime(s, PrevPort(s, port)) == p.net.Leaves(port, p.entry) + p.net.clock
  {
  }

  /** The time that the frame spends behind `port`, of which `own` is spent in the slave at `p` and behind it. */
  lemma DelayValue(c: Place, up: SlaveInfo, port: nat, p: Place, me: SlaveInfo)
    requires Stamped(c, up) && Stamped(p, me) && me.parentport == port
    requires IsDownPort(port) && c.net.At(port).Slave?
    requires var out := c.net.Leaves(port, c.entry);
             p.net.Leaves(0, p.entry) - p.entry <= c.net.At(port).Back(out) - out
    ensures var out := c.net.Leaves(port, c.entry);
            var trip := c.net.At(port).Back(out) - out;
            var own := p.net.Leaves(0, p.entry) - p.entry;
            Delay(me, up, c.net.Offset(port) <= 1) == up.pdelay + (trip - own) / 2 + (out - c.entry)
  {
    PortBefore(c, up, port);
    if me.topology > 1 {
      PortBefore(p, me, 0);
    }
  }

  /** The formula is exact up to the skew of the line in between. */
  lemma DelayIsExact(c: Place, up: SlaveInfo, u: nat, p: Place, me: SlaveInfo, i: nat, base: int)
    requires OnLine(c, u, p, i) && p.net.dc && Stamped(c, up) && Stamped(p, me) && me.parentport == p.via
    requires up.pdelay == base + c.entry + c.skew
    ensures Delay(me, up, c.net.Offset(p.via) <= 1) == base + p.entry + p.skew
  {
    hide Net.Reach, Net.IsBare, Delay, Stamped, Net.Leaves, Net.Back, Net.At, Net.Offset;
    DelayValue(c, up, p.via, p, me);
  }

  // ----- Which ports are used up when.

  /** By the end of round `n` the line behind `port` has taken its port from the slave at `p` (number `q`). A line
      without any clock takes it only from a split. */
  predicate Settled(p: Place, q: nat, n: nat, port: nat)
    requires p.net.Slave?
  {
    var kid := p.net.At(port);
    kid.Slave? && q + p.net.Offset(port) + kid.Reach() <= n && (p.net.Links() > 2 || !kid.IsBare())
  }

  function Unused(p: Place, q: nat, n: nat): Ports
    requires p.net.Slave?
  {
    Ports(false, p.net.p1.Slave? && !Settled(p, q, n, 1), p.net.p2.Slave? && !Settled(p, q, n, 2),
          p.net.p3.Slave? && !Settled(p, q, n, 3))
  }

  /** Slave `i` at `p` takes a port from the slave with a clock above it, which is at `c`: it has a clock itself,
      or ends a line without one that hangs on a split. */
  predicate Takes(c: Place, p: Place) {
    p.net.Reach() == 0 && ((p.net.Slave? && p.net.dc) || c.net.Links() > 2)
  }

  lemma SettlesAt(root: Net, k: nat, i: nat, port: nat)
    requires root.Slave? && SplitsHaveClocks(root) && 1 <= k < i <= root.Size() && IsDownPort(port)
    requires SlaveAt(root, k).net.Slave? && SlaveAt(root, k).net.dc
    ensures var c := SlaveAt(root, k);
            var p := SlaveAt(root, i);
            Settled(c, k, i, port) <==>
              Settled(c, k, i - 1, port) || (p.up == k && p.via == port && Takes(c, p))
  {
    hide SlaveAt, Net.Links, Net.Size, Net.Offset, Net.Back, Net.Leaves, Skew;
    LineEnds(root, k, port, i);
    var p := SlaveAt(root, i);
    if p.up == k && p.via == port && p.net.Reach() == 0 {
      LineLeadsUp(root, i);
      EndIsBare(p.net);
    }
  }

  lemma EndIsBare(n: Net)
    requires n.Slave? && n.Reach() == 0
    ensures n.IsBare() <==> !n.dc
  {
  }

  /** Each slave takes at most the one port through which it is reached. */
  lemma UnusedAfter(root: Net, k: nat, i: nat)
    requires root.Slave? && SplitsHaveClocks(root) && 1 <= k < i <= root.Size()
    requires SlaveAt(root, k).net.Slave? && SlaveAt(root, k).net.dc
    ensures var c := SlaveAt(root, k);
            var p := SlaveAt(root, i);
            Unused(c, k, i) == if k == p.up && Takes(c, p) then Without(Unused(c, k, i - 1), p.via)
                               else Unused(c, k, i - 1)
  {
    SettlesAt(root, k, i, 3);
    SettlesAt(root, k, i, 1);
    SettlesAt(root, k, i, 2);
    hide SlaveAt, Net.Offset, Settled, Takes, OnLine;
    if SlaveAt(root, i).up == k {
      LineLeadsUp(root, i);
      LineHasPort(SlaveAt(root, k), k, SlaveAt(root, i), i);
    }
  }

  lemma LineHasPort(c: Place, u: nat, p: Place, i: nat)
    requires OnLine(c, u, p, i)
    ensures IsDownPort(p.via) && c.net.Slave? && c.net.dc && c.net.At(p.via).Slave? && c.net.Links() != 1
  {
  }

  /** The port the scan finds first is the right one. */
  lemma FirstUnused(c: Place, u: nat, p: Place, i: nat)
    requires OnLine(c, u, p, i) && Takes(c, p)
    ensures FirstOpen(Unused(c, u, i - 1)) == p.via
  {
    EndIsBare(p.net);
    LinesAreOrdered(c.net, p.via);
    hide Net.Reach, Net.IsBare, Net.Size, Net.Back, Net.Leaves, Skew;
  }

  lemma LinesAreOrdered(n: Net, port: nat)
    requires n.Slave? && IsDownPort(port) && n.At(port).Slave?
    ensures n.p3.Slave? && port != 3 ==> n.Offset(3) + n.p3.Reach() < n.Offset(port) && n.Links() > 2
    ensures n.p1.Slave? && port == 2 ==> n.Offset(1) + n.p1.Reach() < n.Offset(port) && n.Links() > 2
  {
    hide Net.Reach;
  }

  // ----- The invariant of the rounds.

  /** Slave `q` is finished, and slaves 1 to `n` have taken their ports from it. */
  ghost predicate Done(p: Place, s: SlaveInfo, q: nat, n: nat, base: int) {
    Stamped(p, s) &&
    s.consumedports == Unused(p, q, n) &&
    s.pdelay == base + p.entry + p.skew &&
    (p.up > 0 ==> s.parentport == p.via)
  }

  /** Slaves without a clock keep their delay and their times are cleared. */
  ghost predicate Idle(s: SlaveInfo, was: SlaveInfo) {
    Latch(s.rtA, s.rtB, s.rtC, s.rtD) == Latch(0, 0, 0, 0) && s.pdelay == was.pdelay
  }

  ghost predicate Finished(p: Place, s: SlaveInfo, was: SlaveInfo, q: nat, n: nat, base: int) {
    p.net.Slave? && if p.net.dc then Done(p, s, q, n, base) else Idle(s, was)
  }

  /** The split whose port is to be used up at the end of the line that slave `n` lies on, or 0. */
  ghost function Held(root: Net, n: nat): nat
    requires root.Slave? && n <= root.Size()
  {
    if n == 0 then 0 else
      var p := SlaveAt(root, n);
      if (p.net.Slave? && p.net.dc) || p.net.Links() == 1 then 0 else Splitter(root, n)
  }

  /** The slave with a clock above slave `n` if it is a split, or 0. */
  ghost function Splitter(root: Net, n: nat): (k: nat)
    requires root.Slave? && 1 <= n <= root.Size()
  {
    var u := SlaveAt(root, n).up;
    if 1 <= u <= root.Size() && SlaveAt(root, u).net.Links() > 2 then u else 0
  }

  /** The delay that the slave with a clock nearest to the master has from the start fits `base`. */
  ghost predicate Based(root: Net, list: seq<SlaveInfo>, base: int)
    requires root.Slave? && |list| == 1 + root.Size()
  {
    forall i | 1 <= i < |list| ::
      var p := SlaveAt(root, i);
      p.net.Slave? && p.net.dc && p.up == 0 ==> list[i].pdelay == base + p.entry + p.skew
  }

  ghost predicate Progress(root: Net, list: seq<SlaveInfo>, st: State, n: nat, base: int)
    requires root.Slave? && |list| == 1 + root.Size()
  {
    SameNetwork(list, st.list) && n <= root.Size() && st.parenthold == Held(root, n) &&
    (forall i | 1 <= i < |list| && i <= n ::
       Finished(SlaveAt(root, i), st.list[i], list[i], i, n, base)) &&
    (forall i | 1 <= i < |list| && i > n :: st.list[i].pdelay == list[i].pdelay)
  }

  /** What holds for the table in the round for a slave `i` with a clock when its port is about to be looked for. */
  ghost predicate Ready(root: Net, list: seq<SlaveInfo>, t: seq<SlaveInfo>, i: nat, base: int)
    requires root.Slave? && |list| == 1 + root.Size() && 1 <= i < |list|
  {
    SameNetwork(list, t) &&
    Stamped(SlaveAt(root, i), t[i]) && t[i].pdelay == list[i].pdelay &&
    t[i].consumedports == Unused(SlaveAt(root, i), i, i) &&
    (forall k | 1 <= k < i :: Finished(SlaveAt(root, k), t[k], list[k], k, i - 1, base)) &&
    (forall k | i < k < |list| :: t[k].pdelay == list[k].pdelay)
  }

  lemma NothingSettled(p: Place, q: nat)
    requires p.net.Slave?
    ensures Unused(p, q, q) == Without(PortsUp(p.net), 0)
  {
    hide Net.Reach, Net.IsBare, Net.Links;
  }

  /** Linking touches nothing of what is known about a slave. */
  lemma StaysFinished(p: Place, s: SlaveInfo, r: SlaveInfo, was: SlaveInfo, q: nat, n: nat, base: int)
    requires Finished(p, s, was, q, n, base)
    requires r == s.(hasdc := r.hasdc, dcNext := r.dcNext, dcPrevious := r.dcPrevious)
    ensures Finished(p, r, was, q, n, base)
  {
    hide Registers, PortsUp, Unused;
  }

  lemma EnlistsSlave(root: Net, list: seq<SlaveInfo>, latched: seq<Latch>, st: State, i: nat, base: int)
    requires Describes(root, list, latched) && Sane(st) && 1 <= i < |list| && list[i].hasdc
    requires Progress(root, list, st, i - 1, base)
    ensures Ready(root, list, Enlist(st, i, latched[i]), i, base)
  {
    hide Link, SlaveAt, Unused, Held, Registers, Finished, Net.Links, PortsUp, EntryPort;
    var p := SlaveAt(root, i);
    var l := latched[i];
    assert IsReport(p, list[i], l);
    var open := st.list[i := st.list[i].(consumedports := st.list[i].activeports)];
    var linked := Link(open, st.prevDc, i);
    var s := linked[i].(rtA := l.time0, rtB := l.time1, rtC := l.time2, rtD := l.time3);
    assert SamePlace(list[i], s);
    NothingSettled(p, i);
    EntersAtPortZero(p, s);
    var t := Enlist(st, i, l);
    forall k | 1 <= k < i ensures Finished(SlaveAt(root, k), t[k], list[k], k, i - 1, base) {
      StaysFinished(SlaveAt(root, k), st.list[k], t[k], list[k], k, i - 1, base);
    }
  }

  /** The nearest clock above a slave and the line through which the slave hangs on it, as the program finds them. */
  lemma {:induction false} ClockAbove(root: Net, list: seq<SlaveInfo>, latched: seq<Latch>, t: seq<SlaveInfo>, i: nat)
    requires Describes(root, list, latched) && SameNetwork(list, t) && Ordered(t) && 1 <= i < |list|
    ensures DcParent(t, i) == SlaveAt(root, i).up
    ensures var p := SlaveAt(root, i);
            p.up > 0 ==> p.up <= root.Size() && SlaveAt(root, p.up).net.Slave? &&
                         DcChild(t, i) == p.up + SlaveAt(root, p.up).net.Offset(p.via)
  {
    hide SlaveAt, Net.Offset, Net.Size, Skew, Net.Leaves, Net.Back, Net.Links, PortsUp, Registers;
    assert SamePlace(list[i], t[i]) && t[i].parent == SlaveAt(root, i).parent;
    if i > 1 {
      var q, port := ParentOfSlave(root, i);
      assert IsReport(SlaveAt(root, q), list[q], latched[q]);
      if !t[q].hasdc {
        ClockAbove(root, list, latched, t, q);
      }
    }
  }

  lemma AttachBelow(t: seq<SlaveInfo>, i: nat, u: nat, port: nat, first: bool)
    requires Ordered(t) && 1 <= i < |t| && u == DcParent(t, i) >= 1 && (first <==> DcChild(t, i) - u <= 1)
    requires t[u].topology != 1 && port == FirstOpen(t[u].consumedports)
    ensures var me := t[i].(parentport := port);
            Attach(t, i) == t[u := Consume(t[u])][i := me.(pdelay := Delay(me, Consume(t[u]), first))]
  {
  }

  /** The round gives slave `i` its port and its delay, and takes the port from the slave above. */
  lemma AttachesSlave(root: Net, list: seq<SlaveInfo>, latched: seq<Latch>, t: seq<SlaveInfo>, i: nat, base: int)
    requires Describes(root, list, latched) && Ordered(t) && 1 < i < |list| && list[i].hasdc
    requires SlaveAt(root, i).up > 0 && Ready(root, list, t, i, base)
    ensures var p := SlaveAt(root, i);
            1 <= p.up < i &&
            FirstOpen(t[p.up].consumedports) == p.via &&
            Attach(t, i) == t[p.up := Consume(t[p.up])]
                             [i := t[i].(parentport := p.via, pdelay := base + p.entry + p.skew)]
  {
    hide Places, SlaveAt, Attach, Unused, Delay, Registers, Net.Reach, Net.IsBare, Skew, Net.Leaves, Net.Back;
    var p := SlaveAt(root, i);
    assert IsReport(p, list[i], latched[i]);
    LineLeadsUp(root, i);
    var c := SlaveAt(root, p.up);
    ClockAbove(root, list, latched, t, i);
    ClockReaches(p.net);
    FirstUnused(c, p.up, p, i);
    LineHasPort(c, p.up, p, i);
    assert Finished(c, t[p.up], list[p.up], p.up, i - 1, base);
    AttachBelow(t, i, p.up, p.via, c.net.Offset(p.via) <= 1);
    DelayIsExact(c, Consume(t[p.up]), p.up, p, t[i].(parentport := p.via), i, base);
  }

  lemma ClockReaches(n: Net)
    requires n.Slave? && n.dc
    ensures n.Reach() == 0
  {
  }

  lemma RoundIsDone(root: Net, list: seq<SlaveInfo>, latched: seq<Latch>, t: seq<SlaveInfo>, i: nat, k: nat, base: int)
    requires Describes(root, list, latched) && Ordered(t) && 1 <= k <= i < |list| && list[i].hasdc
    requires Ready(root, list, t, i, base) && Based(root, list, base)
    ensures Finished(SlaveAt(root, k), Attach(t, i)[k], list[k], k, i, base)
  {
    hide Attach, SlaveAt, Places, Without, FirstOpen, Registers, Unused, Net.Links, Net.Reach, PortsUp;
    var p := SlaveAt(root, i);
    assert IsReport(p, list[i], latched[i]);
    ClockReaches(p.net);
    ClockAbove(root, list, latched, t, i);
    if p.up > 0 {
      AttachesSlave(root, list, latched, t, i, base);
    } else {
      AttachesNothing(t, i);
    }
    if k < i && SlaveAt(root, k).net.Slave? && SlaveAt(root, k).net.dc {
      UnusedAfter(root, k, i);
    }
  }

  lemma AttachesNothing(t: seq<SlaveInfo>, i: nat)
    requires Ordered(t) && 1 <= i < |t| && DcParent(t, i) == 0
    ensures Attach(t, i) == t
  {
  }

  lemma DescribedIsOrdered(root: Net, list: seq<SlaveInfo>, latched: seq<Latch>)
    requires Describes(root, list, latched)
    ensures Ordered(list)
  {
    hide SlaveAt;
    forall i | 1 <= i < |list| ensures list[i].parent < i {
      if i > 1 {
        var _, _ := ParentOfSlave(root, i);
      } else {
        FirstHasNoParent(root);
      }
    }
  }

  lemma FirstHasNoParent(root: Net)
    requires root.Slave?
    ensures SlaveAt(root, 1).parent == 0 && SlaveAt(root, 1).up == 0
  {
  }

  // ----- Slaves without a clock.

  lemma EndHasOneLink(n: Net)
    requires n.Slave? && !n.dc
    ensures n.Reach() == 0 <==> n.Links() == 1
  {
  }

  /** The split that the program holds while it passes a line without clocks is the one above the line. */
  lemma HoldsSplitter(root: Net, list: seq<SlaveInfo>, latched: seq<Latch>, i: nat)
    requires Describes(root, list, latched) && 1 <= i < |list| && !list[i].hasdc
    ensures var parent := list[i].parent;
            parent < |list| &&
            (if parent > 0 && list[parent].topology > 2 then parent else Held(root, i - 1)) == Splitter(root, i)
  {
    hide SlaveAt, Net.Offset, Net.Size, Skew, Net.Leaves, Net.Back, PortsUp, Registers;
    if i == 1 {
      FirstHasNoParent(root);
    } else {
      var q, port := ParentOfSlave(root, i);
      var p := SlaveAt(root, q);
      assert IsReport(p, list[q], latched[q]);
      if !p.net.dc {
        OnlyChild(p.net, port);
      } else if Held(root, i - 1) != 0 {
        NextOnLine(root, i - 1);
      }
    }
  }

  /** What a round for a slave without a clock does to the table. */
  lemma SkipShape(st: State, i: nat, hold: nat)
    requires Sane(st) && 1 <= i < |st.list| && !st.list[i].hasdc
    requires var parent := st.list[i].parent;
             hold == (if parent > 0 && st.list[parent].topology > 2 then parent else st.parenthold) && hold < i
    ensures var r := Step(st, i, Latch(0, 0, 0, 0));
            Idle(r.list[i], st.list[i]) &&
            r.parenthold == (if st.list[i].topology == 1 then 0 else hold) &&
            forall k | 0 <= k < |st.list| && k != i ::
              r.list[k] == if k == hold > 0 && st.list[i].topology == 1 then Consume(st.list[k]) else st.list[k]
  {
    hide Consume;
  }

  lemma LatchIsNotRead(st: State, i: nat, l: Latch)
    requires Sane(st) && 1 <= i < |st.list| && !st.list[i].hasdc
    ensures Step(st, i, l) == Step(st, i, Latch(0, 0, 0, 0))
  {
    hide Skip;
  }

  lemma SkipKeepsPorts(root: Net, list: seq<SlaveInfo>, latched: seq<Latch>, i: nat, k: nat, s: SlaveInfo, r: SlaveInfo,
                       base: int)
    requires Describes(root, list, latched) && 1 <= k < i < |list| && !list[i].hasdc
    requires Finished(SlaveAt(root, k), s, list[k], k, i - 1, base)
    requires r == if k == Splitter(root, i) && list[i].topology == 1 then Consume(s) else s
    ensures Finished(SlaveAt(root, k), r, list[k], k, i, base)
  {
    hide SlaveAt, Unused, Without, FirstOpen, Registers, PortsUp, Net.Links, Net.Reach, OnLine, SplitsHaveClocks;
    var p := SlaveAt(root, i);
    var c := SlaveAt(root, k);
    assert IsReport(p, list[i], latched[i]);
    EndHasOneLink(p.net);
    if p.up == k {
      LineLeadsUp(root, i);
      LineHasPort(c, k, p, i);
      if Takes(c, p) {
        FirstUnused(c, k, p, i);
      }
    }
    if c.net.dc {
      UnusedAfter(root, k, i);
    }
  }

  lemma SkipMakesProgress(root: Net, list: seq<SlaveInfo>, latched: seq<Latch>, st: State, i: nat, base: int)
    requires Describes(root, list, latched) && Ordered(list) && Sane(st) && 1 <= i < |list| && !list[i].hasdc
    requires Progress(root, list, st, i - 1, base)
    ensures Progress(root, list, Step(st, i, latched[i]), i, base)
  {
    hide SlaveAt, Skip, Done, Consume, Idle, Net.Links, Splitter, Held;
    LatchIsNotRead(st, i, latched[i]);
    HoldsSplitter(root, list, latched, i);
    SplitterIsAbove(root, i);
    var hold := Splitter(root, i);
    var parent := list[i].parent;
    assert SamePlace(list[parent], st.list[parent]) && SamePlace(list[i], st.list[i]);
    SkipShape(st, i, hold);
    var r := Step(st, i, latched[i]);
    assert IsReport(SlaveAt(root, i), list[i], latched[i]);
    HeldAfter(root, i);
    forall k | 1 <= k <= i ensures Finished(SlaveAt(root, k), r.list[k], list[k], k, i, base) {
      if k < i {
        SkipKeepsPorts(root, list, latched, i, k, st.list[k], r.list[k], base);
      } else {
        StaysIdle(r.list[i], st.list[i], list[i]);
      }
    }
  }

  lemma StaysIdle(r: SlaveInfo, s: SlaveInfo, was: SlaveInfo)
    requires Idle(r, s) && s.pdelay == was.pdelay
    ensures Idle(r, was)
  {
  }

  lemma SplitterIsAbove(root: Net, i: nat)
    requires root.Slave? && SplitsHaveClocks(root) && 1 <= i <= root.Size()
    ensures Splitter(root, i) < i
  {
    hide SlaveAt, OnLine;
    if SlaveAt(root, i).up > 0 {
      LineLeadsUp(root, i);
    }
  }

  lemma HeldAfter(root: Net, i: nat)
    requires root.Slave? && 1 <= i <= root.Size()
    requires var n := SlaveAt(root, i).net; n.Slave? && !n.dc
    ensures Held(root, i) == if SlaveAt(root, i).net.Links() == 1 then 0 else Splitter(root, i)
  {
    hide SlaveAt;
  }

  // ----- The whole measurement.

  lemma AttachMakesProgress(root: Net, list: seq<SlaveInfo>, latched: seq<Latch>, st: State, i: nat, base: int)
    requires Describes(root, list, latched) && Ordered(list) && Sane(st) && 1 <= i < |list| && list[i].hasdc
    requires Progress(root, list, st, i - 1, base) && Based(root, list, base)
    ensures Progress(root, list, Step(st, i, latched[i]), i, base)
  {
    hide SlaveAt, Attach, Enlist, Finished, Net.Links;
    EnlistsSlave(root, list, latched, st, i, base);
    assert IsReport(SlaveAt(root, i), list[i], latched[i]);
    var t := Enlist(st, i, latched[i]);
    var r := Attach(t, i);
    AttachTouches(t, i);
    forall k | 1 <= k <= i ensures Finished(SlaveAt(root, k), r[k], list[k], k, i, base) {
      RoundIsDone(root, list, latched, t, i, k, base);
    }
    assert forall k | i < k < |list| :: r[k].pdelay == t[k].pdelay;
  }

  lemma AttachTouches(t: seq<SlaveInfo>, i: nat)
    requires Ordered(t) && 1 <= i < |t|
    ensures forall k | i < k < |t| :: Attach(t, i)[k] == t[k]
  {
    hide Delay;
  }

  lemma {:induction false} RunMakesProgress(root: Net, list: seq<SlaveInfo>, latched: seq<Latch>, n: nat, base: int)
    requires Describes(root, list, latched) && Ordered(list) && n < |list| && Based(root, list, base)
    ensures Progress(root, list, Run(list, latched, n), n, base)
  {
    hide Progress, Step, AllReport, HasParents, SplitsHaveClocks, Based;
    if n == 0 {
      StartMakesProgress(root, list, latched, base);
    } else {
      RunMakesProgress(root, list, latched, n - 1, base);
      if list[n].hasdc {
        AttachMakesProgress(root, list, latched, Run(list, latched, n - 1), n, base);
      } else {
        SkipMakesProgress(root, list, latched, Run(list, latched, n - 1), n, base);
      }
    }
  }

  lemma StartMakesProgress(root: Net, list: seq<SlaveInfo>, latched: seq<Latch>, base: int)
    requires Describes(root, list, latched) && Ordered(list)
    ensures Progress(root, list, Run(list, latched, 0), 0, base)
  {
  }

  /** `h` is the first slave with a clock. */
  ghost predicate IsHome(list: seq<SlaveInfo>, h: nat) {
    1 <= h < |list| && list[h].hasdc && forall k | 1 <= k < h :: !list[k].hasdc
  }

  lemma ClockIsAbove(root: Net, list: seq<SlaveInfo>, latched: seq<Latch>, i: nat)
    requires Describes(root, list, latched) && 1 <= i < |list| && SlaveAt(root, i).up > 0
    ensures SlaveAt(root, i).up < i && list[SlaveAt(root, i).up].hasdc
    ensures OnLine(SlaveAt(root, SlaveAt(root, i).up), SlaveAt(root, i).up, SlaveAt(root, i), i)
  {
    hide SlaveAt, OnLine, SplitsHaveClocks, Net.Links, PortsUp, Registers, Net.Size;
    LineLeadsUp(root, i);
    var u := SlaveAt(root, i).up;
    LineHasPort(SlaveAt(root, u), u, SlaveAt(root, i), i);
    assert IsReport(SlaveAt(root, u), list[u], latched[u]);
  }

  lemma HomeIsTop(root: Net, list: seq<SlaveInfo>, latched: seq<Latch>, h: nat)
    requires Describes(root, list, latched) && IsHome(list, h)
    ensures SlaveAt(root, h).up == 0 && SlaveAt(root, h).skew == 0
    ensures forall i | 1 <= i < |list| && list[i].hasdc && i != h :: SlaveAt(root, i).up > 0
  {
    hide SlaveAt, OnLine, SplitsHaveClocks, Net.Links, PortsUp, Registers, Net.Size;
    if SlaveAt(root, h).up > 0 {
      ClockIsAbove(root, list, latched, h);
    }
    NoneBefore(root, h);
    assert IsReport(SlaveAt(root, h), list[h], latched[h]);
    forall i | 1 <= i < |list| && list[i].hasdc && i != h ensures SlaveAt(root, i).up > 0 {
      if SlaveAt(root, i).up == 0 {
        NoneBefore(root, i);
        assert h < i;
      }
    }
  }

  lemma HomeIsBase(root: Net, list: seq<SlaveInfo>, latched: seq<Latch>, h: nat)
    requires Describes(root, list, latched) && IsHome(list, h)
    ensures Based(root, list, list[h].pdelay - SlaveAt(root, h).entry)
  {
    HomeIsTop(root, list, latched, h);
    hide SlaveAt, SplitsHaveClocks, Net.Links, PortsUp, Registers, Net.Size;
    forall i | 1 <= i < |list| ensures IsReport(SlaveAt(root, i), list[i], latched[i]) {
    }
  }

  /** The master finds for every slave with a clock the port through which it hangs on the nearest slave with a
      clock above it, and measures the time from the frame's entry into the first slave with a clock, `h`, to its
      entry into that slave, plus half of what the ways back are slower than the ways there. Slaves without a
      clock get no times. */
  lemma MeasuredDelay(root: Net, list: seq<SlaveInfo>, latched: seq<Latch>, h: nat, i: nat)
    requires Describes(root, list, latched) && 1 <= i < |list| && IsHome(list, h)
    ensures Ordered(list)
    ensures var s := Run(list, latched, |list| - 1).list[i];
            var p := SlaveAt(root, i);
            if list[i].hasdc
            then s.pdelay == list[h].pdelay + (p.entry - SlaveAt(root, h).entry) + p.skew &&
                 s.entryport == 0 && (i != h ==> s.parentport == p.via)
            else Idle(s, list[i])
  {
    hide Run, SlaveAt, Idle, AllReport, HasParents, SplitsHaveClocks, Based, Unused, PortsUp, Registers;
    DescribedIsOrdered(root, list, latched);
    HomeIsBase(root, list, latched, h);
    var base := list[h].pdelay - SlaveAt(root, h).entry;
    RunMakesProgress(root, list, latched, |list| - 1, base);
    HomeIsTop(root, list, latched, h);
    ReportOf(root, list, latched, i);
    assert Finished(SlaveAt(root, i), Run(list, latched, |list| - 1).list[i], list[i], i, |list| - 1, base);
  }

  lemma ReportOf(root: Net, list: seq<SlaveInfo>, latched: seq<Latch>, i: nat)
    requires Reports(root, list, latched) && 1 <= i < |list|
    ensures IsReport(SlaveAt(root, i), list[i], latched[i])
  {
  }

  /** The way from the nearest clock above is symmetric: half of the round trip, rounded down, is the way there. */
  predicate IsSymmetric(p: Place) {
    p.back == p.there || p.back == p.there + 1
  }

  ghost predicate AllExact(root: Net, list: seq<SlaveInfo>, delays: seq<SlaveInfo>, h: nat)
    requires root.Slave? && |list| == |delays| == 1 + root.Size() && 1 <= h < |list|
  {
    forall i | 1 <= i < |list| && list[i].hasdc ::
      delays[i].pdelay - list[h].pdelay == SlaveAt(root, i).entry - SlaveAt(root, h).entry
  }

  ghost predicate AllSymmetric(root: Net, list: seq<SlaveInfo>, h: nat)
    requires root.Slave? && |list| == 1 + root.Size()
  {
    forall i | 1 <= i < |list| && list[i].hasdc && i != h :: IsSymmetric(SlaveAt(root, i))
  }

  ghost predicate NoSkew(root: Net, list: seq<SlaveInfo>, i: nat)
    requires root.Slave? && |list| == 1 + root.Size() && 1 <= i < |list|
  {
    list[i].hasdc ==> SlaveAt(root, i).skew == 0
  }

  /** The skew of a slave with a clock against that of the one above it. */
  lemma SkewOfLine(root: Net, list: seq<SlaveInfo>, latched: seq<Latch>, h: nat, i: nat)
    requires Describes(root, list, latched) && IsHome(list, h) && 1 <= i < |list| && list[i].hasdc && i != h
    ensures var p := SlaveAt(root, i);
            1 <= p.up < i && list[p.up].hasdc &&
            p.skew == SlaveAt(root, p.up).skew + Skew(p.there, p.back)
  {
    HomeIsTop(root, list, latched, h);
    hide SlaveAt, OnLine, SplitsHaveClocks, Net.Links, PortsUp, Registers, Net.Size, Skew;
    var p := SlaveAt(root, i);
    ClockIsAbove(root, list, latched, i);
    ReportOf(root, list, latched, i);
    LineHasSkew(SlaveAt(root, p.up), p.up, p, i);
  }

  lemma LineHasSkew(c: Place, u: nat, p: Place, i: nat)
    requires OnLine(c, u, p, i) && p.net.dc
    ensures p.skew == c.skew + Skew(p.there, p.back)
  {
    hide Net.Reach, Net.Back, Net.Leaves, Net.Links;
  }

  lemma {:induction false} NoSkewBelow(root: Net, list: seq<SlaveInfo>, latched: seq<Latch>, h: nat, i: nat)
    requires Describes(root, list, latched) && IsHome(list, h) && 1 <= i < |list| && list[i].hasdc
    requires AllSymmetric(root, list, h)
    ensures SlaveAt(root, i).skew == 0
  {
    hide SlaveAt, AllReport, HasParents, SplitsHaveClocks, IsReport;
    if i == h {
      HomeIsTop(root, list, latched, h);
    } else {
      SkewOfLine(root, list, latched, h, i);
      NoSkewBelow(root, list, latched, h, SlaveAt(root, i).up);
      assert IsSymmetric(SlaveAt(root, i));
    }
  }

  lemma ExactMeansSymmetric(root: Net, list: seq<SlaveInfo>, latched: seq<Latch>, h: nat)
    requires Describes(root, list, latched) && IsHome(list, h)
    requires forall i | 1 <= i < |list| :: NoSkew(root, list, i)
    ensures AllSymmetric(root, list, h)
  {
    hide SlaveAt, AllReport, HasParents, SplitsHaveClocks, IsReport;
    forall i | 1 <= i < |list| && list[i].hasdc && i != h ensures IsSymmetric(SlaveAt(root, i)) {
      SkewOfLine(root, list, latched, h, i);
      assert NoSkew(root, list, i) && NoSkew(root, list, SlaveAt(root, i).up);
    }
  }

  /** All measured delays are exact if and only if the ways between neighbouring clocks are symmetric. */
  lemma {:induction false} ExactIffSymmetric(root: Net, list: seq<SlaveInfo>, latched: seq<Latch>, h: nat)
    requires Describes(root, list, latched) && IsHome(list, h)
    ensures Ordered(list)
    ensures AllExact(root, list, Run(list, latched, |list| - 1).list, h) <==> AllSymmetric(root, list, h)
  {
    DescribedIsOrdered(root, list, latched);
    hide Run, SlaveAt, IsSymmetric, AllReport, HasParents, SplitsHaveClocks, IsReport, Idle;
    var r := Run(list, latched, |list| - 1).list;
    forall i | 1 <= i < |list| && list[i].hasdc
      ensures r[i].pdelay == list[h].pdelay + (SlaveAt(root, i).entry - SlaveAt(root, h).entry) + SlaveAt(root, i).skew
    {
      MeasuredDelay(root, list, latched, h, i);
    }
    if AllSymmetric(root, list, h) {
      forall i | 1 <= i < |list| && list[i].hasdc ensures SlaveAt(root, i).skew == 0 {
        NoSkewBelow(root, list, latched, h, i);
      }
    }
    if AllExact(root, list, r, h) {
      forall i | 1 <= i < |list| ensures NoSkew(root, list, i) {
      }
      ExactMeansSymmetric(root, list, latched, h);
    }
  }

  /** Enumeration and measurement together: from nothing but link counts, port maps and latched
      times the master gets every slave's parent, and for every slave with a clock its port and its delay
      against the first of them, to which record 0 leads. */
  method MeasureNetwork(ghost root: Net, list: array<SlaveInfo>, latched: seq<Latch>) returns (hasdc: bool)
    requires Reports(root, list[..], latched) && SplitsHaveClocks(root)
    modifies list
    ensures list.Length == 1 + root.Size()
    ensures hasdc <==> AnyClock(old(list[..]), |old(list[..])| - 1)
    ensures Chained(list[..], list.Length - 1)
    ensures forall i | 1 <= i < list.Length ::
              list[i].parent == SlaveAt(root, i).parent && list[i].hasdc == old(list[i]).hasdc
    ensures hasdc ==>
              var h := list[0].dcNext;
              IsHome(old(list[..]), h) &&
              forall i | 1 <= i < list.Length ::
                var p := SlaveAt(root, i);
                if old(list[i]).hasdc
                then list[i].pdelay == old(list[..])[h].pdelay + (p.entry - SlaveAt(root, h).entry) + p.skew &&
                     list[i].entryport == 0 && (i != h ==> list[i].parentport == p.via)
                else Idle(list[i], old(list[i]))
  {
    hide SlaveAt, Run, IsNearestOpen, Chained, AnyClock, Idle, SplitsHaveClocks, AllReport;
    ghost var before := list[..];
    FindParents(list);
    ghost var found := list[..];
    ParentsAreTrue(root, before, found, latched);
    DescribedIsOrdered(root, found, latched);
    hasdc := ConfigDc(list, latched);
    SameAny(before, list[..], list.Length - 1);
    if hasdc {
      ghost var h := list[..][0].dcNext;
      FirstIsThere(list[..], list.Length - 1);
      forall i | 1 <= i < list.Length
        ensures var p := SlaveAt(root, i);
                if before[i].hasdc
                then list[i].pdelay == before[h].pdelay + (p.entry - SlaveAt(root, h).entry) + p.skew &&
                     list[i].entryport == 0 && (i != h ==> list[i].parentport == p.via)
                else Idle(list[i], before[i])
      {
        MeasuredDelay(root, found, latched, h, i);
        if !before[i].hasdc {
          StaysIdle(list[i], found[i], before[i]);
        }
      }
    }
  }

  lemma ParentsAreTrue(root: Net, before: seq<SlaveInfo>, found: seq<SlaveInfo>, latched: seq<Latch>)
    requires Reports(root, before, latched) && SplitsHaveClocks(root) && |found| == |before|
    requires found[1] == before[1].(parent := 0)
    requires forall i | 1 < i < |found| ::
               found[i] == before[i].(parent := found[i].parent) &&
               IsNearestOpen(Topologies(before), found[i].parent, i)
    ensures Describes(root, found, latched)
  {
    hide SlaveAt, IsNearestOpen, SplitsHaveClocks, Net.Links, Registers, PortsUp, Net.Size;
    FirstHasNoParent(root);
    forall i | 1 <= i < |found|
      ensures IsReport(SlaveAt(root, i), found[i], latched[i]) && found[i].parent == SlaveAt(root, i).parent
    {
      ReportOf(root, before, latched, i);
      if i > 1 {
        LinksAreTopologies(root, before, latched);
        ScanFindsTrueParent(root, Topologies(before), i, found[i].parent);
      }
    }
  }

  lemma LinksAreTopologies(root: Net, list: seq<SlaveInfo>, latched: seq<Latch>)
    requires Reports(root, list, latched)
    ensures forall i | 1 <= i < |list| :: Topologies(list)[i] == SlaveAt(root, i).net.Links()
  {
    hide SlaveAt, Net.Links;
    forall i | 1 <= i < |list| ensures Topologies(list)[i] == SlaveAt(root, i).net.Links() {
      ReportOf(root, list, latched, i);
    }
  }
}

/** Propagation delay measurement. The master latches the receive times of all ports with one
    broadcast, reads them back, and computes for every slave with a clock how long the frame needs
    from the first slave to that slave. */
module DistributedClock {
  import opened SlaveList

  /** The receive time registers of ports 0, 1, 2 and 3. */
  datatype Latch = Latch(time0: int, time1: int, time2: int, time3: int)

  function Without(ports: Ports, port: nat): Ports {
    if port == 0 then ports.(m0 := false)
    else if port == 1 then ports.(m1 := false)
    else if port == 2 then ports.(m2 := false)
    else ports.(m3 := false)
  }

  /** Search order 3, 1, 2, 0. */
  function FirstOpen(ports: Ports): nat {
    if ports.m3 then 3 else if ports.m1 then 1 else if ports.m2 then 2 else 0
  }

  function PortTime(s: SlaveInfo, port: nat): int {
    if port == 0 then s.rtA else if port == 1 then s.rtB else if port == 2 then s.rtC
    else if port == 3 then s.rtD else 0
  }

  /** The active port that a frame uses before `port`, in the cyclic order 0, 3, 1, 2. */
  function PrevPort(s: SlaveInfo, port: nat): nat {
    var up := s.activeports;
    if port == 0 then (if up.m2 then 2 else if up.m1 then 1 else if up.m3 then 3 else port)
    else if port == 1 then (if up.m3 then 3 else if up.m0 then 0 else if up.m2 then 2 else port)
    else if port == 2 then (if up.m1 then 1 else if up.m3 then 3 else if up.m0 then 0 else port)
    else if port == 3 then (if up.m0 then 0 else if up.m2 then 2 else if up.m1 then 1 else port)
    else port
  }

  predicate Has(ports: Ports, port: nat) {
    if port == 0 then ports.m0 else if port == 1 then ports.m1
    else if port == 2 then ports.m2 else port == 3 && ports.m3
  }

  /** Position in the search order 0, 3, 1, 2. */
  function Rank(port: nat): nat {
    if port == 0 then 0 else if port == 3 then 1 else if port == 1 then 2 else 3
  }

  /** Active port with the lowest time stamp, the first one among equals. */
  function EntryPort(s: SlaveInfo): (port: nat)
    ensures s.activeports != Ports(false, false, false, false) ==> Has(s.activeports, port)
    ensures forall q | Has(s.activeports, q) ::
              PortTime(s, port) <= PortTime(s, q) &&
              (PortTime(s, port) == PortTime(s, q) ==> Rank(port) <= Rank(q))
  {
    var up := s.activeports;
    var first := if up.m0 then 0 else if up.m3 then 3 else if up.m1 then 1 else 2;
    var a := if up.m3 && PortTime(s, 3) < PortTime(s, first) then 3 else first;
    var b := if up.m1 && PortTime(s, 1) < PortTime(s, a) then 1 else a;
    if up.m2 && PortTime(s, 2) < PortTime(s, b) then 2 else b
  }

  /** Division as in C: the quotient is cut off towards zero. */
  function Half(x: int): int {
    if x >= 0 then x / 2 else 0 - ((0 - x) / 2)
  }

  /** Delay of slave `me` against the first slave, from the record `up` of the slave above it.
      `first` says that `me` comes right after it in the list. */
  function Delay(me: SlaveInfo, up: SlaveInfo, first: bool): int {
    var before := PrevPort(up, me.parentport);
    var dt3 := PortTime(up, me.parentport) - PortTime(up, before);
    var dt1 := if me.topology > 1
               then PortTime(me, PrevPort(me, me.entryport)) - PortTime(me, me.entryport) else 0;
    var dt1' := if dt1 > dt3 then 0 - dt1 else dt1;
    var dt2 := if first then 0 else PortTime(up, before) - PortTime(up, up.entryport);
    var dt2' := if dt2 < 0 then 0 - dt2 else dt2;
    Half(dt3 - dt1') + dt2' + up.pdelay
  }

  /** How many steps `port` comes before `to` in the cyclic order 0, 3, 1, 2. */
  function StepsBefore(port: nat, to: nat): nat {
    (Rank(to) + 4 - Rank(port)) % 4
  }

  /** On a slave with any set of active ports the previous one is the nearest before, whatever the frame's
      entry port is. */
  lemma PrevIsNearest(s: SlaveInfo, port: nat, other: nat)
    requires port < 4 && other < 4 && other != port && Has(s.activeports, other)
    ensures var p := PrevPort(s, port);
            Has(s.activeports, p) && p != port && p < 4 && StepsBefore(p, port) <= StepsBefore(other, port)
  {
  }

  lemma HalfIsCutOff(x: int)
    ensures x >= 0 ==> 2 * Half(x) <= x < 2 * Half(x) + 2
    ensures x <= 0 ==> 2 * Half(x) - 2 < x <= 2 * Half(x)
  {
  }

  /** The delay for any times that were latched. `trip` is the time between the ports of the slave above, `own` the
      time spent behind `me`, `late` the time before the frame came to the port. Times that cannot be are taken
      with the other sign. */
  lemma DelayOfAnyTimes(me: SlaveInfo, up: SlaveInfo, first: bool, trip: int, own: int, late: int)
    requires trip == PortTime(up, me.parentport) - PortTime(up, PrevPort(up, me.parentport))
    requires own == PortTime(me, PrevPort(me, me.entryport)) - PortTime(me, me.entryport)
    requires late == PortTime(up, PrevPort(up, me.parentport)) - PortTime(up, up.entryport)
    ensures var d := Delay(me, up, first) - up.pdelay;
            var way := if first then d else if late < 0 then d + late else d - late;
            (me.topology <= 1 && trip >= 0 ==> way == trip / 2) &&
            (me.topology > 1 && own <= trip ==> way == (trip - own) / 2) &&
            (me.topology > 1 && own > trip ==> way == Half(trip + own))
  {
  }

  /** Parents come before their children in the list, as the enumeration leaves it. */
  predicate Ordered(list: seq<SlaveInfo>) {
    forall i | 1 <= i < |list| :: list[i].parent < i
  }

  /** Nothing that was found out about the network before has changed. */
  ghost predicate SameNetwork(a: seq<SlaveInfo>, b: seq<SlaveInfo>) {
    |a| == |b| && forall k | 0 <= k < |a| :: SamePlace(a[k], b[k]) && (k > 0 ==> b[k].hasdc == a[k].hasdc)
  }

  ghost predicate SamePlace(a: SlaveInfo, b: SlaveInfo) {
    b.parent == a.parent && b.topology == a.topology && b.activeports == a.activeports
  }

  // ----- The procedure as a function of the slave table.

  /** The table together with the two variables that live across slaves. */
  datatype State = State(list: seq<SlaveInfo>, parenthold: nat, prevDc: nat)

  ghost predicate Sane(st: State) {
    Ordered(st.list) && st.parenthold < |st.list| && st.prevDc < |st.list|
  }

  /** The nearest slave with a clock on the way to the master, or 0. */
  function DcParent(list: seq<SlaveInfo>, i: nat): (p: nat)
    requires Ordered(list) && 1 <= i < |list|
    ensures p < i
  {
    var parent := list[i].parent;
    if parent == 0 || list[parent].hasdc then parent else DcParent(list, parent)
  }

  /** The slave through which `i` hangs on its DcParent. */
  function DcChild(list: seq<SlaveInfo>, i: nat): (c: nat)
    requires Ordered(list) && 1 <= i < |list|
    ensures DcParent(list, i) < c <= i
  {
    var parent := list[i].parent;
    if parent == 0 || list[parent].hasdc then i else DcChild(list, parent)
  }

  /** Takes the next open port of a slave. */
  function Consume(s: SlaveInfo): SlaveInfo {
    s.(consumedports := Without(s.consumedports, FirstOpen(s.consumedports)))
  }

  /** Appends slave `i` to the list of slaves with a clock. */
  function Link(list: seq<SlaveInfo>, prevDc: nat, i: nat): (r: seq<SlaveInfo>)
    requires 1 <= i < |list| && prevDc < |list|
    ensures SameNetwork(list, r)
    ensures forall k | 0 <= k < |list| ::
              r[k] == list[k].(hasdc := r[k].hasdc, dcNext := r[k].dcNext, dcPrevious := r[k].dcPrevious)
  {
    if !list[0].hasdc then
      list[0 := list[0].(hasdc := true, dcNext := i)][i := list[i].(dcPrevious := 0)]
    else
      var r := list[prevDc := list[prevDc].(dcNext := i)];
      r[i := r[i].(dcPrevious := prevDc)]
  }

  /** Reads the time registers of a slave and settles its entry port. */
  function Timed(s: SlaveInfo, l: Latch): (t: SlaveInfo)
    ensures SamePlace(s, t)
  {
    var t := s.(rtA := l.time0, rtB := l.time1, rtC := l.time2, rtD := l.time3);
    t.(entryport := EntryPort(t), consumedports := Without(t.consumedports, EntryPort(t)))
  }

  function ParentPortOf(up: SlaveInfo): nat {
    if up.topology == 1 then up.entryport else FirstOpen(up.consumedports)
  }

  /** Finds the port above and computes the delay. */
  function Attach(list: seq<SlaveInfo>, i: nat): (r: seq<SlaveInfo>)
    requires Ordered(list) && 1 <= i < |list|
    ensures SameNetwork(list, r)
  {
    var parent := DcParent(list, i);
    if parent == 0 then list else
      var me := list[i].(parentport := ParentPortOf(list[parent]));
      var up := Consume(list[parent]);
      list[parent := up][i := me.(pdelay := Delay(me, up, DcChild(list, i) - parent <= 1))]
  }

  /** A slave without a clock: a branch of such slaves uses up one port of the split it hangs on. */
  function Skip(st: State, i: nat): (r: State)
    requires Sane(st) && 1 <= i < |st.list|
    ensures SameNetwork(st.list, r.list) && Sane(r)
  {
    var list := st.list[i := st.list[i].(rtA := 0, rtB := 0, rtC := 0, rtD := 0)];
    var parent := list[i].parent;
    var hold := if parent > 0 && list[parent].topology > 2 then parent else st.parenthold;
    if hold != 0 && list[i].topology == 1 then
      State(list[hold := Consume(list[hold])], 0, st.prevDc)
    else
      State(list, hold, st.prevDc)
  }

  /** The table in the round for a slave with a clock when its port above is about to be looked for. */
  function Enlist(st: State, i: nat, l: Latch): (r: seq<SlaveInfo>)
    requires Sane(st) && 1 <= i < |st.list|
    ensures SameNetwork(st.list, r)
  {
    var open := st.list[i := st.list[i].(consumedports := st.list[i].activeports)];
    var linked := Link(open, st.prevDc, i);
    linked[i := Timed(linked[i], l)]
  }

  function Step(st: State, i: nat, l: Latch): (r: State)
    requires Sane(st) && 1 <= i < |st.list|
    ensures SameNetwork(st.list, r.list) && Sane(r)
  {
    if st.list[i].hasdc then State(Attach(Enlist(st, i, l), i), 0, i)
    else Skip(st.(list := st.list[i := st.list[i].(consumedports := st.list[i].activeports)]), i)
  }

  /** The state after slaves 1 to `n`. */
  function Run(list: seq<SlaveInfo>, latched: seq<Latch>, n: nat): (st: State)
    requires Ordered(list) && 0 < |list| == |latched| && n < |list|
    ensures SameNetwork(list, st.list) && Sane(st)
  {
    if n == 0 then State(list[0 := list[0].(hasdc := false)], 0, 0)
    else Step(Run(list, latched, n - 1), n, latched[n])
  }

  // ----- The chain of slaves with a clock.

  /** `p` is the nearest slave below number `i` with a clock, or 0 if there is none. */
  ghost predicate NearestBelow(list: seq<SlaveInfo>, i: nat, p: nat) {
    p < i <= |list| && (p > 0 ==> list[p].hasdc) && forall k | p < k < i :: !list[k].hasdc
  }

  ghost predicate LinkedBack(list: seq<SlaveInfo>, i: nat) {
    i < |list| && (list[i].hasdc ==> NearestBelow(list, i, list[i].dcPrevious))
  }

  /** If `j` is the next slave with a clock after `i`, then `i` leads to it. */
  ghost predicate LinkedOn(list: seq<SlaveInfo>, i: nat, j: nat) {
    i < j < |list| && (list[j].hasdc && NearestBelow(list, j, i) ==> list[i].dcNext == j)
  }

  ghost predicate AnyClock(list: seq<SlaveInfo>, n: nat) {
    n < |list| && exists i | 1 <= i <= n :: list[i].hasdc
  }

  /** The slaves with a clock up to number `n` are linked both ways, in the order of their numbers; record 0
      leads to the first one and tells whether there is any. */
  ghost predicate Chained(list: seq<SlaveInfo>, n: nat) {
    n < |list| && (list[0].hasdc <==> AnyClock(list, n)) &&
    (forall i: nat | 1 <= i <= n :: LinkedBack(list, i)) &&
    forall i: nat, j: nat | i < j <= n :: LinkedOn(list, i, j)
  }

  /** ... and `prevDc` is the last of them. */
  ghost predicate ChainedTo(list: seq<SlaveInfo>, n: nat, prevDc: nat) {
    Chained(list, n) && NearestBelow(list, n + 1, prevDc)
  }

  /** What the chain is made of has not changed. */
  ghost predicate SameChain(a: seq<SlaveInfo>, b: seq<SlaveInfo>) {
    |a| == |b| &&
    forall k | 0 <= k < |a| ::
      b[k].hasdc == a[k].hasdc && b[k].dcNext == a[k].dcNext && b[k].dcPrevious == a[k].dcPrevious
  }

  ghost predicate SameClocks(a: seq<SlaveInfo>, b: seq<SlaveInfo>) {
    |a| == |b| && forall k | 1 <= k < |a| :: b[k].hasdc == a[k].hasdc
  }

  lemma SameNearest(a: seq<SlaveInfo>, b: seq<SlaveInfo>, i: nat, p: nat)
    requires SameClocks(a, b)
    ensures NearestBelow(b, i, p) <==> NearestBelow(a, i, p)
  {
  }

  lemma SameChainIsChained(a: seq<SlaveInfo>, b: seq<SlaveInfo>, n: nat, prevDc: nat)
    requires SameChain(a, b) && ChainedTo(a, n, prevDc)
    ensures ChainedTo(b, n, prevDc)
  {
    hide NearestBelow, AnyClock, LinkedBack, LinkedOn;
    SameNearest(a, b, n + 1, prevDc);
    SameAny(a, b, n);
    forall i: nat | 1 <= i <= n ensures LinkedBack(b, i) {
      SameBack(a, b, i);
    }
    forall i: nat, j: nat | i < j <= n ensures LinkedOn(b, i, j) {
      SameOn(a, b, i, j);
    }
  }

  lemma SameAny(a: seq<SlaveInfo>, b: seq<SlaveInfo>, n: nat)
    requires SameClocks(a, b)
    ensures AnyClock(b, n) <==> AnyClock(a, n)
  {
    if AnyClock(a, n) {
      var i :| 1 <= i <= n && a[i].hasdc;
      assert b[i].hasdc;
    }
    if AnyClock(b, n) {
      var i :| 1 <= i <= n && b[i].hasdc;
      assert a[i].hasdc;
    }
  }

  lemma SameBack(a: seq<SlaveInfo>, b: seq<SlaveInfo>, i: nat)
    requires SameClocks(a, b) && 1 <= i && LinkedBack(a, i) && b[i].dcPrevious == a[i].dcPrevious
    ensures LinkedBack(b, i)
  {
    hide NearestBelow;
    SameNearest(a, b, i, a[i].dcPrevious);
  }

  lemma SameOn(a: seq<SlaveInfo>, b: seq<SlaveInfo>, i: nat, j: nat)
    requires SameClocks(a, b) && LinkedOn(a, i, j) && b[i].dcNext == a[i].dcNext
    ensures LinkedOn(b, i, j)
  {
    hide NearestBelow;
    SameNearest(a, b, j, i);
  }

  lemma OneNearest(list: seq<SlaveInfo>, i: nat, p: nat, q: nat)
    requires NearestBelow(list, i, p) && NearestBelow(list, i, q)
    ensures p == q
  {
  }

  lemma NothingAfterLast(list: seq<SlaveInfo>, n: nat, last: nat, j: nat)
    requires NearestBelow(list, n + 1, last) && j <= n && NearestBelow(list, j, last)
    ensures j < |list| && !list[j].hasdc
  {
  }

  lemma Clocked(list: seq<SlaveInfo>, n: nat, last: nat)
    requires NearestBelow(list, n + 1, last)
    ensures AnyClock(list, n) <==> last > 0
  {
  }

  lemma LinkExtends(list: seq<SlaveInfo>, prevDc: nat, i: nat)
    requires 1 <= i < |list| && ChainedTo(list, i - 1, prevDc) && list[i].hasdc
    ensures ChainedTo(Link(list, prevDc, i), i, i)
  {
    var r := Link(list, prevDc, i);
    assert SameClocks(list, r);
    Clocked(list, i - 1, prevDc);
    LinkedRecords(list, prevDc, i);
    hide NearestBelow, AnyClock, LinkedBack, LinkedOn, Link;
    LastIsNearest(r, i);
    Clocked(r, i, i);
    forall k: nat | 1 <= k <= i ensures LinkedBack(r, k) {
      LinksBack(list, r, prevDc, i, k);
    }
    forall k: nat, j: nat | k < j <= i ensures LinkedOn(r, k, j) {
      LinksOn(list, r, prevDc, i, k, j);
    }
  }

  /** What linking does: the slave before leads to the new one, and the new one back. */
  ghost predicate Appended(list: seq<SlaveInfo>, r: seq<SlaveInfo>, prevDc: nat, i: nat) {
    SameClocks(list, r) && prevDc < i < |list| && r[0].hasdc && r[prevDc].dcNext == i && r[i].dcPrevious == prevDc &&
    (forall k | 0 <= k < |list| && k != prevDc :: r[k].dcNext == list[k].dcNext) &&
    forall k | 0 <= k < |list| && k != i :: r[k].dcPrevious == list[k].dcPrevious
  }

  lemma LinkedRecords(list: seq<SlaveInfo>, prevDc: nat, i: nat)
    requires 1 <= i < |list| && prevDc < i && (list[0].hasdc <==> prevDc > 0)
    ensures Appended(list, Link(list, prevDc, i), prevDc, i)
  {
  }

  lemma LastIsNearest(list: seq<SlaveInfo>, i: nat)
    requires 1 <= i < |list| && list[i].hasdc
    ensures NearestBelow(list, i + 1, i)
  {
  }

  lemma LinksBack(list: seq<SlaveInfo>, r: seq<SlaveInfo>, prevDc: nat, i: nat, k: nat)
    requires 1 <= k <= i && ChainedTo(list, i - 1, prevDc) && Appended(list, r, prevDc, i)
    ensures LinkedBack(r, k)
  {
    hide NearestBelow, AnyClock, LinkedOn;
    if k < i {
      assert LinkedBack(list, k);
      SameBack(list, r, k);
    } else {
      SameNearest(list, r, i, prevDc);
    }
  }

  lemma LinksOn(list: seq<SlaveInfo>, r: seq<SlaveInfo>, prevDc: nat, i: nat, k: nat, j: nat)
    requires 1 <= i && k < j <= i && ChainedTo(list, i - 1, prevDc) && Appended(list, r, prevDc, i)
    ensures LinkedOn(r, k, j)
  {
    hide NearestBelow, AnyClock, LinkedBack;
    SameNearest(list, r, j, k);
    if r[j].hasdc && NearestBelow(r, j, k) {
      if j == i {
        OneNearest(list, i, k, prevDc);
      } else {
        assert LinkedOn(list, k, j);
        if k == prevDc {
          NothingAfterLast(list, i - 1, prevDc, j);
        }
      }
    }
  }

  lemma SkipExtends(list: seq<SlaveInfo>, prevDc: nat, i: nat)
    requires 1 <= i < |list| && ChainedTo(list, i - 1, prevDc) && !list[i].hasdc
    ensures ChainedTo(list, i, prevDc)
  {
    hide LinkedBack, LinkedOn, AnyClock, NearestBelow;
    NoClockNoChange(list, prevDc, i);
    Clocked(list, i - 1, prevDc);
    Clocked(list, i, prevDc);
  }

  lemma NoClockNoChange(list: seq<SlaveInfo>, prevDc: nat, i: nat)
    requires 1 <= i < |list| && NearestBelow(list, i, prevDc) && !list[i].hasdc
    ensures NearestBelow(list, i + 1, prevDc) && LinkedBack(list, i)
    ensures forall k: nat | k < i :: LinkedOn(list, k, i)
  {
  }

  lemma AttachKeepsChain(list: seq<SlaveInfo>, i: nat)
    requires Ordered(list) && 1 <= i < |list|
    ensures SameChain(list, Attach(list, i))
  {
    hide Delay, ParentPortOf, DcParent, DcChild;
  }

  lemma StepExtends(st: State, i: nat, l: Latch)
    requires Sane(st) && 1 <= i < |st.list| && ChainedTo(st.list, i - 1, st.prevDc)
    ensures ChainedTo(Step(st, i, l).list, i, Step(st, i, l).prevDc)
  {
    hide ChainedTo, Link, EntryPort, Attach, Delay;
    var open := st.list[i := st.list[i].(consumedports := st.list[i].activeports)];
    SameChainIsChained(st.list, open, i - 1, st.prevDc);
    if st.list[i].hasdc {
      LinkExtends(open, st.prevDc, i);
      var linked := Link(open, st.prevDc, i);
      SameChainIsChained(linked, Enlist(st, i, l), i, i);
      AttachKeepsChain(Enlist(st, i, l), i);
      SameChainIsChained(Enlist(st, i, l), Attach(Enlist(st, i, l), i), i, i);
    } else {
      var r := Step(st, i, l);
      SameChainIsChained(open, r.list, i - 1, st.prevDc);
      SkipExtends(r.list, st.prevDc, i);
    }
  }

  /** After slaves 1 to `n` the slaves with a clock among them are linked. */
  lemma {:induction false} RunIsChained(list: seq<SlaveInfo>, latched: seq<Latch>, n: nat)
    requires Ordered(list) && 0 < |list| == |latched| && n < |list|
    ensures ChainedTo(Run(list, latched, n).list, n, Run(list, latched, n).prevDc)
  {
    hide Step, ChainedTo;
    if n == 0 {
      StartsChained(list, latched);
    } else {
      RunIsChained(list, latched, n - 1);
      StepExtends(Run(list, latched, n - 1), n, latched[n]);
    }
  }

  lemma StartsChained(list: seq<SlaveInfo>, latched: seq<Latch>)
    requires Ordered(list) && 0 < |list| == |latched|
    ensures ChainedTo(Run(list, latched, 0).list, 0, 0)
  {
  }

  /** Record 0 leads to the first slave with a clock. */
  lemma FirstInChain(list: seq<SlaveInfo>, n: nat, f: nat)
    requires Chained(list, n) && 1 <= f <= n && list[f].hasdc && forall k | 1 <= k < f :: !list[k].hasdc
    ensures list[0].dcNext == f && AnyClock(list, n)
  {
    assert NearestBelow(list, f, 0) && LinkedOn(list, 0, f);
  }

  lemma FirstIsThere(list: seq<SlaveInfo>, n: nat)
    requires Chained(list, n) && AnyClock(list, n)
    ensures var f := list[0].dcNext;
            1 <= f <= n && list[f].hasdc && forall k | 1 <= k < f :: !list[k].hasdc
  {
    var f := LowestClock(list, n);
    FirstInChain(list, n, f);
  }

  lemma LowestClock(list: seq<SlaveInfo>, n: nat) returns (f: nat)
    requires AnyClock(list, n)
    ensures 1 <= f <= n && list[f].hasdc && forall k | 1 <= k < f :: !list[k].hasdc
  {
    f := 1;
    while !list[f].hasdc
      invariant 1 <= f <= n && forall k | 1 <= k < f :: !list[k].hasdc
      decreases n - f
    {
      f := f + 1;
    }
  }

  // ----- The procedure in place.

  /** Consumes and returns the first open port of the parent. */
  method ParentPort(list: array<SlaveInfo>, parent: nat) returns (parentport: nat)
    requires parent < list.Length
    modifies list
    ensures parentport == FirstOpen(old(list[parent]).consumedports)
    ensures list[..] == old(list[..])[parent := Consume(old(list[parent]))]
  {
    parentport := 0;
    var b := list[parent].consumedports;
    if b.m3 {
      parentport := 3;
      b := b.(m3 := false);
    } else if b.m1 {
      parentport := 1;
      b := b.(m1 := false);
    } else if b.m2 {
      parentport := 2;
      b := b.(m2 := false);
    } else if b.m0 {
      parentport := 0;
      b := b.(m0 := false);
    }
    list[parent] := list[parent].(consumedports := b);
  }

  /** Appends slave `i` to the chain of slaves with a clock. */
  method LinkSlave(list: array<SlaveInfo>, prevDc: nat, i: nat)
    requires 1 <= i < list.Length && prevDc < list.Length
    modifies list
    ensures list[..] == Link(old(list[..]), prevDc, i)
  {
    if !list[0].hasdc {
      list[0] := list[0].(hasdc := true, dcNext := i);
      list[i] := list[i].(dcPrevious := 0);
    } else {
      list[prevDc] := list[prevDc].(dcNext := i);
      list[i] := list[i].(dcPrevious := prevDc);
    }
  }

  /** Stores the time registers and consumes the entry port. */
  method ReadTimes(list: array<SlaveInfo>, i: nat, l: Latch)
    requires i < list.Length
    modifies list
    ensures list[..] == old(list[..])[i := Timed(old(list[i]), l)]
  {
    list[i] := list[i].(rtA := l.time0, rtB := l.time1, rtC := l.time2, rtD := l.time3);
    var entryport := EntryPort(list[i]);
    list[i] := list[i].(entryport := entryport);
    list[i] := list[i].(consumedports := Without(list[i].consumedports, entryport));
  }

  /** Finds the parent with a clock, takes a port from it and computes the delay. */
  method AttachSlave(list: array<SlaveInfo>, i: nat)
    requires Ordered(list[..]) && 1 <= i < list.Length
    modifies list
    ensures list[..] == Attach(old(list[..]), i)
    ensures var before := old(list[..]);
            var up := DcParent(before, i);
            (up == 0 ==> list[..] == before) &&
            (up > 0 && before[up].topology == 1 ==> list[i].parentport == before[up].entryport) &&
            (up > 0 && before[up].topology != 1 ==> list[i].parentport == FirstOpen(before[up].consumedports))
  {
    hide Delay, FirstOpen, Without;
    ghost var before := list[..];
    var child := i;
    var parent := list[i].parent;
    while parent != 0 && !list[parent].hasdc
      invariant parent < child <= i && list[child].parent == parent
      invariant DcParent(before, i) == DcParent(before, child)
      invariant DcChild(before, i) == DcChild(before, child)
    {
      child := parent;
      parent := list[parent].parent;
    }
    if parent > 0 {
      var parentport := ParentPort(list, parent);
      if list[parent].topology == 1 {
        parentport := list[parent].entryport;
      }
      assert list[..] == before[parent := Consume(before[parent])];
      assert parentport == ParentPortOf(before[parent]);
      list[i] := list[i].(parentport := parentport);
      list[i] := list[i].(pdelay := Delay(list[i], list[parent], child - parent <= 1));
    }
  }

  method SkipSlave(list: array<SlaveInfo>, parenthold: nat, i: nat, ghost prevDc: nat) returns (hold: nat)
    requires Sane(State(list[..], parenthold, prevDc)) && 1 <= i < list.Length
    modifies list
    ensures State(list[..], hold, prevDc) == Skip(State(old(list[..]), parenthold, prevDc), i)
  {
    hold := parenthold;
    list[i] := list[i].(rtA := 0, rtB := 0, rtC := 0, rtD := 0);
    var parent := list[i].parent;
    if parent > 0 && list[parent].topology > 2 {
      hold := parent;
    }
    if hold != 0 && list[i].topology == 1 {
      var _ := ParentPort(list, hold);
      hold := 0;
    }
  }

  /** One round of the loop over all slaves. */
  method ConfigSlave(list: array<SlaveInfo>, parenthold: nat, prevDc: nat, i: nat, l: Latch)
    returns (hold: nat, prev: nat)
    requires Sane(State(list[..], parenthold, prevDc)) && 1 <= i < list.Length
    modifies list
    ensures State(list[..], hold, prev) == Step(State(old(list[..]), parenthold, prevDc), i, l)
  {
    hide Link, Timed, Attach, Skip;
    hold, prev := parenthold, prevDc;
    list[i] := list[i].(consumedports := list[i].activeports);
    if list[i].hasdc {
      LinkSlave(list, prevDc, i);
      hold := 0;
      prev := i;
      ReadTimes(list, i, l);
      AttachSlave(list, i);
    } else {
      hold := SkipSlave(list, parenthold, i, prevDc);
    }
  }

  method ConfigDc(list: array<SlaveInfo>, latched: seq<Latch>) returns (hasdc: bool)
    requires 0 < list.Length == |latched| && Ordered(list[..])
    modifies list
    ensures list[..] == Run(old(list[..]), latched, |latched| - 1).list
    ensures Chained(list[..], list.Length - 1) && (hasdc <==> AnyClock(list[..], list.Length - 1))
    ensures forall i | 1 <= i < list.Length :: list[i].hasdc == old(list[i]).hasdc
  {
    hide Step, Chained;
    ghost var before := list[..];
    var parenthold, prevDc := 0, 0;
    list[0] := list[0].(hasdc := false);
    assert list[..] == before[0 := before[0].(hasdc := false)];
    var i := 1;
    while i < list.Length
      invariant 1 <= i <= list.Length
      invariant State(list[..], parenthold, prevDc) == Run(before, latched, i - 1)
    {
      parenthold, prevDc := ConfigSlave(list, parenthold, prevDc, i, latched[i]);
      i := i + 1;
    }
    RunIsChained(before, latched, list.Length - 1);
    ChainTells(list[..], list.Length - 1);
    hasdc := list[0].hasdc;
  }

  lemma ChainTells(list: seq<SlaveInfo>, n: nat)
    requires Chained(list, n)
    ensures list[0].hasdc <==> AnyClock(list, n)
  {
  }
}

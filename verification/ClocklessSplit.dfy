/** What the measurement makes of slaves behind a split that has no clock. */
module ClocklessSplit {
  import opened ClockLines
  import opened DistributedClock
  import opened Network
  import opened PropagationDelay
  import opened SlaveList

  /** What the formula makes of a slave on `port` of a split without a clock, slave `k` at `s`, when everything else
      is right: half of the time that the frame spends in the other branches is added, so the delay is exact if and
      only if that is what it spends in the branches before `port`. */
  lemma BehindSplit(c: Place, up: SlaveInfo, u: nat, s: Place, k: nat, port: nat, me: SlaveInfo, base: int)
    requires OnLine(c, u, s, k) && !s.net.dc && 0 < s.up && IsDownPort(port)
    requires s.net.At(port).Slave? && s.net.At(port).dc
    requires Stamped(c, up) && Stamped(Child(s, k, port), me) && me.parentport == s.via
    requires up.pdelay == base + c.entry + c.skew
    ensures var p := Child(s, k, port);
            var before := s.net.Leaves(port, s.entry) - s.entry;
            var after := s.net.Leaves(0, s.entry) - s.net.At(port).Back(s.net.Leaves(port, s.entry));
            Delay(me, up, c.net.Offset(s.via) <= 1) == base + p.entry + p.skew
            <==> (p.there + p.back + before + after) / 2 == (p.there + p.back) / 2 + before
  {
    hide Net.Reach, Net.IsBare, Net.Leaves, Net.Back, Net.Offset, Delay, Stamped, Net.Links, Net.Size;
    var p := Child(s, k, port);
    BranchesAfter(s.net, port, s.entry);
    BackOfChild(s.net, port, s.net.Leaves(port, s.entry));
    DelayValue(c, up, s.via, p, me);
  }

  lemma BackOfChild(n: Net, port: nat, t: int)
    requires n.Slave? && n.At(port).Slave?
    ensures n.At(port).Back(t) == n.At(port).Leaves(0, t + n.At(port).fwd) + n.At(port).ret
  {
  }

  lemma BranchesAfter(n: Net, port: nat, t: int)
    requires n.Slave? && IsDownPort(port)
    ensures t <= n.Leaves(port, t) && n.At(port).Back(n.Leaves(port, t)) <= n.Leaves(0, t)
  {
  }

  function Leaf(): Net {
    Slave(true, 10, 10, 0, Closed(0), Closed(0), Closed(0))
  }

  /** Two slaves with a clock behind a split without one. */
  function SplitNet(): (n: Net)
    ensures n.Slave? && n.Size() == 4
  {
    Slave(true, 0, 0, 0, Slave(false, 10, 10, 0, Leaf(), Leaf(), Closed(0)), Closed(0), Closed(0))
  }

  /** What the master knows about these slaves, parents included. */
  function SplitList(): (list: seq<SlaveInfo>)
    ensures |list| == 5 && Ordered(list)
  {
    var none := Ports(false, false, false, false);
    var s := SlaveInfo(true, 1, Ports(true, false, false, false), none, 0, 0, 0, 0, 0, 0, 0, 0, 0, 0);
    [s, s.(topology := 2, activeports := Ports(true, false, false, true)),
     s.(hasdc := false, topology := 3, activeports := Ports(true, true, false, true), parent := 1),
     s.(parent := 2), s.(parent := 2)]
  }

  function SplitTimes(): (latched: seq<Latch>)
    ensures |latched| == 5
  {
    [Latch(0, 0, 0, 0), Latch(0, 0, 0, 60), Latch(0, 0, 0, 0), Latch(20, 0, 0, 0), Latch(40, 0, 0, 0)]
  }

  function PlaceOf(i: nat): Place
    requires 1 <= i < 5
  {
    if i == 1 then First(SplitNet())
    else if i == 2 then Place(SplitNet().p3, 1, 3, 10, 1, 3, 10, 10, 0)
    else if i == 3 then Place(Leaf(), 2, 3, 20, 1, 3, 20, 20, 0)
    else Place(Leaf(), 2, 1, 40, 1, 3, 20, 20, 0)
  }

  lemma SplitNetPlaces(i: nat)
    requires 1 <= i < 5
    ensures SlaveAt(SplitNet(), i) == PlaceOf(i)
  {
    hide Places;
    ChildOfSlave(SplitNet(), 1, 3);
    ChildOfSlave(SplitNet(), 2, 3);
    ChildOfSlave(SplitNet(), 2, 1);
  }

  lemma SplitTrip()
    ensures SplitNet().p3.Back(0) == 60
  {
  }

  lemma FirstReport()
    ensures IsReport(PlaceOf(1), SplitList()[1], SplitTimes()[1])
  {
    SplitTrip();
    hide Net.Back;
  }

  lemma SplitReport(i: nat)
    requires 1 < i < 5
    ensures IsReport(PlaceOf(i), SplitList()[i], SplitTimes()[i])
  {
    hide Net.Back;
    if i == 2 {
      hide Registers;
    } else if i == 3 {
    } else {
    }
  }

  lemma SplitParents(i: nat)
    requires 1 <= i < 5
    ensures SplitList()[i].parent == PlaceOf(i).parent
    ensures SplitList()[i].hasdc && i != 1 ==> IsSymmetric(PlaceOf(i))
  {
  }

  lemma SplitHasNoClock()
    ensures !SplitsHaveClocks(SplitNet())
  {
    SplitNetPlaces(2);
    hide SlaveAt;
    assert !SlaveAt(SplitNet(), 2).net.dc && SlaveAt(SplitNet(), 2).net.Links() == 3;
  }

  lemma SplitRoundOne()
    ensures var r := Run(SplitList(), SplitTimes(), 1);
            r.list[1].rtA == 0 && r.list[1].rtD == 60 && r.list[1].pdelay == 0 && r.list[1].entryport == 0 &&
            r.list[1].consumedports == Ports(false, false, false, true)
  {
    var start := Run(SplitList(), SplitTimes(), 0);
    assert Run(SplitList(), SplitTimes(), 1) == Step(start, 1, SplitTimes()[1]);
  }

  lemma SplitRoundTwo()
    ensures Run(SplitList(), SplitTimes(), 2).list[1] == Run(SplitList(), SplitTimes(), 1).list[1]
  {
    var one := Run(SplitList(), SplitTimes(), 1);
    hide Run;
    RunStep(2);
    assert SamePlace(SplitList()[1], one.list[1]) && SamePlace(SplitList()[2], one.list[2]);
    SkipShape(one, 2, one.parenthold);
    LatchIsNotRead(one, 2, SplitTimes()[2]);
  }

  lemma RunStep(n: nat)
    requires 1 <= n < 5
    ensures Run(SplitList(), SplitTimes(), n) == Step(Run(SplitList(), SplitTimes(), n - 1), n, SplitTimes()[n])
  {
  }

  lemma SplitRoundThree()
    ensures Run(SplitList(), SplitTimes(), 3).list[3].pdelay == 30
  {
    SplitRoundOne();
    SplitRoundTwo();
    RunStep(3);
    hide Run, Skip;
    var two := Run(SplitList(), SplitTimes(), 2);
    assert SamePlace(SplitList()[1], two.list[1]) && SamePlace(SplitList()[2], two.list[2]) &&
           SamePlace(SplitList()[3], two.list[3]);
    var t := Enlist(two, 3, SplitTimes()[3]);
  }

  lemma ThirdPlace()
    ensures SlaveAt(SplitNet(), 3).entry == 20
  {
    SplitNetPlaces(3);
    hide SlaveAt;
  }

  lemma SplitHome()
    ensures IsHome(SplitList(), 1)
  {
  }

  /** Behind a split without a clock the delays are wrong even if all ways are symmetric: the first of the two
      slaves is entered after 20 units of time, and the master computes 30. */
  lemma SplitWithoutClockIsWrong() returns (root: Net, list: seq<SlaveInfo>, latched: seq<Latch>)
    ensures Reports(root, list, latched) && HasParents(root, list) && Ordered(list) && |list| == 5
    ensures IsHome(list, 1) && AllSymmetric(root, list, 1) && !SplitsHaveClocks(root)
    ensures SlaveAt(root, 3).entry == 20 && Run(list, latched, 3).list[3].pdelay == 30
  {
    hide Run, SlaveAt, SplitNet, SplitList, SplitTimes, PlaceOf;
    hide IsHome, SplitsHaveClocks, IsReport, IsSymmetric, Ordered;
    root, list, latched := SplitNet(), SplitList(), SplitTimes();
    forall i | 1 <= i < 5
      ensures IsReport(SlaveAt(root, i), list[i], latched[i]) && list[i].parent == SlaveAt(root, i).parent
      ensures list[i].hasdc && i != 1 ==> IsSymmetric(SlaveAt(root, i))
    {
      SplitNetPlaces(i);
      SplitParents(i);
      if i == 1 {
        FirstReport();
      } else {
        SplitReport(i);
      }
    }
    ThirdPlace();
    SplitHasNoClock();
    SplitHome();
    SplitRoundThree();
  }
}

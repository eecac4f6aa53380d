/** How the master finds out the tree: it only reads how many links each slave has, slave by slave
    in the order in which the frame enters them, and scans backwards for each slave's parent. */
module Topology {
  import opened Network
  import opened SlaveList

  /** The scan's counter: an end point closes a branch, a split opens one, a cross opens two. */
  function Change(topology: nat): int {
    if topology == 1 then 0 - 1 else if topology == 3 then 1 else if topology == 4 then 2 else 0
  }

  /** What the counter gains over slaves `lo` up to but not including `hi`. */
  function Balance(topo: seq<nat>, lo: nat, hi: nat): int
    requires 0 <= lo <= hi <= |topo|
    decreases hi - lo
  {
    if lo == hi then 0 else Change(topo[lo]) + Balance(topo, lo + 1, hi)
  }

  /** Seen from `slave`, slave `p` still has a branch that the slaves in between did not fill. */
  ghost predicate HasOpenBranch(topo: seq<nat>, p: nat, slave: nat)
    requires p < slave <= |topo|
  {
    topo[p] > 1 && Balance(topo, p, slave) >= 0
  }

  /** What the scan looks for: the nearest earlier slave with an open branch, or else slave 1. */
  ghost predicate IsNearestOpen(topo: seq<nat>, p: nat, slave: nat)
    requires slave < |topo|
  {
    1 <= p < slave &&
    (p == 1 || HasOpenBranch(topo, p, slave)) &&
    forall m | p < m < slave :: !HasOpenBranch(topo, m, slave)
  }

  function Topologies(list: seq<SlaveInfo>): (topo: seq<nat>)
    ensures |topo| == |list|
  {
    seq(|list|, i requires 0 <= i < |list| => list[i].topology)
  }

  method FindParent(list: array<SlaveInfo>, slave: nat) returns (parent: nat)
    requires 1 <= slave < list.Length
    ensures if slave == 1 then parent == 0 else IsNearestOpen(Topologies(list[..]), parent, slave)
  {
    ghost var topo := Topologies(list[..]);
    parent := 0;
    if slave > 1 {
      var topoc := 0;
      var slavec := slave - 1;
      while slavec > 0
        invariant slavec < slave
        invariant parent == 0 ==>
                    slavec > 0 && topoc == Balance(topo, slavec + 1, slave) &&
                    forall m | slavec < m < slave :: !HasOpenBranch(topo, m, slave)
        invariant parent != 0 ==> slavec == 0 && IsNearestOpen(topo, parent, slave)
      {
        var topology := list[slavec].topology;
        if topology == 1 {
          topoc := topoc - 1;
        }
        if topology == 3 {
          topoc := topoc + 1;
        }
        if topology == 4 {
          topoc := topoc + 2;
        }
        if (topoc >= 0 && topology > 1) || slavec == 1 {
          parent := slavec;
          slavec := 1;
        }
        slavec := slavec - 1;
      }
    }
  }

  /** The parent part of the slave enumeration. */
  method FindParents(list: array<SlaveInfo>)
    modifies list
    ensures list.Length > 1 ==> list[1] == old(list[1]).(parent := 0)
    ensures forall slave | 1 < slave < list.Length ::
              list[slave] == old(list[slave]).(parent := list[slave].parent) &&
              IsNearestOpen(Topologies(old(list[..])), list[slave].parent, slave)
    ensures list.Length > 0 ==> list[0] == old(list[0])
  {
    ghost var topo := Topologies(list[..]);
    var slave := 1;
    while slave < list.Length
      invariant 1 <= slave
      invariant forall k | slave <= k < list.Length :: list[k] == old(list[k])
      invariant list.Length > 0 ==> list[0] == old(list[0])
      invariant Topologies(list[..]) == topo
      invariant list.Length > 1 && slave > 1 ==> list[1] == old(list[1]).(parent := 0)
      invariant forall k | 1 < k < list.Length && k < slave ::
                  list[k] == old(list[k]).(parent := list[k].parent) && IsNearestOpen(topo, list[k].parent, k)
    {
      var parent := FindParent(list, slave);
      list[slave] := list[slave].(parent := parent);
      slave := slave + 1;
    }
  }

  // ----- The scan is right on every tree.

  /** The link counts of a tree, in the order in which the frame enters the slaves. */
  function Counts(n: Net): (c: seq<nat>)
    ensures |c| == n.Size()
    ensures n.Slave? ==> c[0] == n.Links()
  {
    if n.Closed? then [] else [n.Links()] + Counts(n.p3) + Counts(n.p1) + Counts(n.p2)
  }

  /** The position of the parent of the slave at position `k`. */
  function ParentOf(n: Net, k: nat): (p: nat)
    requires 0 < k < n.Size()
    ensures p < k
  {
    var via := PortOf(n, k);
    var o := n.Offset(via);
    if k == o then 0 else o + ParentOf(n.At(via), k - o)
  }

  lemma BalanceSplits(topo: seq<nat>, lo: nat, mid: nat, hi: nat)
    requires lo <= mid <= hi <= |topo|
    ensures Balance(topo, lo, hi) == Balance(topo, lo, mid) + Balance(topo, mid, hi)
    decreases mid - lo
  {
  }

  lemma {:induction false} BalanceShifts(a: seq<nat>, b: seq<nat>, o: nat, lo: nat, hi: nat)
    requires lo <= hi <= |b| && o + |b| <= |a| && a[o..o + |b|] == b
    ensures Balance(a, o + lo, o + hi) == Balance(b, lo, hi)
    decreases hi - lo
  {
    if lo < hi {
      assert a[o + lo] == a[o..o + |b|][lo];
      BalanceShifts(a, b, o, lo + 1, hi);
    }
  }

  lemma OpenInBranch(a: seq<nat>, b: seq<nat>, o: nat, p: nat, slave: nat)
    requires p < slave <= |b| && o + |b| <= |a| && a[o..o + |b|] == b
    ensures HasOpenBranch(a, o + p, o + slave) <==> HasOpenBranch(b, p, slave)
  {
    BalanceShifts(a, b, o, p, slave);
    assert a[o + p] == a[o..o + |b|][p];
  }

  lemma {:induction false} CountsOnPort(n: Net, down: nat)
    requires n.Slave? && IsDownPort(down)
    ensures var o := n.Offset(down);
            o + n.At(down).Size() <= n.Size() && Counts(n)[o..o + n.At(down).Size()] == Counts(n.At(down))
  {
    hide Counts, Net.Size, Net.Links;
    CountsInParts(n);
    Parts([n.Links()], Counts(n.p3), Counts(n.p1), Counts(n.p2));
  }

  lemma CountsInParts(n: Net)
    requires n.Slave?
    ensures Counts(n) == [n.Links()] + Counts(n.p3) + Counts(n.p1) + Counts(n.p2)
    ensures n.Size() == 1 + n.p3.Size() + n.p1.Size() + n.p2.Size()
  {
    hide Net.Links;
  }

  lemma Parts<T>(a: seq<T>, b: seq<T>, c: seq<T>, d: seq<T>)
    ensures (a + b + c + d)[|a|..|a| + |b|] == b
    ensures (a + b + c + d)[|a| + |b|..|a| + |b| + |c|] == c
    ensures (a + b + c + d)[|a| + |b| + |c|..|a| + |b| + |c| + |d|] == d
  {
  }

  lemma BalanceStep(topo: seq<nat>, lo: nat, hi: nat)
    requires lo <= hi <= |topo|
    ensures Balance(topo, lo, hi) == if lo == hi then 0 else Change(topo[lo]) + Balance(topo, lo + 1, hi)
  {
  }

  /** A branch fills exactly the one place it hangs on. */
  lemma {:induction false} BranchBalance(n: Net, down: nat)
    requires n.Slave? && IsDownPort(down)
    ensures n.Offset(down) + n.At(down).Size() <= n.Size()
    ensures Balance(Counts(n), n.Offset(down), n.Offset(down) + n.At(down).Size()) == 0 - n.At(down).Up()
    decreases n, 0
  {
    hide Counts;
    CountsOnPort(n, down);
    BalanceShifts(Counts(n), Counts(n.At(down)), n.Offset(down), 0, n.At(down).Size());
    if n.At(down).Slave? {
      TailIsNegative(n.At(down), 0);
    }
  }

  /** The branches that follow `down` do not open more than they close. */
  lemma {:induction false} LaterBranches(n: Net, down: nat)
    requires n.Slave? && (down == 0 || IsDownPort(down))
    ensures var end := if down == 0 then 1 else n.Offset(down) + n.At(down).Size();
            end <= n.Size() &&
            Balance(Counts(n), end, n.Size()) <= 0 &&
            (down == 0 ==> Balance(Counts(n), end, n.Size()) == 1 - n.Links())
    decreases n, 1
  {
    hide Counts, Balance, Change;
    BranchBalance(n, 3);
    BranchBalance(n, 1);
    BranchBalance(n, 2);
    BalanceStep(Counts(n), n.Size(), n.Size());
    BalanceSplits(Counts(n), n.Offset(1), n.Offset(2), n.Size());
    BalanceSplits(Counts(n), 1, n.Offset(1), n.Size());
  }

  /** Every non-empty tail of a tree's counts closes more branches than it opens. */
  lemma {:induction false} TailIsNegative(n: Net, m: nat)
    requires m < n.Size()
    ensures Balance(Counts(n), m, n.Size()) <= -1
    ensures m == 0 ==> Balance(Counts(n), m, n.Size()) == -1
    decreases n, 2
  {
    hide Counts;
    var c := Counts(n);
    if m == 0 {
      LaterBranches(n, 0);
    } else {
      var via := PortOf(n, m);
      BranchTailIsNegative(n, via, m);
      LaterBranches(n, via);
      hide Balance;
      BalanceSplits(c, m, n.Offset(via) + n.At(via).Size(), n.Size());
    }
  }

  lemma {:induction false} BranchTailIsNegative(n: Net, down: nat, m: nat)
    requires n.Slave? && IsDownPort(down) && n.Offset(down) <= m < n.Offset(down) + n.At(down).Size()
    ensures n.Offset(down) + n.At(down).Size() <= n.Size()
    ensures Balance(Counts(n), m, n.Offset(down) + n.At(down).Size()) < 0
    decreases n, 1
  {
    hide Counts, Balance;
    CountsOnPort(n, down);
    TailIsNegative(n.At(down), m - n.Offset(down));
    BalanceShifts(Counts(n), Counts(n.At(down)), n.Offset(down), m - n.Offset(down), n.At(down).Size());
  }

  /** Between a slave and its parent no slave has an open branch left, and the parent has one. */
  lemma {:induction false} OnlyParentIsOpen(n: Net, k: nat, m: nat)
    requires 0 < k < n.Size() && ParentOf(n, k) <= m < k
    ensures HasOpenBranch(Counts(n), m, k) <==> m == ParentOf(n, k)
    decreases n
  {
    hide Counts, Balance;
    var c := Counts(n);
    var via := PortOf(n, k);
    var o := n.Offset(via);
    if k > o {
      OnlyParentIsOpen(n.At(via), k - o, m - o);
      CountsOnPort(n, via);
      OpenInBranch(c, Counts(n.At(via)), o, m - o, k - o);
    } else {
      EarlierBranches(n, via, m);
    }
  }

  /** The case of a child at the head of its branch: what lies between it and its parent is the
      complete branches on the ports before. */
  lemma {:induction false} EarlierBranches(n: Net, via: nat, m: nat)
    requires n.Slave? && IsDownPort(via) && n.At(via).Slave? && m < n.Offset(via)
    ensures n.Offset(via) <= n.Size()
    ensures HasOpenBranch(Counts(n), m, n.Offset(via)) <==> m == 0
  {
    hide Counts, Balance;
    var c := Counts(n);
    if m == 0 {
      RootIsOpen(n, via);
    } else {
      var w := PortOf(n, m);
      BranchTailIsNegative(n, w, m);
      BetweenBranches(n, w, via);
      BalanceSplits(c, m, n.Offset(w) + n.At(w).Size(), n.Offset(via));
    }
  }

  lemma {:induction false} RootIsOpen(n: Net, via: nat)
    requires n.Slave? && IsDownPort(via) && n.At(via).Slave?
    ensures n.Offset(via) <= n.Size() && HasOpenBranch(Counts(n), 0, n.Offset(via))
  {
    hide Counts, Balance;
    BranchBalance(n, 3);
    BranchBalance(n, 1);
    BranchBalance(n, 2);
    BalanceStep(Counts(n), 0, n.Offset(via));
    BalanceStep(Counts(n), 1, 1);
    BalanceSplits(Counts(n), 1, n.Offset(1), n.Offset(2));
  }

  lemma {:induction false} BetweenBranches(n: Net, w: nat, via: nat)
    requires n.Slave? && IsDownPort(w) && IsDownPort(via) && n.Offset(w) < n.Offset(via)
    ensures var end := n.Offset(w) + n.At(w).Size();
            end <= n.Offset(via) <= n.Size() && Balance(Counts(n), end, n.Offset(via)) <= 0
  {
    hide Counts;
    BranchBalance(n, 1);
  }

  lemma EntryInBranch(p: Place, index: nat, k: nat)
    requires p.net.Slave? && 0 < k < p.net.Size()
    ensures var s := Places(p, index);
            var via := PortOf(p.net, k);
            var branch := Branch(p, index, via);
            k - p.net.Offset(via) < |branch| && s[k] == branch[k - p.net.Offset(via)]
  {
    hide Places, Net.Back, Net.Offset, Net.Size, Branch, Net.Leaves;
    var s := Places(p, index);
    var via := PortOf(p.net, k);
    var o := p.net.Offset(via);
    BranchIsListed(p, index, via);
    assert s[k] == s[o..o + p.net.At(via).Size()][k - o];
  }

  lemma CountInBranch(n: Net, k: nat)
    requires n.Slave? && 0 < k < n.Size()
    ensures var via := PortOf(n, k);
            Counts(n)[k] == Counts(n.At(via))[k - n.Offset(via)]
  {
    hide Counts, Net.Offset, Net.Size;
    var via := PortOf(n, k);
    var o := n.Offset(via);
    CountsOnPort(n, via);
    assert Counts(n)[k] == Counts(n)[o..o + n.At(via).Size()][k - o];
  }

  /** The listing of a tree and its counts describe the same slaves. */
  lemma {:induction false} PlacesMatchCounts(p: Place, index: nat, k: nat)
    requires p.net.Slave? && k < p.net.Size()
    ensures var s := Places(p, index);
            s[k].net.Links() == Counts(p.net)[k] &&
            (k > 0 ==> s[k].parent == index + ParentOf(p.net, k))
    decreases p.net
  {
    hide Places, Counts, Net.Back, Net.Offset, Net.Leaves, Net.Links, Skew;
    if k > 0 {
      var via := PortOf(p.net, k);
      var o := p.net.Offset(via);
      EntryInBranch(p, index, k);
      CountInBranch(p.net, k);
      PlacesMatchCounts(Child(p, index, via), index + o, k - o);
    }
  }

  lemma CountsAreReported(root: Net, topo: seq<nat>)
    requires root.Slave? && |topo| == 1 + root.Size()
    requires forall i | 1 <= i < |topo| :: topo[i] == SlaveAt(root, i).net.Links()
    ensures topo[1..1 + |Counts(root)|] == Counts(root)
  {
    hide Counts, Places, Branch;
    forall i | 0 <= i < |Counts(root)| ensures topo[i + 1] == Counts(root)[i] {
      assert topo[i + 1] == SlaveAt(root, i + 1).net.Links();
      PlacesMatchCounts(First(root), 1, i);
    }
  }

  lemma ParentIsCounted(root: Net, slave: nat)
    requires root.Slave? && 1 < slave <= root.Size()
    ensures SlaveAt(root, slave).parent == ParentOf(root, slave - 1) + 1
  {
    hide Counts, Places, Branch, ParentOf;
    PlacesMatchCounts(First(root), 1, slave - 1);
  }

  /** On the link counts of any tree the scan has exactly one answer: the true parent. */
  lemma {:induction false} ScanFindsTrueParent(root: Net, topo: seq<nat>, slave: nat, p: nat)
    requires root.Slave? && |topo| == 1 + root.Size()
    requires forall i | 1 <= i < |topo| :: topo[i] == SlaveAt(root, i).net.Links()
    requires 1 < slave < |topo|
    ensures IsNearestOpen(topo, p, slave) <==> p == SlaveAt(root, slave).parent
  {
    hide Counts, Places, Branch, Balance, SlaveAt, Change, Child, Net.Links, Net.Size, ParentOf;
    var c := Counts(root);
    CountsAreReported(root, topo);
    var q := ParentOf(root, slave - 1);
    ParentIsCounted(root, slave);
    forall m | q + 1 <= m < slave ensures HasOpenBranch(topo, m, slave) <==> m == q + 1 {
      OnlyParentIsOpen(root, slave - 1, m - 1);
      BalanceShifts(topo, c, 1, m - 1, slave - 1);
      assert topo[m] == topo[1..1 + |c|][m - 1];
    }
    if IsNearestOpen(topo, p, slave) {
      assert HasOpenBranch(topo, q + 1, slave);
      assert p >= q + 1;
      assert p == q + 1;
    }
  }
}

/** Slaves without a clock: the lines they form between slaves with one.

    A slave without a clock that is no split has at most one slave behind it, so below a port of a slave with a
    clock such slaves form a line, which leads to the next slave with a clock or ends without one. */
module ClockLines {
  import opened Network

  /** Only slaves with a clock have more than one slave behind them. */
  ghost predicate SplitsHaveClocks(root: Net)
    requires root.Slave?
  {
    forall i | 1 <= i <= root.Size() :: var n := SlaveAt(root, i).net; n.Slave? && (n.dc || n.Links() <= 2)
  }

  /** Slave `i` at `p` lies on the line that starts at a port of slave `u`, which has a clock and is at `c`. */
  ghost predicate OnLine(c: Place, u: nat, p: Place, i: nat) {
    c.net.Slave? && c.net.dc && p.net.Slave? && IsDownPort(p.via) && c.net.At(p.via).Slave? &&
    1 <= u < u + c.net.Offset(p.via) <= i &&
    i + p.net.Reach() == u + c.net.Offset(p.via) + c.net.At(p.via).Reach() &&
    (p.net.IsBare() <==> c.net.At(p.via).IsBare()) &&
    p.entry == c.net.Leaves(p.via, c.entry) + p.there &&
    c.net.At(p.via).Back(c.net.Leaves(p.via, c.entry)) == p.net.Leaves(0, p.entry) + p.back &&
    p.skew == c.skew + if p.net.dc then Skew(p.there, p.back) else 0
  }

  lemma StartsLine(c: Place, u: nat, port: nat)
    requires c.net.Slave? && c.net.dc && IsDownPort(port) && c.net.At(port).Slave? && 1 <= u
    ensures OnLine(c, u, Child(c, u, port), u + c.net.Offset(port))
  {
    hide Skew, Net.Links, Net.Reach, Net.IsBare, Net.Size;
  }

  lemma OnlyChild(n: Net, port: nat)
    requires n.Slave? && n.Links() <= 2 && IsDownPort(port) && n.At(port).Slave?
    ensures port == n.Down() && n.Offset(port) == 1 && n.Links() == 2
  {
  }

  lemma LinePasses(n: Net, port: nat, t: int)
    requires n.Slave? && n.Links() <= 2 && IsDownPort(port) && n.At(port).Slave?
    ensures n.Leaves(port, t) == t && n.Leaves(0, t) == n.At(port).Back(t)
  {
  }

  lemma LineContinues(c: Place, u: nat, p: Place, i: nat, port: nat)
    requires OnLine(c, u, p, i) && !p.net.dc && p.net.Links() <= 2 && 0 < p.up
    requires IsDownPort(port) && p.net.At(port).Slave?
    ensures OnLine(c, u, Child(p, i, port), i + 1) && p.net.Offset(port) == 1
  {
    OnlyChild(p.net, port);
    LinePasses(p.net, port, p.entry);
    hide Skew, Net.Links, Net.Size, Net.Offset;
  }

  /** Every slave that has a slave with a clock above it lies on a line below the nearest one. */
  lemma {:induction false} LineLeadsUp(root: Net, i: nat)
    requires root.Slave? && SplitsHaveClocks(root) && 1 <= i <= root.Size() && SlaveAt(root, i).up > 0
    ensures var u := SlaveAt(root, i).up;
            u < i && OnLine(SlaveAt(root, u), u, SlaveAt(root, i), i)
  {
    hide SlaveAt, OnLine, Net.Links, Net.Size, Net.Reach;
    var q, port := ParentOfSlave(root, i);
    var p := SlaveAt(root, q);
    assert p.net.dc || p.net.Links() <= 2;
    if p.net.dc {
      StartsLine(p, q, port);
    } else {
      LineLeadsUp(root, q);
      LineContinues(SlaveAt(root, p.up), p.up, p, q, port);
    }
  }

  /** Above a slave that has no slave with a clock above it, and before it, there is none. */
  lemma {:induction false} NoneBefore(root: Net, i: nat)
    requires root.Slave? && SplitsHaveClocks(root) && 1 <= i <= root.Size() && SlaveAt(root, i).up == 0
    ensures SlaveAt(root, i).skew == 0
    ensures forall k | 1 <= k < i :: !SlaveAt(root, k).net.dc
  {
    hide SlaveAt, Net.Size, Net.Back, Net.Leaves, Skew;
    if i > 1 {
      var q, port := ParentOfSlave(root, i);
      var p := SlaveAt(root, q);
      assert !p.net.dc && p.up == 0;
      NoneBefore(root, q);
      OnlyChild(p.net, port);
    }
  }

  /** `d` slaves down a line. */
  lemma {:induction false} DownTheLine(root: Net, u: nat, port: nat, d: nat)
    requires root.Slave? && SplitsHaveClocks(root) && 1 <= u <= root.Size() && IsDownPort(port)
    requires var n := SlaveAt(root, u).net; n.Slave? && n.dc && n.At(port).Slave? && d <= n.At(port).Reach()
    ensures var n := SlaveAt(root, u).net;
            var i := u + n.Offset(port) + d;
            i <= root.Size() && SlaveAt(root, i).up == u && SlaveAt(root, i).via == port &&
            n.At(port).Reach() == d + SlaveAt(root, i).net.Reach()
  {
    hide SlaveAt, Net.Size, Net.Back, Net.Leaves, Skew, Net.Links;
    var n := SlaveAt(root, u).net;
    if d == 0 {
      ChildOfSlave(root, u, port);
    } else {
      DownTheLine(root, u, port, d - 1);
      var i := u + n.Offset(port) + d - 1;
      NextOnLine(root, i);
    }
  }

  /** A slave without a clock that is not the end of its line is followed by the next one. */
  lemma NextOnLine(root: Net, i: nat)
    requires root.Slave? && SplitsHaveClocks(root) && 1 <= i <= root.Size()
    requires var n := SlaveAt(root, i).net; n.Slave? && !n.dc && n.Links() != 1
    ensures var p := SlaveAt(root, i);
            i < root.Size() && p.net.At(p.net.Down()).Slave? && p.net.Offset(p.net.Down()) == 1 &&
            SlaveAt(root, i + 1) == Child(p, i, p.net.Down()) &&
            p.net.Reach() == 1 + SlaveAt(root, i + 1).net.Reach()
  {
    hide SlaveAt, Net.Back, Net.Leaves, Skew, Net.Size;
    var n := SlaveAt(root, i).net;
    ChildOfSlave(root, i, n.Down());
    OnlyChild(n, n.Down());
  }

  /** The slave at which the line behind `port` of slave `u` ends is the one that lies on that line and has no
      line in front of it. */
  lemma LineEnds(root: Net, u: nat, port: nat, i: nat)
    requires root.Slave? && SplitsHaveClocks(root) && 1 <= u < i <= root.Size() && IsDownPort(port)
    requires SlaveAt(root, u).net.Slave? && SlaveAt(root, u).net.dc
    ensures var n := SlaveAt(root, u).net;
            var p := SlaveAt(root, i);
            n.At(port).Slave? && u + n.Offset(port) + n.At(port).Reach() == i
            <==> p.up == u && p.via == port && p.net.Reach() == 0
  {
    hide SlaveAt, Net.Back, Net.Leaves, Skew, Net.Size, Net.Reach;
    var n := SlaveAt(root, u).net;
    var p := SlaveAt(root, i);
    if n.At(port).Slave? && u + n.Offset(port) + n.At(port).Reach() == i {
      DownTheLine(root, u, port, n.At(port).Reach());
    }
    if p.up == u {
      LineLeadsUp(root, i);
    }
  }
}

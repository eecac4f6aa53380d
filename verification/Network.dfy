/** An EtherCAT segment as a tree, and what a frame does on its way through it.

    A frame enters a slave at port 0, leaves through ports 3, 1 and 2 in that order (skipping
    ports without a link), and goes back out of port 0. Every port latches the local time at
    which the frame is received on it: port 0 on entry, the others when the frame comes back. */
module Network {

  /** What is attached to a port of the slave above.
      `fwd` and `ret` are the travel times to the slave and back from it, `dc` says whether the slave has a
      clock, `clock` is the offset of its local time, and `stale` is whatever an unused port has in its time
      register. */
  datatype Net =
    | Closed(stale: int)
    | Slave(dc: bool, fwd: nat, ret: nat, clock: int, p3: Net, p1: Net, p2: Net)
  {
    /** Number of slaves. */
    function Size(): nat {
      if Closed? then 0 else 1 + p3.Size() + p1.Size() + p2.Size()
    }

    /** Time at which a frame that leaves the port above at time `t` is received there again. */
    function Back(t: int): (back: int)
      ensures t <= back
    {
      if Closed? then t else p2.Back(p1.Back(p3.Back(t + fwd))) + ret
    }

    /** What hangs on a port; port 0 leads up and is never asked for. */
    function At(port: nat): Net
      requires Slave?
    {
      if port == 3 then p3 else if port == 1 then p1 else p2
    }

    /** How far behind a slave the child on `port` comes in the processing order. */
    function Offset(port: nat): nat
      requires Slave?
    {
      1 + (if port == 3 then 0 else if port == 1 then p3.Size() else p3.Size() + p1.Size())
    }

    /** Time at which a frame that entered the slave at `t` is handed to `port`; port 0 is last. */
    function Leaves(port: nat, t: int): (out: int)
      requires Slave?
      ensures t <= out
    {
      if port == 3 then t
      else if port == 1 then p3.Back(t)
      else if port == 2 then p1.Back(p3.Back(t))
      else p2.Back(p1.Back(p3.Back(t)))
    }

    /** Number of links that are up: the one towards the master and one for each child. */
    function Links(): nat {
      if Closed? then 0 else 1 + p3.Up() + p1.Up() + p2.Up()
    }

    /** 1 for a port with a slave behind it. */
    function Up(): nat {
      if Slave? then 1 else 0
    }

    /** The first port with a slave behind it. */
    function Down(): nat
      requires Slave?
    {
      if p3.Slave? then 3 else if p1.Slave? then 1 else 2
    }

    /** How many slaves without a clock follow each other down the line before the first slave with a clock or
        the end of the line. */
    function Reach(): (k: nat)
      ensures Slave? ==> k < Size()
    {
      if Closed? || dc || Links() == 1 then 0 else 1 + At(Down()).Reach()
    }

    /** The line ends without a slave with a clock. */
    predicate IsBare() {
      Closed? || (!dc && (Links() == 1 || At(Down()).IsBare()))
    }
  }

  predicate IsDownPort(port: nat) {
    port == 1 || port == 2 || port == 3
  }

  /** One slave, with the truth about it: its parent's number, the parent's port it hangs on, and when the
      frame enters it. `up` is the number of the nearest slave above it with a clock (0 if there is none), `via`
      the port of that slave it is reached through, and `there` and `back` the travel times from that slave and
      back to it. `skew` is what halving the round trips gets wrong on the way to the slave. */
  datatype Place = Place(net: Net, parent: nat, port: nat, entry: int,
                         up: nat, via: nat, there: nat, back: nat, skew: int)

  /** All slaves from the one at `p` on in the order in which the frame enters them; `p` has number `index`. */
  function Places(p: Place, index: nat): (s: seq<Place>)
    requires p.net.Slave?
    ensures |s| == p.net.Size() && s[0] == p
    decreases p.net, 1
  {
    [p] + Branch(p, index, 3) + Branch(p, index, 1) + Branch(p, index, 2)
  }

  /** The slaves behind `port` of the slave at `p`, which has number `index`. */
  function Branch(p: Place, index: nat, port: nat): (s: seq<Place>)
    requires p.net.Slave?
    ensures |s| == p.net.At(port).Size()
    ensures p.net.At(port).Slave? ==> s[0] == Child(p, index, port)
    decreases p.net, 0
  {
    if p.net.At(port).Closed? then [] else Places(Child(p, index, port), index + p.net.Offset(port))
  }

  /** The child on `port` of the slave at `p`, which has number `index`. */
  function Child(p: Place, index: nat, port: nat): Place
    requires p.net.Slave? && p.net.At(port).Slave?
  {
    var kid := p.net.At(port);
    var up := if p.net.dc then index else p.up;
    var via := if p.net.dc then port else p.via;
    var there := (if p.net.dc then 0 else p.there) + kid.fwd;
    var back := (if p.net.dc then 0 else p.back) + kid.ret;
    Place(kid, index, port, p.net.Leaves(port, p.entry) + kid.fwd, up, via, there, back,
          p.skew + if kid.dc && up > 0 then Skew(there, back) else 0)
  }

  /** The part of the way to a slave that half of the round trip gets wrong. */
  function Skew(there: nat, back: nat): int {
    (there + back) / 2 - there
  }

  /** Slave 1. Time runs from the moment the frame enters it, and the link to the master does not count. */
  function First(root: Net): Place {
    Place(root, 0, 0, 0, 0, 0, 0, 0, 0)
  }

  /** A whole network, slave 1 first. */
  function Segment(root: Net): (s: seq<Place>)
    requires root.Slave?
    ensures |s| == root.Size() && s[0] == First(root)
  {
    Places(First(root), 1)
  }

  /** Slave number `i`. */
  function SlaveAt(root: Net, i: nat): (p: Place)
    requires root.Slave? && 1 <= i <= root.Size()
    ensures i == 1 ==> p == First(root)
  {
    Segment(root)[i - 1]
  }

  /** The listing of a slave holds the listing of each of its branches. */
  lemma {:induction false} BranchIsListed(p: Place, index: nat, down: nat)
    requires p.net.Slave? && IsDownPort(down)
    ensures var s := Places(p, index);
            var o := p.net.Offset(down);
            o + p.net.At(down).Size() <= |s| && s[o..o + p.net.At(down).Size()] == Branch(p, index, down)
  {
  }

  /** The port whose branch holds entry `k` of a listing. */
  function PortOf(n: Net, k: nat): (down: nat)
    requires 0 < k < n.Size()
    ensures IsDownPort(down) && n.Offset(down) <= k < n.Offset(down) + n.At(down).Size()
  {
    if k < n.Offset(1) then 3 else if k < n.Offset(2) then 1 else 2
  }

  /** Entry `k` of a listing that starts at number `index` has its child on `down`, if there is
      one, where the sizes of the branches before it say. */
  ghost predicate ListsChild(s: seq<Place>, index: nat, k: nat, down: nat)
    requires k < |s|
  {
    s[k].net.Slave? &&
    (s[k].net.At(down).Slave? ==>
       var j := k + s[k].net.Offset(down);
       j < |s| && s[j] == Child(s[k], index + k, down))
  }

  /** Entry `k` of a listing that starts at number `index` is the child of an earlier entry. */
  ghost predicate ListsParent(s: seq<Place>, index: nat, k: nat)
    requires k < |s|
  {
    var p := s[k].parent - index;
    0 <= p < k && IsDownPort(s[k].port) && s[p].net.Slave? &&
    s[p].net.At(s[k].port).Slave? && k == p + s[p].net.Offset(s[k].port)
  }

  lemma {:induction false} ChildIsListed(p: Place, index: nat, k: nat, down: nat)
    requires p.net.Slave? && k < p.net.Size() && IsDownPort(down)
    ensures ListsChild(Places(p, index), index, k, down)
    decreases p.net
  {
    hide Places, Skew, Net.Back, Net.Leaves, Net.Offset, Net.Reach;
    var s := Places(p, index);
    if k == 0 {
      BranchIsListed(p, index, down);
    } else {
      var via := PortOf(p.net, k);
      var o := p.net.Offset(via);
      var branch := Branch(p, index, via);
      ChildIsListed(Child(p, index, via), index + o, k - o, down);
      BranchIsListed(p, index, via);
      assert o + |branch| <= |s| && s[o..o + |branch|] == branch && o <= k < o + |branch|;
      assert ListsChild(branch, index + o, k - o, down);
      ListsChildInBranch(s, index, o, branch, k, down);
    }
  }

  lemma ListsChildInBranch(s: seq<Place>, index: nat, o: nat, branch: seq<Place>, k: nat, down: nat)
    requires o + |branch| <= |s| && s[o..o + |branch|] == branch && o <= k < o + |branch|
    requires ListsChild(branch, index + o, k - o, down)
    ensures ListsChild(s, index, k, down)
  {
    assert forall i | 0 <= i < |branch| :: s[o + i] == branch[i];
    assert s[k] == branch[k - o];
    assert s[k].net.At(down).Slave? ==> s[o + (k - o + s[k].net.Offset(down))] == branch[k - o + s[k].net.Offset(down)];
  }

  lemma {:induction false} ParentIsListed(p: Place, index: nat, k: nat)
    requires 0 < k < p.net.Size()
    ensures ListsParent(Places(p, index), index, k)
    decreases p.net
  {
    hide Places;
    var s := Places(p, index);
    var via := PortOf(p.net, k);
    var o := p.net.Offset(via);
    var branch := Branch(p, index, via);
    BranchIsListed(p, index, via);
    assert o + |branch| <= |s| && s[o..o + |branch|] == branch && o <= k < o + |branch|;
    if k > o {
      ParentIsListed(Child(p, index, via), index + o, k - o);
      assert ListsParent(branch, index + o, k - o);
      ListsParentInBranch(s, index, o, branch, k);
    } else {
      assert s[k] == branch[0] == Child(p, index, via) && s[0].net == p.net;
      assert s[k].parent == index && s[k].port == via;
    }
  }

  lemma ListsParentInBranch(s: seq<Place>, index: nat, o: nat, branch: seq<Place>, k: nat)
    requires o + |branch| <= |s| && s[o..o + |branch|] == branch && o <= k < o + |branch|
    requires ListsParent(branch, index + o, k - o)
    ensures ListsParent(s, index, k)
  {
    assert forall i | 0 <= i < |branch| :: s[o + i] == branch[i];
    assert s[k] == branch[k - o];
    assert s[s[k].parent - index] == branch[s[k].parent - (index + o)];
  }

  /** Every slave but the first hangs on a port of an earlier slave, right behind the branches on
      the ports before. */
  lemma ParentOfSlave(root: Net, i: nat) returns (q: nat, port: nat)
    requires root.Slave? && 1 < i <= root.Size()
    ensures q == SlaveAt(root, i).parent && port == SlaveAt(root, i).port
    ensures 1 <= q < i && IsDownPort(port) && SlaveAt(root, q).net.Slave?
    ensures var p := SlaveAt(root, q);
            p.net.At(port).Slave? && i == q + p.net.Offset(port) &&
            SlaveAt(root, i) == Child(p, q, port)
  {
    hide Places;
    ParentIsListed(First(root), 1, i - 1);
    q, port := SlaveAt(root, i).parent, SlaveAt(root, i).port;
    ChildIsListed(First(root), 1, q - 1, port);
  }

  /** What hangs on a port of slave `k` is the slave whose number the branches before say. */
  lemma ChildOfSlave(root: Net, k: nat, down: nat)
    requires root.Slave? && 1 <= k <= root.Size() && IsDownPort(down)
    ensures var p := SlaveAt(root, k);
            p.net.Slave? &&
            (p.net.At(down).Slave? ==>
               k + p.net.Offset(down) <= root.Size() &&
               SlaveAt(root, k + p.net.Offset(down)) == Child(p, k, down))
  {
    hide Places;
    ChildIsListed(First(root), 1, k - 1, down);
  }
}

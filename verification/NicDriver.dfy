/** Frame buffers of the network driver: an index allocator, and a receive side that sorts frames
    into the buffers of their own indices whatever order they come in. */
module NicDriver {
  import opened Basics

  const MAXBUF: nat := 16
  const NOFRAME: int := -1
  const OTHERFRAME: int := -2

  datatype BufStat = Empty | Alloc | Tx | Rcvd | Complete

  datatype Cmd = Lrd | Lwr | Lrw | Frmw | Other

  datatype Datagram = Datagram(cmd: Cmd, addr: nat, data: seq<byte>, wkc: nat)

  datatype Frame = Frame(index: nat, first: Datagram, more: seq<Datagram>)
  {
    /** The counter that the driver reports: the one of the last datagram. */
    function Wkc(): nat {
      if more == [] then first.wkc else more[|more| - 1].wkc
    }
  }

  /** What the socket delivers. */
  datatype Packet = Foreign | Ecat(frame: Frame)

  /** The first frame with an index in a sequence of arrivals. */
  function Find(wire: seq<Packet>, idx: nat): (f: Option<Frame>)
    ensures f.Some? ==> f.value.index == idx && Ecat(f.value) in wire
  {
    if wire == [] then None
    else if wire[0].Ecat? && wire[0].frame.index == idx then Some(wire[0].frame)
    else Find(wire[1..], idx)
  }

  /** At most one frame in the sequence has this index. */
  ghost predicate Unique(wire: seq<Packet>, idx: nat) {
    forall i, j | 0 <= i < j < |wire| && wire[i].Ecat? && wire[j].Ecat? ::
      !(wire[i].frame.index == idx && wire[j].frame.index == idx)
  }

  lemma {:induction false} FindOnly(wire: seq<Packet>, idx: nat, f: Frame)
    requires Unique(wire, idx) && f.index == idx && Ecat(f) in wire
    ensures Find(wire, idx) == Some(f)
  {
    var i :| 0 <= i < |wire| && wire[i] == Ecat(f);
    if i > 0 {
      assert wire[1..][i - 1] == Ecat(f);
      FindOnly(wire[1..], idx, f);
    }
  }

  /** What is found does not depend on the order of arrival. */
  lemma FindPermuted(a: seq<Packet>, b: seq<Packet>, idx: nat)
    requires multiset(a) == multiset(b) && Unique(a, idx) && Unique(b, idx)
    ensures Find(a, idx) == Find(b, idx)
  {
    assert forall p :: p in a <==> p in multiset(a);
    assert forall p :: p in b <==> p in multiset(b);
    if Find(a, idx).Some? {
      FindOnly(b, idx, Find(a, idx).value);
    } else if Find(b, idx).Some? {
      FindOnly(a, idx, Find(b, idx).value);
    }
  }

  /** How many steps the search needs from index `start` to index `i`. */
  function Distance(start: nat, i: nat): nat
    requires start < MAXBUF && i < MAXBUF
  {
    if start <= i then i - start else i + MAXBUF - start
  }

  class Port {
    const rxbufstat: array<BufStat>
    const rxbuf: array<Frame>
    var lastidx: nat
    /** The packets that the socket will still deliver. */
    var wire: seq<Packet>

    ghost predicate Valid()
      reads this
    {
      rxbufstat.Length == MAXBUF && rxbuf.Length == MAXBUF && lastidx < MAXBUF
    }

    constructor ()
      ensures Valid() && fresh(rxbufstat) && fresh(rxbuf)
      ensures lastidx == 0 && wire == [] && forall i | 0 <= i < MAXBUF :: rxbufstat[i] == Empty
    {
      rxbufstat := new BufStat[MAXBUF](_ => Empty);
      rxbuf := new Frame[MAXBUF](_ => Frame(0, Datagram(Other, 0, [], 0), []));
      lastidx := 0;
      wire := [];
    }

    /** Allocates the next index in cyclic order whose buffer is empty. If none is, the search comes
        back to where it started and that buffer is used again. */
    method GetIndex() returns (idx: nat)
      requires Valid()
      modifies this`lastidx, rxbufstat
      ensures Valid() && idx < MAXBUF && lastidx == idx
      ensures rxbufstat[..] == old(rxbufstat[..])[idx := Alloc]
      ensures var next := if old(lastidx) + 1 >= MAXBUF then 0 else old(lastidx) + 1;
              if exists i | 0 <= i < MAXBUF :: old(rxbufstat[i]) == Empty then
                old(rxbufstat[idx]) == Empty &&
                forall i | 0 <= i < MAXBUF && old(rxbufstat[i]) == Empty :: Distance(next, idx) <= Distance(next, i)
              else idx == next
    {
      idx := lastidx + 1;
      if idx >= MAXBUF {
        idx := 0;
      }
      var cnt := 0;
      ghost var next := idx;
      while rxbufstat[idx] != Empty && cnt < MAXBUF
        invariant idx < MAXBUF && 0 <= cnt <= MAXBUF
        invariant if cnt < MAXBUF then Distance(next, idx) == cnt else idx == next
        invariant forall i | 0 <= i < MAXBUF && Distance(next, i) < cnt :: rxbufstat[i] != Empty
      {
        idx := idx + 1;
        cnt := cnt + 1;
        if idx >= MAXBUF {
          idx := 0;
        }
      }
      rxbufstat[idx] := Alloc;
      lastidx := idx;
    }

    method SetBufStat(idx: nat, stat: BufStat)
      requires Valid() && idx < MAXBUF
      modifies rxbufstat
      ensures rxbufstat[..] == old(rxbufstat[..])[idx := stat]
    {
      rxbufstat[idx] := stat;
    }

    /** A frame with index `idx` is expected, and `full` is everything that arrives from the time
        it was sent: either it has been put aside already, or the packets that are still to come
        say what will become of it. */
    ghost predicate Pending(idx: nat, full: seq<Packet>)
      requires Valid()
      reads this, rxbufstat, rxbuf
    {
      idx < MAXBUF &&
      ((rxbufstat[idx] == Rcvd && Find(full, idx) == Some(rxbuf[idx])) ||
       (rxbufstat[idx] == Tx && Find(full, idx) == Find(wire, idx)))
    }

    /** Looks for a frame once: in its buffer, or else among the arrivals. A frame with another
        index is put into that index's buffer if it is expected there, otherwise dropped. */
    method InFrame(idx: nat, ghost full: seq<Packet>) returns (rval: int)
      requires Valid() && Pending(idx, full)
      modifies this`wire, rxbufstat, rxbuf
      ensures Valid() && |wire| <= |old(wire)|
      ensures forall j | 0 <= j < MAXBUF && j != idx && old(Pending(j, full)) :: Pending(j, full)
      ensures forall j | 0 <= j < MAXBUF && j != idx ::
                rxbufstat[j] == old(rxbufstat[j]) || (old(rxbufstat[j]) == Tx && rxbufstat[j] == Rcvd)
      ensures rval > NOFRAME ==>
                rxbufstat[idx] == Complete && Find(full, idx) == Some(rxbuf[idx]) && rval == rxbuf[idx].Wkc()
      ensures rval <= NOFRAME ==>
                Pending(idx, full) && rxbufstat[idx] == Tx &&
                if old(wire) == [] then rval == -1 && wire == [] else rval == -2 && |wire| < |old(wire)|
    {
      rval := NOFRAME;
      if rxbufstat[idx] == Rcvd {
        rval := rxbuf[idx].Wkc();
        rxbufstat[idx] := Complete;
      } else if wire != [] {
        var packet := wire[0];
        wire := wire[1..];
        rval := OTHERFRAME;
        if packet.Ecat? {
          var idxf := packet.frame.index;
          if idxf == idx {
            rxbuf[idx] := packet.frame;
            rval := rxbuf[idx].Wkc();
            rxbufstat[idx] := Complete;
          } else if idxf < MAXBUF && rxbufstat[idxf] == Tx {
            rxbuf[idxf] := packet.frame;
            rxbufstat[idxf] := Rcvd;
          }
        }
      }
    }

    /** Waits for a frame. The timer runs out when nothing more arrives. */
    method WaitInFrame(idx: nat, ghost full: seq<Packet>) returns (wkc: int)
      requires Valid() && Pending(idx, full)
      modifies this`wire, rxbufstat, rxbuf
      ensures Valid()
      ensures forall j | 0 <= j < MAXBUF && j != idx && old(Pending(j, full)) :: Pending(j, full)
      ensures forall j | 0 <= j < MAXBUF && j != idx ::
                rxbufstat[j] == old(rxbufstat[j]) || (old(rxbufstat[j]) == Tx && rxbufstat[j] == Rcvd)
      ensures wkc > NOFRAME <==> Find(full, idx).Some?
      ensures wkc > NOFRAME ==> Find(full, idx) == Some(rxbuf[idx]) && wkc == rxbuf[idx].Wkc()
      ensures wkc <= NOFRAME ==> rxbufstat[idx] == Empty
    {
      wkc := InFrame(idx, full);
      while wkc <= NOFRAME && wire != []
        invariant Valid()
        invariant forall j | 0 <= j < MAXBUF && j != idx && old(Pending(j, full)) :: Pending(j, full)
        invariant forall j | 0 <= j < MAXBUF && j != idx ::
                    rxbufstat[j] == old(rxbufstat[j]) || (old(rxbufstat[j]) == Tx && rxbufstat[j] == Rcvd)
        invariant wkc <= NOFRAME ==> Pending(idx, full) && rxbufstat[idx] == Tx
        invariant wkc > NOFRAME ==> Find(full, idx) == Some(rxbuf[idx]) && wkc == rxbuf[idx].Wkc()
        decreases |wire|, if wkc <= NOFRAME then 1 else 0
      {
        wkc := InFrame(idx, full);
      }
      if wkc <= NOFRAME {
        SetBufStat(idx, Empty);
      }
    }
  }
}

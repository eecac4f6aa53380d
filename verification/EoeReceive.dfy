/** What the receiver of one whole frame accepts, and frames with a time stamp. */
module EoeReceive {
  import opened Basics
  import opened Eoe
  import opened EoeReassembly

  // ----- What is accepted.

  /** Fragment `k` has number `k`, or 0, the frame number of the first one, and the offset at which the ones before
      it end. The fields are bits 0 to 5, 6 to 11 and 12 to 15 of the second word. */
  ghost predicate InPlace(fs: seq<Fragment>, k: nat)
    requires k < |fs|
  {
    (fs[k].info2 % 64 == 0 || fs[k].info2 % 64 == k) &&
    (k > 0 ==> fs[k].info2 / 4096 % 16 == fs[0].info2 / 4096 % 16 &&
               fs[k].info2 / 64 % 64 * 32 == |Join(fs[..k])|)
  }

  ghost predicate Adjoin(fs: seq<Fragment>, port: nat, size: nat) {
    |fs| <= 256 && |Join(fs)| <= size && (forall k | 0 <= k < |fs| :: InPlace(fs, k)) &&
    (fs != [] ==> fs[0].info1 / 16 % 16 == port && fs[0].info2 / 64 % 64 * 32 <= size)
  }

  /** `acc` is what the receiver has stored. */
  ghost predicate Holding(rx: Rx, acc: seq<Fragment>, port: nat, size: nat) {
    Adjoin(acc, port, size) && rx.data == Join(acc) && rx.fragNo == |acc| % 256 &&
    (acc != [] ==> rx.frameNo == acc[0].info2 / 4096 % 16)
  }

  /** One fragment that is accepted is stored, unless it does not fit the buffer. */
  lemma StoresOne(rx: Rx, acc: seq<Fragment>, f: Fragment, port: nat, size: nat) returns (acc': seq<Fragment>)
    requires Holding(rx, acc, port, size) && Acceptable(rx, f, port, size)
    ensures Holding(Store(Start(rx, f), f, size), acc', port, size)
    ensures var kept := if rx.fragNo == 0 then [] else acc;
            acc' == if |Join(kept)| + |f.data| <= size then kept + [f] else kept
  {
    hide Join;
    NothingRead();
    var kept := if rx.fragNo == 0 then [] else acc;
    JoinAppend(kept, f);
    if |Join(kept)| + |f.data| <= size {
      acc' := kept + [f];
      forall k | 0 <= k < |acc'| ensures InPlace(acc', k) {
        assert k < |kept| ==> InPlace(kept, k);
        assert acc'[..k] == kept[..k];
        assert kept[..|kept|] == kept;
      }
    } else {
      acc' := kept;
    }
  }

  /** The first `n` messages are fragments, and only the last of them ends a frame. */
  ghost predicate UpToLast(msgs: seq<Mail>, n: nat) {
    n < |msgs| && (forall k | 0 <= k <= n :: msgs[k].EoeMail?) && msgs[n].fragment.info1 / 256 % 2 == 1 &&
    forall k | 0 <= k < n :: msgs[k].fragment.info1 / 256 % 2 == 0
  }

  /** A received frame consists of adjoining fragments of one frame number and of nothing else, and reading ends with
      the first last fragment. Four bytes of the size are taken off, in 16 bits, if that has a time stamp. */
  lemma {:induction false} ReceivedAdjoins(msgs: seq<Mail>, port: nat, size: nat, rx: Rx, acc: seq<Fragment>)
    returns (fs: seq<Fragment>, n: nat)
    requires Holding(rx, acc, port, size) && Received(msgs, port, size, rx).Done?
    ensures Adjoin(fs, port, size) && Received(msgs, port, size, rx).data == Join(fs) && UpToLast(msgs, n)
    ensures Received(msgs, port, size, rx).size ==
              if msgs[n].fragment.info1 / 512 % 2 == 1 then (|Join(fs)| - 4) % 0x1_0000 else |Join(fs)|
    ensures forall f | f in fs :: f in acc || EoeMail(f) in msgs
    decreases |msgs|
  {
    hide Acceptable, Store, Start, Join, Adjoin;
    var f := msgs[0].fragment;
    var acc' := StoresOne(rx, acc, f, port, size);
    var rx' := Store(Start(rx, f), f, size);
    assert msgs[0] == EoeMail(f);
    if LastGet(f.info1) {
      fs, n := acc', 0;
    } else {
      var m;
      fs, m := ReceivedAdjoins(msgs[1..], port, size, rx', acc');
      n := m + 1;
      LaterLast(msgs, m);
      assert forall g | EoeMail(g) in msgs[1..] :: EoeMail(g) in msgs;
    }
  }

  lemma LaterLast(msgs: seq<Mail>, m: nat)
    requires msgs != [] && msgs[0].EoeMail? && msgs[0].fragment.info1 / 256 % 2 == 0 && UpToLast(msgs[1..], m)
    ensures UpToLast(msgs, m + 1) && msgs[m + 1] == msgs[1..][m]
  {
    forall k | 0 <= k <= m + 1 ensures msgs[k].EoeMail? && (k <= m ==> msgs[k].fragment.info1 / 256 % 2 == 0) {
      assert k > 0 ==> msgs[k] == msgs[1..][k - 1];
    }
  }

  /** ... from the start. */
  lemma WholeFrameAdjoins(msgs: seq<Mail>, port: nat, size: nat) returns (fs: seq<Fragment>, n: nat)
    requires Received(msgs, port, size, Rx(0, 0, [])).Done?
    ensures Adjoin(fs, port, size) && Received(msgs, port, size, Rx(0, 0, [])).data == Join(fs) && UpToLast(msgs, n)
    ensures Received(msgs, port, size, Rx(0, 0, [])).size ==
              if msgs[n].fragment.info1 / 512 % 2 == 1 then (|Join(fs)| - 4) % 0x1_0000 else |Join(fs)|
    ensures forall f | f in fs :: EoeMail(f) in msgs
  {
    NothingRead();
    fs, n := ReceivedAdjoins(msgs, port, size, Rx(0, 0, []), []);
  }

  /** What the receiver does with a message that it does not accept. */
  lemma Refuses(msgs: seq<Mail>, port: nat, size: nat, rx: Rx)
    ensures msgs == [] ==> Received(msgs, port, size, rx) == Failed(TIMEOUT)
    ensures msgs != [] && msgs[0].OtherMail? ==> Received(msgs, port, size, rx) == Failed(PACKET_ERROR)
    ensures msgs != [] && msgs[0].EoeMail? ==>
              var info1, info2 := msgs[0].fragment.info1, msgs[0].fragment.info2;
              (info2 % 64 != rx.fragNo && info2 % 64 != 0) ||
              (rx.fragNo == 0 && (info1 / 16 % 16 != port || info2 / 64 % 64 * 32 > size)) ||
              (rx.fragNo != 0 && (info2 / 4096 % 16 != rx.frameNo || info2 / 64 % 64 * 32 != |rx.data|)) ==>
                Received(msgs, port, size, rx) == Failed(INVALID_RX_DATA)
  {
  }

  // ----- Time stamps.

  /** The fragments of a frame with four more bytes, the time stamp, in the last one. */
  function Stamped(fs: seq<Fragment>, stamp: seq<byte>): (s: seq<Fragment>)
    requires fs != []
    ensures |s| == |fs|
  {
    var last := fs[|fs| - 1];
    fs[..|fs| - 1] + [Fragment(last.info1 + 0x200, last.info2, last.data + stamp)]
  }

  lemma StampFlags(info1: nat)
    requires !TimeAppended(info1)
    ensures TimeAppended(info1 + 0x200) && (LastGet(info1 + 0x200) <==> LastGet(info1))
    ensures PortGet(info1 + 0x200) == PortGet(info1)
  {
    hide PortGet, LastGet;
    StampFlag(info1);
    StampLast(info1);
    StampPort(info1);
  }

  lemma StampFlag(info1: nat)
    requires !TimeAppended(info1)
    ensures TimeAppended(info1 + 0x200)
  {
    assert (info1 + 0x200) / 512 == info1 / 512 + 1;
  }

  lemma StampLast(info1: nat)
    ensures LastGet(info1 + 0x200) <==> LastGet(info1)
  {
    assert (info1 + 0x200) / 256 == info1 / 256 + 2;
  }

  lemma StampPort(info1: nat)
    ensures PortGet(info1 + 0x200) == PortGet(info1)
  {
    assert (info1 + 0x200) / 16 == info1 / 16 + 32;
  }

  lemma StampedRest(f: Fragment, rest: seq<Fragment>, stamp: seq<byte>)
    requires rest != []
    ensures Stamped([f] + rest, stamp) == [f] + Stamped(rest, stamp)
  {
    assert ([f] + rest)[..|rest|] == [f] + rest[..|rest| - 1];
  }

  /** After the first fragment. */
  lemma {:induction false} StampedRestIsReceived(p: seq<byte>, maxdata: nat, port: nat, frameNo: nat, off: nat, n: nat,
                                                 size: nat, stamp: seq<byte>)
    requires |stamp| == 4 && off <= |p| && |p| + 4 <= size && (maxdata >= 32 || |p| - off <= maxdata)
    requires 0 < n <= 64 && 32 * n <= off && off % 32 == 0 && LastOffset(|p|, maxdata, off) <= MAXOFFSET
    requires |p| + 4 < 0x1_0000
    ensures Received(Mailed(Stamped(Fragments(p, maxdata, port, frameNo, off, n), stamp)), port, size,
                     Rx(n, frameNo % 16, p[..off])) == Done(|p|, p + stamp)
    decreases |p| - off
  {
    hide Fragments, Mailed, Received, Acceptable, Start, Store, LastGet, TimeAppended, Stamped;
    var fs := Fragments(p, maxdata, port, frameNo, off, n);
    var f := LaterFragment(p, maxdata, port, frameNo, off, n, size);
    var rx := Rx(n, frameNo % 16, p[..off]);
    var step := FragmentSize(|p| - off, maxdata);
    if step == |p| - off {
      assert fs == [f];
      var _ := SentFragment(p, maxdata, port, frameNo, off, n);
      assert p == p[..off] + p[off..off + step];
      LastStamped(f, rx, port, size, p, stamp);
    } else {
      assert fs == [f] + fs[1..];
      StampedRest(f, fs[1..], stamp);
      assert ([f] + Stamped(fs[1..], stamp))[1..] == Stamped(fs[1..], stamp);
      ReceivedStep([f] + Stamped(fs[1..], stamp), port, size, rx);
      StampedRestIsReceived(p, maxdata, port, frameNo, off + step, n + 1, size, stamp);
    }
  }

  /** The last fragment with its time stamp. */
  lemma LastStamped(f: Fragment, rx: Rx, port: nat, size: nat, p: seq<byte>, stamp: seq<byte>)
    requires Acceptable(rx, f, port, size) && LastGet(f.info1) && !TimeAppended(f.info1)
    requires p == (if rx.fragNo == 0 then [] else rx.data) + f.data
    requires |stamp| == 4 && |p| + 4 <= size && |p| + 4 < 0x1_0000
    ensures Received(Mailed(Stamped([f], stamp)), port, size, rx) == Done(|p|, p + stamp)
  {
    hide LastGet, TimeAppended, PortGet, FragNoGet, OffsetGet, FrameNoGet, Received, Mailed;
    StampFlags(f.info1);
    var g := Fragment(f.info1 + 0x200, f.info2, f.data + stamp);
    assert [f][..0] == [] && Stamped([f], stamp) == [g];
    ReceivedStep([g], port, size, rx);
    assert Start(rx, f).data + (f.data + stamp) == Start(rx, f).data + f.data + stamp;
  }

  /** A frame with a time stamp comes back with its own size; the stamp stays behind it in the buffer. */
  lemma StampedRoundTrip(p: seq<byte>, maxdata: nat, port: nat, frameNo: nat, size: nat, stamp: seq<byte>)
    requires |p| <= MAXOFFSET && maxdata >= 32 && port < 16 && |stamp| == 4
    requires |p| + 4 <= size && (|p| + 31) / 32 * 32 <= size
    ensures Received(Mailed(Stamped(Fragments(p, maxdata, port, frameNo, 0, 0), stamp)), port, size, Rx(0, 0, []))
         == Done(|p|, p + stamp)
  {
    hide Fragments, Mailed, Received, Acceptable, Start, Store, LastGet, TimeAppended, Stamped;
    var fs := Fragments(p, maxdata, port, frameNo, 0, 0);
    var f := FirstFragment(p, maxdata, port, frameNo, size);
    var rx := Rx(0, 0, []);
    var step := FragmentSize(|p|, maxdata);
    if step == |p| {
      assert fs == [f];
      var _ := SentFragment(p, maxdata, port, frameNo, 0, 0);
      assert p == [] + p[0..step];
      LastStamped(f, rx, port, size, p, stamp);
    } else {
      assert fs == [f] + fs[1..];
      StampedRest(f, fs[1..], stamp);
      assert ([f] + Stamped(fs[1..], stamp))[1..] == Stamped(fs[1..], stamp);
      ReceivedStep([f] + Stamped(fs[1..], stamp), port, size, rx);
      StampedRestIsReceived(p, maxdata, port, NextFrameNo(frameNo, 0), step, 1, size, stamp);
    }
  }
}

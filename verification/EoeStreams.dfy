/** Several frames on their way through one reassembly: fragments of all of them arrive in any order, repeated
    or not at all. */
module EoeStreams {
  import opened Basics
  import opened Eoe
  import opened EoeReassembly

  /** A frame and how it is sent: `frameNo` is the number of the frame before. */
  datatype Sent = Sent(p: seq<byte>, maxdata: nat, port: nat, frameNo: nat)
  {
    /** The frame is cut into at most 64 fragments. */
    predicate Valid() {
      maxdata >= 32 && |p| <= MAXOFFSET
    }

    function Cut(): seq<Fragment>
      requires Valid()
    {
      Fragments(p, maxdata, port, frameNo, 0, 0)
    }

    /** The frame number as a receiver sees it. */
    function Number(): nat {
      NextFrameNo(frameNo, 0) % 16
    }
  }

  lemma {:induction false} JoinFront(f: Fragment, fs: seq<Fragment>)
    ensures Join([f] + fs) == f.data + Join(fs)
  {
    if fs == [] {
      assert [f] + fs == [f] && [f][..0] == [];
    } else {
      var n := |fs| - 1;
      JoinFront(f, fs[..n]);
      assert ([f] + fs)[..n + 1] == [f] + fs[..n];
    }
  }

  /** Fragment `k` and what the ones before it carry. */
  lemma {:induction false} FragmentAt(p: seq<byte>, maxdata: nat, port: nat, frameNo: nat, off: nat, n: nat, k: nat)
    requires off <= |p| <= MAXOFFSET && maxdata >= 32 && off % 32 == 0 && 32 * n <= off && (n == 0 ==> off == 0)
    requires k < |Fragments(p, maxdata, port, frameNo, off, n)|
    ensures var fs := Fragments(p, maxdata, port, frameNo, off, n);
            var before := Join(fs[..k]);
            FragNoGet(fs[k].info2) == n + k && FrameNoGet(fs[k].info2) == NextFrameNo(frameNo, n) % 16 &&
            (LastGet(fs[k].info1) <==> k == |fs| - 1) && before + fs[k].data <= p[off..] &&
            (if n + k > 0 then OffsetGet(fs[k].info2) * 32 == off + |before|
             else OffsetGet(fs[k].info2) * 32 >= |p|)
    decreases k
  {
    hide Fragments, FragNoGet, OffsetGet, FrameNoGet, LastGet, TimeAppended, PortGet, Join, FragmentSize, NextFrameNo;
    var fs := Fragments(p, maxdata, port, frameNo, off, n);
    var step := FragmentSize(|p| - off, maxdata);
    FirstBlock(off, n, |p|);
    StepSize(|p| - off, maxdata);
    var f := SentFragment(p, maxdata, port, frameNo, off, n);
    assert fs == [f] + fs[1..];
    if k == 0 {
      assert fs[..0] == [];
      NothingRead();
    } else {
      SameNumber(frameNo, n);
      FragmentAt(p, maxdata, port, NextFrameNo(frameNo, n), off + step, n + 1, k - 1);
      assert fs[..k] == [f] + fs[1..][..k - 1];
      JoinFront(f, fs[1..][..k - 1]);
      PrefixJoins(p, off, step, Join(fs[1..][..k - 1]), fs[k].data);
    }
  }

  lemma PrefixJoins(p: seq<byte>, off: nat, step: nat, before: seq<byte>, data: seq<byte>)
    requires off + step <= |p| && before + data <= p[off + step..]
    ensures p[off..off + step] + before + data <= p[off..]
  {
    assert p[off..] == p[off..off + step] + p[off + step..];
    assert p[off..off + step] + before + data == p[off..off + step] + (before + data);
  }

  lemma StepSize(rest: nat, maxdata: nat)
    requires maxdata >= 32
    ensures var step := FragmentSize(rest, maxdata);
            step <= rest && (step < rest ==> step % 32 == 0 && step >= 32)
  {
  }

  lemma SameNumber(frameNo: nat, n: nat)
    ensures NextFrameNo(NextFrameNo(frameNo, n), n + 1) == NextFrameNo(frameNo, n)
  {
  }

  lemma FirstBlock(off: nat, n: nat, total: nat)
    requires 32 * n <= off <= total <= MAXOFFSET && off % 32 == 0
    ensures n % 64 == n && n < 256 && off / 32 % 64 * 32 == off && total <= (total + 31) / 32 % 64 * 32
  {
  }

  lemma {:induction false} AllJoined(p: seq<byte>, maxdata: nat, port: nat, frameNo: nat, off: nat, n: nat)
    requires off <= |p| && maxdata >= 32 && n < 256
    ensures Join(Fragments(p, maxdata, port, frameNo, off, n)) == p[off..]
    decreases |p| - off
  {
    hide FragNoGet, OffsetGet, FrameNoGet, LastGet, TimeAppended, PortGet, Join, FragmentSize, NextFrameNo, Fragments;
    var fs := Fragments(p, maxdata, port, frameNo, off, n);
    var step := FragmentSize(|p| - off, maxdata);
    StepSize(|p| - off, maxdata);
    var f := SentFragment(p, maxdata, port, frameNo, off, n);
    assert fs == [f] + fs[1..];
    JoinFront(f, fs[1..]);
    assert p[off..] == p[off..off + step] + p[off + step..];
    if step < |p| - off {
      AllJoined(p, maxdata, port, NextFrameNo(frameNo, n), off + step, (n + 1) % 256);
    } else {
      NothingRead();
    }
  }

  /** The fragments of one frame, from the first to the last. */
  lemma CutAt(s: Sent, k: nat)
    requires s.Valid() && k < |s.Cut()|
    ensures var fs := s.Cut();
            FragNoGet(fs[k].info2) == k && FrameNoGet(fs[k].info2) == s.Number() &&
            (LastGet(fs[k].info1) <==> k == |fs| - 1) && |Join(fs[..k])| + |fs[k].data| <= |s.p| &&
            (if k > 0 then OffsetGet(fs[k].info2) * 32 == |Join(fs[..k])| else OffsetGet(fs[k].info2) * 32 >= |s.p|)
  {
    hide Fragments, FragNoGet, OffsetGet, FrameNoGet, LastGet, Join, NextFrameNo;
    FragmentAt(s.p, s.maxdata, s.port, s.frameNo, 0, 0, k);
    assert s.p[0..] == s.p;
    assert |Join(s.Cut()[..k]) + s.Cut()[k].data| <= |s.p|;
  }

  // ----- The reader.

  /** All frames are short enough for the reader, and their numbers differ. */
  ghost predicate Distinguishable(sent: seq<Sent>, psize: nat) {
    (forall j | 0 <= j < |sent| :: sent[j].Valid() && |sent[j].p| <= psize) &&
    forall i, j | 0 <= i < j < |sent| :: sent[i].Number() != sent[j].Number()
  }

  /** Fragment `k` of one of the frames. */
  ghost predicate IsFragment(f: Fragment, sent: seq<Sent>, j: nat, k: nat) {
    j < |sent| && sent[j].Valid() && k < |sent[j].Cut()| && f == sent[j].Cut()[k]
  }

  ghost predicate AllSent(stream: seq<Fragment>, sent: seq<Sent>) {
    forall f | f in stream :: exists j: nat, k: nat :: IsFragment(f, sent, j, k)
  }

  /** The fragments read so far are the first ones of frame `j`. */
  ghost predicate Begun(acc: seq<Fragment>, sent: seq<Sent>, j: nat) {
    j < |sent| && sent[j].Valid() && |acc| < |sent[j].Cut()| && acc == sent[j].Cut()[..|acc|]
  }

  ghost predicate OneBegun(acc: seq<Fragment>, sent: seq<Sent>) {
    acc == [] || exists j: nat :: Begun(acc, sent, j)
  }

  /** All fragments of one frame, which carry the whole frame and nothing else. */
  ghost predicate IsWhole(fs: seq<Fragment>, sent: seq<Sent>, j: nat) {
    j < |sent| && sent[j].Valid() && fs == sent[j].Cut() && Join(fs) == sent[j].p
  }

  lemma WholeFrame(sent: seq<Sent>, j: nat)
    requires j < |sent| && sent[j].Valid()
    ensures IsWhole(sent[j].Cut(), sent, j)
  {
    hide Join, Fragments;
    AllJoined(sent[j].p, sent[j].maxdata, sent[j].port, sent[j].frameNo, 0, 0);
    assert sent[j].p[0..] == sent[j].p;
  }

  /** The next fragment of the frame that has been begun. */
  lemma ReadsOn(acc: seq<Fragment>, f: Fragment, psize: nat, sent: seq<Sent>, j: nat)
    requires Distinguishable(sent, psize) && IsFragment(f, sent, j, |acc|) && (acc != [] ==> Begun(acc, sent, j))
    ensures Read(acc, f, psize) ==
              if |acc| + 1 == |sent[j].Cut()| then ([], Frame(sent[j].Cut())) else (acc + [f], More)
    ensures |acc| + 1 < |sent[j].Cut()| ==> Begun(acc + [f], sent, j)
  {
    hide FragNoGet, OffsetGet, FrameNoGet, LastGet, Join, Read, Sent.Cut, Sent.Number;
    var fs := sent[j].Cut();
    CutAt(sent[j], |acc|);
    NothingRead();
    assert fs[..|acc|] == acc && fs[..|acc| + 1] == acc + [f];
    if acc != [] {
      CutAt(sent[j], 0);
      assert acc[0] == fs[0];
    }
    ReadsNext(acc, f, psize);
    assert fs[..|fs|] == fs;
  }

  lemma ReadStep(acc: seq<Fragment>, f: Fragment, psize: nat, sent: seq<Sent>, i: nat, m: nat)
    requires Distinguishable(sent, psize) && OneBegun(acc, sent) && IsFragment(f, sent, i, m)
    ensures var (acc', verdict) := Read(acc, f, psize);
            OneBegun(acc', sent) && (verdict.Frame? ==> verdict.fragments == sent[i].Cut())
  {
    hide FragNoGet, OffsetGet, FrameNoGet, LastGet, Join, Sent.Cut, Sent.Number, HasRoom;
    CutAt(sent[i], m);
    if m == 0 {
      FirstStartsAnew(acc, f, psize);
      ReadsOn([], f, psize, sent, i);
    } else if Follows(acc, f) {
      var j: nat :| Begun(acc, sent, j);
      CutAt(sent[j], 0);
      assert acc[0] == sent[j].Cut()[0];
      assert i == j;
      ReadsOn(acc, f, psize, sent, j);
    }
  }

  /** Whatever arrives of frames with different numbers, in whatever order: every frame that is delivered is
      one of them, whole and unchanged. */
  lemma {:induction false} OnlySentFramesAreDelivered(sent: seq<Sent>, acc: seq<Fragment>, stream: seq<Fragment>,
                                                      psize: nat)
    requires Distinguishable(sent, psize) && OneBegun(acc, sent) && AllSent(stream, sent)
    ensures forall fs | fs in Delivered(acc, stream, psize) :: exists j: nat :: IsWhole(fs, sent, j)
    decreases |stream|
  {
    hide Distinguishable, OneBegun, IsFragment, IsWhole, Read, Sent.Cut;
    if stream != [] {
      var f := stream[0];
      assert f in stream && forall g | g in stream[1..] :: g in stream;
      var j: nat, k: nat :| IsFragment(f, sent, j, k);
      var (acc', verdict) := Read(acc, f, psize);
      ReadStep(acc, f, psize, sent, j, k);
      OnlySentFramesAreDelivered(sent, acc', stream[1..], psize);
      if verdict.Frame? {
        FragmentHasFrame(f, sent, j, k);
        WholeFrame(sent, j);
      }
    }
  }

  lemma FragmentHasFrame(f: Fragment, sent: seq<Sent>, j: nat, k: nat)
    requires IsFragment(f, sent, j, k)
    ensures j < |sent| && sent[j].Valid()
  {
  }

  /** Sixteen frames that are sent one after the other have different numbers. */
  lemma SixteenInARow(sent: seq<Sent>, psize: nat, first: nat)
    requires |sent| <= 16
    requires forall j | 0 <= j < |sent| ::
               sent[j].Valid() && |sent[j].p| <= psize && sent[j].frameNo == (first + j) % 256
    ensures Distinguishable(sent, psize)
  {
    forall i, j | 0 <= i < j < |sent| ensures sent[i].Number() != sent[j].Number() {
      NumberOf(first + i);
      NumberOf(first + j);
      DifferentRemainders(first + i + 1, first + j + 1);
    }
  }

  lemma NumberOf(x: nat)
    ensures NextFrameNo(x % 256, 0) % 16 == (x + 1) % 16
  {
    LowBits(x % 256 + 1);
    LowBits(x + 1);
    WrapsOnce(x);
  }

  lemma WrapsOnce(x: nat)
    ensures (x % 256 + 1) % 256 == (x + 1) % 256
  {
  }

  lemma LowBits(y: nat)
    ensures y % 256 % 16 == y % 16
  {
    var r := y % 256;
    RemainderOf16(y, 16 * (y / 256) + r / 16, r % 16);
  }

  lemma RemainderOf16(y: nat, q: nat, r: nat)
    requires y == 16 * q + r && r < 16
    ensures y % 16 == r
  {
  }

  lemma DifferentRemainders(x: nat, y: nat)
    requires x < y < x + 16
    ensures x % 16 != y % 16
  {
  }

  /** With the seventeenth frame numbers repeat, and halves of two frames are delivered as one. */
  lemma RepeatedNumbersMix(a: Sent, b: Sent)
    requires a.maxdata == b.maxdata == 32 && |a.p| == |b.p| == 64 && a.Number() == b.Number()
    ensures |a.Cut()| == |b.Cut()| == 2
    ensures var d := Delivered([], [a.Cut()[0], b.Cut()[1]], 64);
            |d| == 1 && Join(d[0]) == a.p[..32] + b.p[32..]
  {
    hide FragNoGet, OffsetGet, FrameNoGet, LastGet, TimeAppended, PortGet, Join, Read, Delivered, Fragments;
    hide NextFrameNo;
    NothingRead();
    var f := SentFragment(a.p, 32, a.port, a.frameNo, 0, 0);
    var f1 := SentFragment(a.p, 32, a.port, NextFrameNo(a.frameNo, 0), 32, 1);
    var g0 := SentFragment(b.p, 32, b.port, b.frameNo, 0, 0);
    var g := SentFragment(b.p, 32, b.port, NextFrameNo(b.frameNo, 0), 32, 1);
    SameNumber(b.frameNo, 0);
    assert f.data == a.p[..32] && g.data == b.p[32..];
    assert [] + [f] == [f] && [f] + [g] == [f, g];
    ReadsNext([], f, 64);
    assert Join([f]) == f.data;
    assert FrameNoGet(g.info2) == FrameNoGet(f.info2) && OffsetGet(f.info2) == 2;
    ReadsNext([f], g, 64);
    DeliveredNext([], f, [g], 64);
    assert [g] + [] == [g];
    DeliveredNext([f], g, [], 64);
    NothingDelivered([], 64);
  }
}

/** Reassembly of Ethernet frames fragment by fragment, from a stream in which fragments may be lost,
    repeated or mixed up. */
module EoeReassembly {
  import opened Basics
  import opened Eoe

  function Join(fs: seq<Fragment>): seq<byte> {
    if fs == [] then [] else Join(fs[..|fs| - 1]) + fs[|fs| - 1].data
  }

  /** Fragments 0, 1, 2, ... of one frame, each where the ones before it end, within the size that
      the first one announces. */
  ghost predicate Consistent(fs: seq<Fragment>) {
    (forall k | 0 <= k < |fs| :: FragNoGet(fs[k].info2) == k && FrameNoGet(fs[k].info2) == FrameNoGet(fs[0].info2)) &&
    (forall k | 0 < k < |fs| :: OffsetGet(fs[k].info2) * 32 == |Join(fs[..k])|) &&
    (fs != [] ==> |Join(fs)| <= OffsetGet(fs[0].info2) * 32)
  }

  datatype Verdict = More | Frame(fragments: seq<Fragment>) | Bad

  /** The fragments that a new one is appended to: those read so far, or none if it starts a frame. */
  function Kept(acc: seq<Fragment>, f: Fragment): seq<Fragment> {
    if |acc| == FragNoGet(f.info2) then acc else []
  }

  predicate Follows(acc: seq<Fragment>, f: Fragment) {
    (|acc| == FragNoGet(f.info2) || FragNoGet(f.info2) == 0) &&
    (Kept(acc, f) != [] ==>
       FrameNoGet(f.info2) == FrameNoGet(acc[0].info2) && |Join(acc)| == OffsetGet(f.info2) * 32)
  }

  predicate HasRoom(fs: seq<Fragment>, f: Fragment, psize: nat) {
    var frameSize := OffsetGet((if fs == [] then f else fs[0]).info2) * 32;
    |Join(fs)| + |f.data| <= frameSize && |Join(fs)| + |f.data| <= psize
  }

  function Grown(acc: seq<Fragment>, f: Fragment, psize: nat): seq<Fragment> {
    var kept := Kept(acc, f);
    if HasRoom(kept, f, psize) then kept + [f] else kept
  }

  /** One fragment: what has been read afterwards, and what the reader reports. */
  function Read(acc: seq<Fragment>, f: Fragment, psize: nat): (seq<Fragment>, Verdict) {
    if !Follows(acc, f) then ([], Bad)
    else if LastGet(f.info1) then ([], Frame(Grown(acc, f, psize)))
    else (Grown(acc, f, psize), More)
  }

  /** One fragment, field by field: bits 0 to 5 of the second word are its number, bits 6 to 11 its offset in blocks
      of 32 bytes, or the size of the frame, and bits 12 to 15 the number of the frame; bit 8 of the first word marks
      the last one. A fragment that is refused makes the reader forget everything, one that does not fit is
      skipped. */
  lemma ReadsOne(acc: seq<Fragment>, f: Fragment, psize: nat)
    ensures var number := f.info2 % 64;
            var offset := f.info2 / 64 % 64 * 32;
            var kept := if number == |acc| then acc else [];
            var room := if kept == [] then offset else acc[0].info2 / 64 % 64 * 32;
            var fits := |Join(kept)| + |f.data| <= room && |Join(kept)| + |f.data| <= psize;
            var grown := if fits then kept + [f] else kept;
            var refused :=
              (number != |acc| && number != 0) ||
              (kept != [] && (f.info2 / 4096 % 16 != acc[0].info2 / 4096 % 16 || offset != |Join(acc)|));
            Read(acc, f, psize) ==
              if refused then ([], Bad)
              else if f.info1 / 256 % 2 == 1 then ([], Frame(grown))
              else (grown, More)
  {
    hide Join;
  }

  lemma JoinAppend(fs: seq<Fragment>, f: Fragment)
    ensures Join(fs + [f]) == Join(fs) + f.data
  {
    assert (fs + [f])[..|fs|] == fs;
  }

  class Reassembly {
    var fragNo: nat
    var frameSize: nat
    var frameOffset: nat
    var frameNo: nat
    const buf: array<byte>
    /** The fragments in the buffer. */
    ghost var accepted: seq<Fragment>

    constructor (size: nat)
      ensures Valid() && accepted == [] && buf.Length == size && fresh(buf)
    {
      fragNo, frameSize, frameOffset, frameNo := 0, 0, 0, 0;
      buf := new byte[size](_ => 0);
      accepted := [];
    }

    ghost predicate Valid()
      reads this, buf
    {
      Consistent(accepted) && fragNo == |accepted| &&
      frameOffset == |Join(accepted)| <= buf.Length && buf[..frameOffset] == Join(accepted) &&
      (accepted != [] ==> frameNo == FrameNoGet(accepted[0].info2) && frameSize == OffsetGet(accepted[0].info2) * 32)
    }

    method Reset()
      modifies this`fragNo, this`frameSize, this`frameOffset, this`frameNo, this`accepted
      ensures fragNo == frameSize == frameOffset == frameNo == 0 && accepted == []
    {
      fragNo, frameSize, frameOffset, frameNo := 0, 0, 0, 0;
      accepted := [];
    }

    /** The checks before the data is touched. */
    method Check(f: Fragment) returns (ok: bool)
      requires Valid()
      modifies this`fragNo, this`frameSize, this`frameOffset, this`frameNo, this`accepted
      ensures Valid() && ok == Follows(old(accepted), f) && (ok ==> fragNo == FragNoGet(f.info2))
      ensures accepted == if ok then Kept(old(accepted), f) else []
      ensures ok && accepted == [] ==> frameSize == OffsetGet(f.info2) * 32 && frameNo == FrameNoGet(f.info2)
      ensures ok && accepted != [] ==> frameOffset == OffsetGet(f.info2) * 32 && frameNo == FrameNoGet(f.info2)
    {
      ok := true;
      if fragNo != FragNoGet(f.info2) {
        if fragNo != 0 {
          Reset();
        }
        if FragNoGet(f.info2) > 0 {
          ok := false;
          return;
        }
      }
      if fragNo == 0 {
        frameSize := OffsetGet(f.info2) * 32;
        frameOffset := 0;
        frameNo := FrameNoGet(f.info2);
      } else {
        if frameNo != FrameNoGet(f.info2) {
          Reset();
          ok := false;
        } else if frameOffset != OffsetGet(f.info2) * 32 {
          Reset();
          ok := false;
        }
      }
    }

    /** Reads one fragment; `psize` is the size of the frame buffer. A delivered frame has size
        `size`; four bytes of it are dropped if they are a time stamp. */
    method ReadFragment(mail: Mail, psize: nat) returns (wkc: int, size: nat, ghost verdict: Verdict)
      requires Valid() && psize <= buf.Length
      modifies this, buf
      ensures Valid()
      ensures mail.OtherMail? ==> wkc == PACKET_ERROR && accepted == old(accepted) && size == psize
      ensures mail.EoeMail? ==> (accepted, verdict) == Read(old(accepted), mail.fragment, psize)
      ensures mail.EoeMail? ==> (wkc == 1 <==> verdict.Frame?) && (wkc == 0 <==> verdict.More?) &&
                                (wkc == INVALID_RX_DATA <==> verdict.Bad?)
      ensures mail.EoeMail? && !verdict.Frame? ==> size == psize
      ensures mail.EoeMail? && verdict.Frame? ==>
                var data := Join(verdict.fragments);
                Consistent(verdict.fragments) && |data| <= buf.Length && buf[..|data|] == data &&
                size == if TimeAppended(mail.fragment.info1) then (|data| - 4) % 0x1_0000 else |data|
    {
      hide Consistent, Join, FragNoGet, OffsetGet, FrameNoGet, LastGet, TimeAppended, Follows, HasRoom;
      wkc, size, verdict := 0, psize, More;
      if mail.EoeMail? {
        var f := mail.fragment;
        var ok := Check(f);
        if !ok {
          verdict := Bad;
          return INVALID_RX_DATA, size, verdict;
        }
        StoreData(f, psize);
        if LastGet(f.info1) {
          verdict := Frame(accepted);
          size := if TimeAppended(f.info1) then (frameOffset - 4) % 0x1_0000 else frameOffset;
          Reset();
          NothingRead();
          wkc := 1;
        }
      } else {
        wkc := PACKET_ERROR;
      }
    }

    method StoreData(f: Fragment, psize: nat)
      requires Valid() && psize <= buf.Length && fragNo == FragNoGet(f.info2)
      requires accepted == [] ==> frameSize == OffsetGet(f.info2) * 32 && frameNo == FrameNoGet(f.info2)
      requires accepted != [] ==> frameNo == FrameNoGet(f.info2) && frameOffset == OffsetGet(f.info2) * 32
      modifies this`frameOffset, this`fragNo, this`accepted, buf
      ensures Valid() && accepted == if HasRoom(old(accepted), f, psize) then old(accepted) + [f] else old(accepted)
    {
      hide Consistent, FragNoGet, OffsetGet, FrameNoGet, Join;
      if frameOffset + |f.data| <= frameSize && frameOffset + |f.data| <= psize {
        ghost var before := buf[..frameOffset];
        forall i | 0 <= i < |f.data| {
          buf[frameOffset + i] := f.data[i];
        }
        frameOffset := frameOffset + |f.data|;
        fragNo := fragNo + 1;
        assert buf[..frameOffset] == before + f.data;
        GrowsConsistent(accepted, f);
        JoinAppend(accepted, f);
        accepted := accepted + [f];
      }
    }
  }

  lemma NothingRead()
    ensures Consistent([]) && Join([]) == []
  {
  }

  lemma GrowsConsistent(fs: seq<Fragment>, f: Fragment)
    requires Consistent(fs) && FragNoGet(f.info2) == |fs|
    requires fs != [] ==> FrameNoGet(f.info2) == FrameNoGet(fs[0].info2) && OffsetGet(f.info2) * 32 == |Join(fs)|
    requires |Join(fs)| + |f.data| <= OffsetGet((if fs == [] then f else fs[0]).info2) * 32
    ensures Consistent(fs + [f])
  {
    hide FragNoGet, OffsetGet, FrameNoGet, Join;
    JoinAppend(fs, f);
    forall k | 0 < k < |fs + [f]| ensures OffsetGet((fs + [f])[k].info2) * 32 == |Join((fs + [f])[..k])| {
      assert (fs + [f])[..k] == fs[..k];
      if k == |fs| {
        assert fs[..k] == fs;
      }
    }
  }

  // ----- Whole streams.

  lemma ReadKeepsConsistent(acc: seq<Fragment>, f: Fragment, psize: nat)
    requires Consistent(acc)
    ensures Consistent(Read(acc, f, psize).0)
    ensures Read(acc, f, psize).1.Frame? ==> Consistent(Read(acc, f, psize).1.fragments)
  {
    hide FragNoGet, OffsetGet, FrameNoGet, LastGet;
    NothingRead();
    var kept := Kept(acc, f);
    if Follows(acc, f) && HasRoom(kept, f, psize) {
      GrowsConsistent(kept, f);
    }
  }

  /** The frames that come out of a stream of fragments. */
  function Delivered(acc: seq<Fragment>, stream: seq<Fragment>, psize: nat): seq<seq<Fragment>>
    decreases |stream|
  {
    if stream == [] then [] else
      var (acc', verdict) := Read(acc, stream[0], psize);
      (if verdict.Frame? then [verdict.fragments] else []) + Delivered(acc', stream[1..], psize)
  }

  ghost predicate AllFrom(fs: seq<Fragment>, stream: seq<Fragment>) {
    forall f | f in fs :: f in stream
  }

  /** Whatever arrives, a delivered frame is made of fragments 0, 1, 2, ... of one frame number, each
      at the offset where the one before it ended, and of nothing that did not arrive. */
  lemma {:induction false} FramesAreNeverMixed(acc: seq<Fragment>, stream: seq<Fragment>, psize: nat,
                                               seen: seq<Fragment>)
    requires Consistent(acc) && AllFrom(acc, seen)
    ensures forall fs | fs in Delivered(acc, stream, psize) :: Consistent(fs) && AllFrom(fs, seen + stream)
    decreases |stream|
  {
    if stream != [] {
      var f := stream[0];
      var (acc', verdict) := Read(acc, f, psize);
      ReadKeepsConsistent(acc, f, psize);
      hide Consistent, FragNoGet, OffsetGet, FrameNoGet, LastGet, Follows, HasRoom;
      FramesAreNeverMixed(acc', stream[1..], psize, seen + [f]);
      assert seen + [f] + stream[1..] == seen + stream;
    }
  }

  // ----- Frames as they are sent.

  lemma GrownFits(acc: seq<Fragment>, f: Fragment, psize: nat)
    requires |Join(acc)| <= psize
    ensures |Join(Grown(acc, f, psize))| <= psize
  {
    JoinAppend(Kept(acc, f), f);
  }

  lemma SizeFits(fs: seq<Fragment>)
    requires Consistent(fs)
    ensures |Join(fs)| <= MAXOFFSET
  {
  }

  lemma {:induction false} FramesAreBounded(acc: seq<Fragment>, stream: seq<Fragment>, psize: nat)
    requires Consistent(acc) && |Join(acc)| <= psize
    ensures forall fs | fs in Delivered(acc, stream, psize) :: |Join(fs)| <= MAXOFFSET && |Join(fs)| <= psize
    decreases |stream|
  {
    if stream != [] {
      var f := stream[0];
      var (acc', verdict) := Read(acc, f, psize);
      ReadKeepsConsistent(acc, f, psize);
      GrownFits(acc, f, psize);
      NothingRead();
      hide Consistent, FragNoGet, OffsetGet, FrameNoGet, LastGet, Follows, HasRoom, Join, Grown;
      if verdict.Frame? {
        SizeFits(verdict.fragments);
      }
      FramesAreBounded(acc', stream[1..], psize);
    }
  }

  /** A fragment that is next in line and fits is appended. */
  lemma ReadsNext(acc: seq<Fragment>, f: Fragment, psize: nat)
    requires FragNoGet(f.info2) == |acc|
    requires acc != [] ==> FrameNoGet(f.info2) == FrameNoGet(acc[0].info2) && OffsetGet(f.info2) * 32 == |Join(acc)|
    requires |Join(acc)| + |f.data| <= psize
    requires |Join(acc)| + |f.data| <= OffsetGet((if acc == [] then f else acc[0]).info2) * 32
    ensures Read(acc, f, psize) == if LastGet(f.info1) then ([], Frame(acc + [f])) else (acc + [f], More)
    ensures Join(acc + [f]) == Join(acc) + f.data
  {
    hide FragNoGet, OffsetGet, FrameNoGet, LastGet;
    JoinAppend(acc, f);
  }

  lemma {:induction false} RestIsRead(p: seq<byte>, maxdata: nat, port: nat, frameNo: nat, off: nat, n: nat, psize: nat,
                                      acc: seq<Fragment>)
    requires off <= |p| <= MAXOFFSET && |p| <= psize && maxdata >= 32
    requires 0 < n <= 64 && 32 * n <= off && off % 32 == 0
    requires |acc| == n && Join(acc) == p[..off]
    requires FrameNoGet(acc[0].info2) == frameNo % 16 && OffsetGet(acc[0].info2) == (|p| + 31) / 32
    ensures var d := Delivered(acc, Fragments(p, maxdata, port, frameNo, off, n), psize);
            |d| == 1 && Join(d[0]) == p
    decreases |p| - off
  {
    hide Fragments, FragNoGet, OffsetGet, FrameNoGet, LastGet, Read, Join, TimeAppended, PortGet, Delivered;
    var fs := Fragments(p, maxdata, port, frameNo, off, n);
    var step := FragmentSize(|p| - off, maxdata);
    var f := SentFragment(p, maxdata, port, frameNo, off, n);
    assert p[..off] + p[off..off + step] == p[..off + step];
    LaterBlock(off, n, |p|);
    ReadsNext(acc, f, psize);
    assert fs == [f] + fs[1..];
    DeliveredNext(acc, f, fs[1..], psize);
    if step == |p| - off {
      NothingDelivered([], psize);
      assert p[..|p|] == p;
    } else {
      RestIsRead(p, maxdata, port, frameNo, off + step, n + 1, psize, acc + [f]);
    }
  }

  lemma LaterBlock(off: nat, n: nat, total: nat)
    requires 0 < n <= 64 && 32 * n <= off <= total <= MAXOFFSET && off % 32 == 0
    ensures n % 64 == n && off / 32 % 64 * 32 == off && total <= (total + 31) / 32 * 32
  {
  }

  /** A first fragment starts anew, whatever has been read before. */
  lemma FirstStartsAnew(acc: seq<Fragment>, f: Fragment, psize: nat)
    requires FragNoGet(f.info2) == 0
    ensures Read(acc, f, psize) == Read([], f, psize)
  {
  }

  lemma DeliveredAnew(acc: seq<Fragment>, stream: seq<Fragment>, psize: nat)
    requires stream != [] && FragNoGet(stream[0].info2) == 0
    ensures Delivered(acc, stream, psize) == Delivered([], stream, psize)
  {
    hide Read;
    FirstStartsAnew(acc, stream[0], psize);
  }

  /** A frame that is sent whole is delivered, alone and unchanged, if and only if it has at most 63
      blocks and fits the buffer, whatever was left over from fragments lost before. */
  lemma SentFrameIsDeliveredIff(acc: seq<Fragment>, p: seq<byte>, maxdata: nat, port: nat, frameNo: nat, psize: nat)
    requires maxdata >= 32
    ensures var d := Delivered(acc, Fragments(p, maxdata, port, frameNo, 0, 0), psize);
            |d| == 1 && Join(d[0]) == p <==> |p| <= MAXOFFSET && |p| <= psize
  {
    hide Delivered, Fragments, LastGet, TimeAppended, PortGet, FragNoGet, OffsetGet, FrameNoGet;
    var fs := Fragments(p, maxdata, port, frameNo, 0, 0);
    var f := SentFragment(p, maxdata, port, frameNo, 0, 0);
    DeliveredAnew(acc, fs, psize);
    NothingRead();
    FramesAreBounded([], fs, psize);
    if |p| <= MAXOFFSET && |p| <= psize {
      ShortFrameIsDelivered(p, maxdata, port, frameNo, psize);
    }
  }

  lemma DeliveredNext(acc: seq<Fragment>, f: Fragment, rest: seq<Fragment>, psize: nat)
    ensures var (acc', verdict) := Read(acc, f, psize);
            Delivered(acc, [f] + rest, psize) ==
              (if verdict.Frame? then [verdict.fragments] else []) + Delivered(acc', rest, psize)
  {
    hide Read;
    assert ([f] + rest)[1..] == rest;
  }

  lemma NothingDelivered(acc: seq<Fragment>, psize: nat)
    ensures Delivered(acc, [], psize) == []
  {
  }

  lemma ShortFrameIsDelivered(p: seq<byte>, maxdata: nat, port: nat, frameNo: nat, psize: nat)
    requires |p| <= MAXOFFSET && |p| <= psize && maxdata >= 32
    ensures var d := Delivered([], Fragments(p, maxdata, port, frameNo, 0, 0), psize);
            |d| == 1 && Join(d[0]) == p
  {
    hide Fragments, FragNoGet, OffsetGet, FrameNoGet, LastGet, Read, Join, TimeAppended, PortGet, Delivered, Consistent;
    NothingRead();
    var fs := Fragments(p, maxdata, port, frameNo, 0, 0);
    var step := FragmentSize(|p|, maxdata);
    var f := SentFragment(p, maxdata, port, frameNo, 0, 0);
    assert (|p| + 31) / 32 % 64 == (|p| + 31) / 32;
    assert [] + p[0..step] == p[..step];
    ReadsNext([], f, psize);
    assert [] + [f] == [f] && fs == [f] + fs[1..];
    DeliveredNext([], f, fs[1..], psize);
    if step == |p| {
      NothingDelivered([], psize);
      assert p[..|p|] == p;
    } else {
      RestIsRead(p, maxdata, port, NextFrameNo(frameNo, 0), step, 1, psize, [f]);
    }
  }
}

/** Ethernet over EtherCAT: a frame is cut into mailbox messages, which the receiver joins again. */
module Eoe {
  import opened Basics

  // ----- Header fields: bit ranges of two 16-bit words.

  function PortSet(x: nat): nat { (x % 16) * 16 }
  function PortGet(info1: nat): nat { (info1 / 16) % 16 }
  function LastSet(): nat { 256 }
  predicate LastGet(info1: nat) { (info1 / 256) % 2 == 1 }
  predicate TimeAppended(info1: nat) { (info1 / 512) % 2 == 1 }
  function FragNoSet(x: nat): nat { x % 64 }
  function FragNoGet(info2: nat): nat { info2 % 64 }
  function OffsetSet(x: nat): nat { (x % 64) * 64 }
  function OffsetGet(info2: nat): nat { (info2 / 64) % 64 }
  function FrameNoSet(x: nat): nat { (x % 16) * 4096 }
  function FrameNoGet(info2: nat): nat { (info2 / 4096) % 16 }

  /** What is put into the second word can be read back field by field. */
  lemma Info2Fields(fragNo: nat, offset: nat, frameNo: nat)
    ensures var info2 := FragNoSet(fragNo) + OffsetSet(offset) + FrameNoSet(frameNo);
            FragNoGet(info2) == fragNo % 64 && OffsetGet(info2) == offset % 64 && FrameNoGet(info2) == frameNo % 16
  {
  }

  lemma Info1Fields(last: bool, port: nat)
    ensures var info1 := (if last then LastSet() else 0) + PortSet(port);
            (LastGet(info1) <==> last) && PortGet(info1) == port % 16 && !TimeAppended(info1)
  {
  }

  datatype Fragment = Fragment(info1: nat, info2: nat, data: seq<byte>)

  /** A mailbox message. */
  datatype Mail = EoeMail(fragment: Fragment) | OtherMail

  const OK: int := 1
  const TIMEOUT: int := 0
  const INVALID_RX_DATA: int := -1
  const PACKET_ERROR: int := -2

  // ----- Sending.

  /** The size of a fragment when `rest` bytes are left: everything, or whole 32-byte blocks. */
  function FragmentSize(rest: nat, maxdata: nat): nat {
    if rest > maxdata then maxdata / 32 * 32 else rest
  }

  /** A fragment that is not the last one is empty exactly if the mailbox has less than 32 data bytes; the
      sender then sends empty fragments for ever. */
  lemma StandsStillIff(rest: nat, maxdata: nat)
    requires rest > maxdata
    ensures FragmentSize(rest, maxdata) == 0 <==> maxdata < 32
    ensures FragmentSize(rest, maxdata) < rest
  {
  }

  /** The frame number goes up when a fragment numbered 0 is built. */
  function NextFrameNo(frameNo: nat, n: nat): nat {
    if n == 0 then (frameNo + 1) % 256 else frameNo
  }

  function Info2(total: nat, off: nat, frameNo: nat, n: nat): nat {
    FragNoSet(n) + OffsetSet(if n > 0 then off / 32 else (total + 31) / 32) + FrameNoSet(frameNo)
  }

  /** The fragments of `p` from offset `off` on, where the eight-bit fragment counter stands at `n`
      and the last frame number used is `frameNo`. */
  function Fragments(p: seq<byte>, maxdata: nat, port: nat, frameNo: nat, off: nat, n: nat): (fs: seq<Fragment>)
    requires off <= |p| && (maxdata >= 32 || |p| - off <= maxdata)
    ensures fs != []
    decreases |p| - off
  {
    var size := FragmentSize(|p| - off, maxdata);
    var last := size == |p| - off;
    var info1 := (if last then LastSet() else 0) + PortSet(port);
    var number := NextFrameNo(frameNo, n);
    [Fragment(info1, Info2(|p|, off, number, n), p[off..off + size])] +
    if last then [] else Fragments(p, maxdata, port, number, off + size, (n + 1) % 256)
  }

  /** Builds the next fragment of `p`. */
  method BuildFragment(p: seq<byte>, maxdata: nat, port: nat, frameNo0: nat, off: nat, n: nat)
    returns (f: Fragment, frameNo: nat, notLast: bool)
    requires off <= |p| && (maxdata >= 32 || |p| - off <= maxdata)
    ensures var size := FragmentSize(|p| - off, maxdata);
            frameNo == NextFrameNo(frameNo0, n) && f.data == p[off..off + size] &&
            notLast == (size < |p| - off) &&
            Fragments(p, maxdata, port, frameNo0, off, n) ==
              [f] + if notLast then Fragments(p, maxdata, port, frameNo, off + size, (n + 1) % 256) else []
  {
    hide OffsetSet, FragNoSet, FrameNoSet, PortSet, LastSet;
    frameNo, notLast := frameNo0, true;
    var frameSize := |p| - off;
    if frameSize > maxdata {
      frameSize := maxdata / 32 * 32;
    }
    var info1;
    if frameSize == |p| - off {
      info1 := LastSet() + PortSet(port);
      notLast := false;
    } else {
      info1 := PortSet(port);
    }
    var info2 := FragNoSet(n);
    if n > 0 {
      info2 := info2 + OffsetSet(off / 32);
    } else {
      info2 := info2 + OffsetSet((|p| + 31) / 32);
      frameNo := (frameNo + 1) % 256;
    }
    info2 := info2 + FrameNoSet(frameNo);
    f := Fragment(info1, info2, p[off..off + frameSize]);
  }

  /** Sends `p` through a mailbox of `mbxLength` bytes. `frameNo0` is the number of the frame before.
      A mailbox with less than 32 data bytes takes only frames that fit in one fragment. */
  method Send(p: seq<byte>, mbxLength: nat, port: nat, frameNo0: nat) returns (out: seq<Fragment>, frameNo: nat)
    requires mbxLength >= 10 && |p| < 0x1_0000 && (mbxLength >= 42 || |p| <= mbxLength - 10)
    ensures out == Fragments(p, mbxLength - 10, port, frameNo0, 0, 0)
    ensures |out| <= 256 ==> frameNo == (frameNo0 + 1) % 256
  {
    hide Fragments;
    out, frameNo := [], frameNo0;
    var maxdata := mbxLength - 10;
    var fragmentNo: nat, frameOffset: nat := 0, 0;
    var notLast := true;
    while notLast
      invariant frameOffset <= |p| && fragmentNo < 256
      invariant |out| < 256 && notLast ==> fragmentNo == |out|
      invariant |out| <= 256 ==> frameNo == if out == [] then frameNo0 else (frameNo0 + 1) % 256
      invariant out == [] ==> notLast
      invariant Fragments(p, maxdata, port, frameNo0, 0, 0) ==
                out + if notLast then Fragments(p, maxdata, port, frameNo, frameOffset, fragmentNo) else []
      decreases |p| - frameOffset, notLast
    {
      var f;
      f, frameNo, notLast := BuildFragment(p, maxdata, port, frameNo, frameOffset, fragmentNo);
      out := out + [f];
      if notLast {
        frameOffset := frameOffset + |f.data|;
        fragmentNo := (fragmentNo + 1) % 256;
      }
    }
  }

  // ----- Receiving.

  /** The receiver's state: the number of the next fragment, the number of the frame, and what has
      been put into the buffer so far. */
  datatype Rx = Rx(fragNo: nat, frameNo: nat, data: seq<byte>)

  datatype Outcome = Done(size: int, data: seq<byte>) | Failed(code: int)

  /** Whether a fragment may follow; `size` is the size of the buffer. */
  predicate Acceptable(rx: Rx, f: Fragment, port: nat, size: nat) {
    (rx.fragNo == FragNoGet(f.info2) || FragNoGet(f.info2) == 0) &&
    if rx.fragNo == 0 then
      OffsetGet(f.info2) * 32 <= size && port == PortGet(f.info1)
    else
      rx.frameNo == FrameNoGet(f.info2) && |rx.data| == OffsetGet(f.info2) * 32
  }

  function Start(rx: Rx, f: Fragment): Rx {
    if rx.fragNo == 0 then Rx(0, FrameNoGet(f.info2), []) else rx
  }

  /** Stores a fragment if it fits the buffer. */
  function Store(rx: Rx, f: Fragment, size: nat): Rx {
    if |rx.data| + |f.data| <= size then Rx((rx.fragNo + 1) % 256, rx.frameNo, rx.data + f.data) else rx
  }

  function Finish(rx: Rx, f: Fragment): Outcome {
    Done(if TimeAppended(f.info1) then (|rx.data| - 4) % 0x1_0000 else |rx.data|, rx.data)
  }

  /** The result of reading messages until the last fragment. */
  function Received(msgs: seq<Mail>, port: nat, size: nat, rx: Rx): Outcome {
    if msgs == [] then Failed(TIMEOUT)
    else if msgs[0].OtherMail? then Failed(PACKET_ERROR)
    else
      var f := msgs[0].fragment;
      if !Acceptable(rx, f, port, size) then Failed(INVALID_RX_DATA) else
        var rx' := Store(Start(rx, f), f, size);
        if LastGet(f.info1) then Finish(rx', f) else Received(msgs[1..], port, size, rx')
  }

  /** Checks one fragment and puts its data into the buffer. */
  method TakeFragment(f: Fragment, port: nat, buf: array<byte>, fragNo0: nat, frameNo0: nat, frameOffset0: nat)
    returns (ok: bool, fragNo: nat, frameNo: nat, frameOffset: nat)
    requires frameOffset0 <= buf.Length
    modifies buf
    ensures frameOffset <= buf.Length
    ensures var rx := Rx(fragNo0, frameNo0, old(buf[..frameOffset0]));
            ok == Acceptable(rx, f, port, buf.Length) &&
            (ok ==> Rx(fragNo, frameNo, buf[..frameOffset]) == Store(Start(rx, f), f, buf.Length))
  {
    ok, fragNo, frameNo, frameOffset := true, fragNo0, frameNo0, frameOffset0;
    if fragNo != FragNoGet(f.info2) {
      if FragNoGet(f.info2) > 0 {
        ok := false;
        return;
      }
    }
    if fragNo == 0 {
      frameOffset := 0;
      frameNo := FrameNoGet(f.info2);
      if OffsetGet(f.info2) * 32 > buf.Length {
        ok := false;
        return;
      }
      if port != PortGet(f.info1) {
        ok := false;
        return;
      }
    } else {
      if frameNo != FrameNoGet(f.info2) {
        ok := false;
        return;
      } else if frameOffset != OffsetGet(f.info2) * 32 {
        ok := false;
        return;
      }
    }
    if frameOffset + |f.data| <= buf.Length {
      ghost var before := buf[..frameOffset];
      forall i | 0 <= i < |f.data| {
        buf[frameOffset + i] := f.data[i];
      }
      frameOffset := frameOffset + |f.data|;
      fragNo := (fragNo + 1) % 256;
      assert buf[..frameOffset] == before + f.data;
    }
  }

  /** Reads a frame into a buffer. `msgs` is what the slave puts into the mailbox. Four bytes are
      taken off the size of a frame with a time stamp, in 16 bits. */
  method Recv(msgs: seq<Mail>, port: nat, buf: array<byte>) returns (wkc: int, psize: int)
    modifies buf
    ensures match Received(msgs, port, buf.Length, Rx(0, 0, []))
            case Failed(code) => wkc == code
            case Done(size, data) => wkc == OK && psize == size && |data| <= buf.Length && buf[..|data|] == data
  {
    hide Acceptable, Start, Store;
    psize := buf.Length;
    var fragNo: nat, frameNo: nat, frameOffset: nat := 0, 0, 0;
    wkc := if msgs == [] then TIMEOUT else OK;
    var next := 0;
    var notLast := true;
    ghost var outcome := Received(msgs, port, buf.Length, Rx(0, 0, []));
    assert buf[..0] == [];
    while wkc > 0 && notLast
      invariant frameOffset <= buf.Length && wkc <= OK
      invariant notLast && wkc > 0 ==>
                  0 <= next < |msgs| &&
                  outcome == Received(msgs[next..], port, buf.Length, Rx(fragNo, frameNo, buf[..frameOffset]))
      invariant notLast && wkc <= 0 ==> outcome == Failed(wkc)
      invariant !notLast ==> wkc == OK && outcome == Done(psize, buf[..frameOffset])
      decreases |msgs| - next, notLast, wkc
    {
      if msgs[next].EoeMail? {
        var f := msgs[next].fragment;
        var ok;
        ok, fragNo, frameNo, frameOffset := TakeFragment(f, port, buf, fragNo, frameNo, frameOffset);
        if !ok {
          wkc := INVALID_RX_DATA;
        } else if LastGet(f.info1) {
          notLast := false;
          psize := if TimeAppended(f.info1) then (frameOffset - 4) % 0x1_0000 else frameOffset;
        } else {
          assert msgs[next..][1..] == msgs[next + 1..];
          next := next + 1;
          wkc := if next < |msgs| then OK else TIMEOUT;
        }
      } else {
        wkc := PACKET_ERROR;
      }
    }
  }

  // ----- Round trip.

  function Mailed(fs: seq<Fragment>): (msgs: seq<Mail>)
    ensures |msgs| == |fs|
  {
    seq(|fs|, i requires 0 <= i < |fs| => EoeMail(fs[i]))
  }

  /** Where the last fragment of `total` bytes starts, when the next one starts at `off`. */
  function LastOffset(total: nat, maxdata: nat, off: nat): (last: nat)
    requires off <= total && (maxdata >= 32 || total - off <= maxdata)
    ensures off <= last <= total
    decreases total - off
  {
    var size := FragmentSize(total - off, maxdata);
    if size == total - off then off else LastOffset(total, maxdata, off + size)
  }

  const MAXOFFSET: nat := 63 * 32

  /** The fragment sent at `off`, with the fields a receiver reads. */
  lemma SentFragment(p: seq<byte>, maxdata: nat, port: nat, frameNo: nat, off: nat, n: nat) returns (f: Fragment)
    requires off <= |p| && (maxdata >= 32 || |p| - off <= maxdata) && n < 256
    ensures var fs := Fragments(p, maxdata, port, frameNo, off, n);
            var size := FragmentSize(|p| - off, maxdata);
            var number := NextFrameNo(frameNo, n);
            f == fs[0] && f.data == p[off..off + size] &&
            (LastGet(f.info1) <==> size == |p| - off) && !TimeAppended(f.info1) && PortGet(f.info1) == port % 16 &&
            FragNoGet(f.info2) == n % 64 && FrameNoGet(f.info2) == number % 16 &&
            OffsetGet(f.info2) == (if n > 0 then off / 32 else (|p| + 31) / 32) % 64 &&
            fs[1..] == (if size == |p| - off then []
                        else Fragments(p, maxdata, port, number, off + size, (n + 1) % 256))
  {
    var fs := Fragments(p, maxdata, port, frameNo, off, n);
    f := fs[0];
    Info1Fields(FragmentSize(|p| - off, maxdata) == |p| - off, port);
    Info2Fields(n, if n > 0 then off / 32 else (|p| + 31) / 32, NextFrameNo(frameNo, n));
    hide LastSet, PortSet, FragNoSet, OffsetSet, FrameNoSet, LastGet, TimeAppended, PortGet, FragNoGet, OffsetGet;
    hide FrameNoGet;
  }

  lemma ReceivedStep(fs: seq<Fragment>, port: nat, size: nat, rx: Rx)
    requires fs != []
    ensures var f := fs[0];
            var rx' := Store(Start(rx, f), f, size);
            Received(Mailed(fs), port, size, rx) ==
              if !Acceptable(rx, f, port, size) then Failed(INVALID_RX_DATA)
              else if LastGet(f.info1) then Finish(rx', f)
              else Received(Mailed(fs[1..]), port, size, rx')
  {
    hide Acceptable, Start, Store, Finish, LastGet;
    assert Mailed(fs)[1..] == Mailed(fs[1..]);
  }

  /** A later fragment is accepted as long as its offset can be written down. */
  lemma LaterFragment(p: seq<byte>, maxdata: nat, port: nat, frameNo: nat, off: nat, n: nat, size: nat)
    returns (f: Fragment)
    requires off <= |p| <= size && (maxdata >= 32 || |p| - off <= maxdata)
    requires 0 < n <= 64 && 32 * n <= off && off % 32 == 0
    ensures var fs := Fragments(p, maxdata, port, frameNo, off, n);
            var rx := Rx(n, frameNo % 16, p[..off]);
            var step := FragmentSize(|p| - off, maxdata);
            f == fs[0] && (Acceptable(rx, f, port, size) <==> off <= MAXOFFSET) &&
            (off <= MAXOFFSET ==> Store(Start(rx, f), f, size) == Rx(n + 1, frameNo % 16, p[..off + step])) &&
            (LastGet(f.info1) <==> step == |p| - off) && !TimeAppended(f.info1) &&
            fs[1..] == (if step == |p| - off then []
                        else Fragments(p, maxdata, port, frameNo, off + step, (n + 1) % 256))
  {
    hide Fragments, LastGet, TimeAppended, PortGet, FragNoGet, OffsetGet, FrameNoGet;
    f := SentFragment(p, maxdata, port, frameNo, off, n);
    assert p[..off] + p[off..off + FragmentSize(|p| - off, maxdata)] == p[..off + FragmentSize(|p| - off, maxdata)];
  }

  /** After the first fragment: all goes well up to an offset of 63 blocks, and not beyond. */
  lemma {:induction false} RestIsReceived(p: seq<byte>, maxdata: nat, port: nat, frameNo: nat, off: nat, n: nat,
                                          size: nat)
    requires off <= |p| <= size && (maxdata >= 32 || |p| - off <= maxdata)
    requires 0 < n <= 64 && 32 * n <= off && off % 32 == 0
    ensures Received(Mailed(Fragments(p, maxdata, port, frameNo, off, n)), port, size, Rx(n, frameNo % 16, p[..off]))
         == if LastOffset(|p|, maxdata, off) <= MAXOFFSET then Done(|p|, p) else Failed(INVALID_RX_DATA)
    decreases |p| - off
  {
    hide Fragments, Mailed, Received, Acceptable, Start, Store, LastGet, TimeAppended;
    var fs := Fragments(p, maxdata, port, frameNo, off, n);
    var f := LaterFragment(p, maxdata, port, frameNo, off, n, size);
    ReceivedStep(fs, port, size, Rx(n, frameNo % 16, p[..off]));
    var step := FragmentSize(|p| - off, maxdata);
    if off <= MAXOFFSET {
      if step == |p| - off {
        assert p[..|p|] == p;
      } else {
        RestIsReceived(p, maxdata, port, frameNo, off + step, n + 1, size);
      }
    }
  }

  lemma {:induction false} NeverMoreThanTheBuffer(msgs: seq<Mail>, port: nat, size: nat, rx: Rx)
    requires |rx.data| <= size
    ensures Received(msgs, port, size, rx).Done? ==> |Received(msgs, port, size, rx).data| <= size
  {
    hide Acceptable;
    if msgs != [] && msgs[0].EoeMail? {
      NeverMoreThanTheBuffer(msgs[1..], port, size, Store(Start(rx, msgs[0].fragment), msgs[0].fragment, size));
    }
  }

  /** The first fragment is accepted if the announced size fits the buffer and the port its field. */
  lemma FirstFragment(p: seq<byte>, maxdata: nat, port: nat, frameNo: nat, size: nat) returns (f: Fragment)
    requires maxdata >= 32 || |p| <= maxdata
    ensures var fs := Fragments(p, maxdata, port, frameNo, 0, 0);
            var rx := Rx(0, 0, []);
            var step := FragmentSize(|p|, maxdata);
            var number := NextFrameNo(frameNo, 0);
            f == fs[0] && (Acceptable(rx, f, port, size) <==> port < 16 && (|p| + 31) / 32 % 64 * 32 <= size) &&
            (|p| <= size ==> Store(Start(rx, f), f, size) == Rx(1, number % 16, p[..step])) &&
            (LastGet(f.info1) <==> step == |p|) && !TimeAppended(f.info1) &&
            fs[1..] == (if step == |p| then [] else Fragments(p, maxdata, port, number, step, 1))
  {
    hide Fragments, LastGet, TimeAppended, PortGet, FragNoGet, OffsetGet, FrameNoGet;
    f := SentFragment(p, maxdata, port, frameNo, 0, 0);
    assert [] + p[0..FragmentSize(|p|, maxdata)] == p[..FragmentSize(|p|, maxdata)];
  }

  /** A frame comes back as it was sent if and only if the port number has four bits, the buffer takes
      the frame and the size announced for it, and no fragment starts beyond block 63. */
  lemma {:induction false} RoundTripIff(p: seq<byte>, maxdata: nat, port: nat, frameNo: nat, size: nat)
    requires maxdata >= 32 || |p| <= maxdata
    ensures Received(Mailed(Fragments(p, maxdata, port, frameNo, 0, 0)), port, size, Rx(0, 0, [])) == Done(|p|, p)
       <==> port < 16 && |p| <= size && (|p| + 31) / 32 % 64 * 32 <= size && LastOffset(|p|, maxdata, 0) <= MAXOFFSET
  {
    hide Fragments, Mailed, Received, Acceptable, Start, Store, LastGet, TimeAppended;
    var fs := Fragments(p, maxdata, port, frameNo, 0, 0);
    var f := FirstFragment(p, maxdata, port, frameNo, size);
    ReceivedStep(fs, port, size, Rx(0, 0, []));
    NeverMoreThanTheBuffer(Mailed(fs), port, size, Rx(0, 0, []));
    var step := FragmentSize(|p|, maxdata);
    if |p| <= size && Acceptable(Rx(0, 0, []), f, port, size) {
      if step == |p| {
        assert p[..|p|] == p;
      } else {
        RestIsReceived(p, maxdata, port, NextFrameNo(frameNo, 0), step, 1, size);
      }
    }
  }

  /** In particular every frame of up to 63 blocks, through every mailbox with room for a block, into
      a buffer with its size rounded up to whole blocks. */
  lemma RoundTrip(p: seq<byte>, maxdata: nat, port: nat, frameNo: nat, size: nat)
    requires |p| <= MAXOFFSET && maxdata >= 32 && port < 16 && (|p| + 31) / 32 * 32 <= size
    ensures Received(Mailed(Fragments(p, maxdata, port, frameNo, 0, 0)), port, size, Rx(0, 0, [])) == Done(|p|, p)
  {
    RoundTripIff(p, maxdata, port, frameNo, size);
  }
}

/** CoE service data objects: expedited, normal and segmented transfer through a mailbox. */
module Sdo {
  import opened Basics

  // ----- Frames.

  /** A frame in the mailbox, from the command byte on: `body` starts where the index is in an
      initiate frame, and where the data is in a segment. */
  datatype Frame = Frame(command: nat, body: seq<byte>)
  {
    /** The length field of the mailbox header: two bytes of CoE header, the command and the body. */
    function Length(): nat {
      |body| + 3
    }
  }

  const DOWN_INIT: nat := 0x21
  const DOWN_EXP: nat := 0x23
  const DOWN_INIT_CA: nat := 0x31
  const UP_REQ: nat := 0x40
  const UP_REQ_CA: nat := 0x50
  const SEG_UP_REQ: nat := 0x60

  function LittleEndian(n: nat, size: nat): (s: seq<byte>)
    ensures |s| == size
  {
    if size == 0 then [] else [(n % 256) as byte] + LittleEndian(n / 256, size - 1)
  }

  function FromLittleEndian(s: seq<byte>): nat {
    if s == [] then 0 else s[0] as nat + 256 * FromLittleEndian(s[1..])
  }

  function Pow256(k: nat): nat {
    if k == 0 then 1 else 256 * Pow256(k - 1)
  }

  lemma {:induction false} ReadsBack(n: nat, size: nat)
    requires n < Pow256(size)
    ensures FromLittleEndian(LittleEndian(n, size)) == n
  {
    if size > 0 {
      ReadsBack(n / 256, size - 1);
      assert LittleEndian(n, size)[1..] == LittleEndian(n / 256, size - 1);
    }
  }

  // ----- The frames of a download.

  /** The object that is addressed. With complete access the subindex is 0 or 1. */
  function Address(index: nat, subindex: nat, ca: bool): (s: seq<byte>)
    ensures |s| == 3
  {
    LittleEndian(index, 2) + LittleEndian(if ca && subindex > 1 then 1 else subindex, 1)
  }

  function Zeros(n: nat): (s: seq<byte>)
    ensures |s| == n
  {
    seq(n, _ => 0)
  }

  function Expedited(p: seq<byte>, address: seq<byte>): Frame
    requires |p| <= 4
  {
    Frame(DOWN_EXP + (4 - |p|) % 4 * 4, address + p + Zeros(4 - |p|))
  }

  /** How many of `rest` bytes go into the next frame. The size is computed in 16 bits. */
  function FrameData(rest: nat, max: nat): nat {
    if rest % 0x1_0000 > max then max else rest % 0x1_0000
  }

  function Initiate(p: seq<byte>, maxdata: nat, address: seq<byte>, ca: bool): Frame
    requires |address| == 3
  {
    Frame(if ca then DOWN_INIT_CA else DOWN_INIT,
          address + LittleEndian(|p|, 4) + p[..FrameData(|p|, maxdata)])
  }

  /** One segment. A short last segment is filled up to seven bytes with what was in the mailbox
      buffer before. */
  function Segment(p: seq<byte>, max: nat, pos: nat, toggle: nat, before: seq<byte>): Frame
    requires pos <= |p| && |before| >= 7
  {
    var size := FrameData(|p| - pos, max);
    var data := p[pos..pos + size];
    if (|p| - pos) % 0x1_0000 > max then Frame(toggle, data)
    else if size < 7 then Frame(1 + (7 - size) * 2 + toggle, data + before[size..7])
    else Frame(1 + toggle, data)
  }

  function Flip(toggle: nat): nat {
    if toggle == 0 then 0x10 else 0
  }

  function Segments(p: seq<byte>, max: nat, pos: nat, toggle: nat, before: seq<byte>): (fs: seq<Frame>)
    requires pos <= |p| && |before| >= 7 && max >= 7
    ensures fs != []
    decreases |p| - pos
  {
    var f := Segment(p, max, pos, toggle, before);
    [f] + if (|p| - pos) % 0x1_0000 > max then Segments(p, max, pos + max, Flip(toggle), f.body) else []
  }

  /** All frames of a download through a mailbox of `mbxLength` bytes. */
  function Frames(p: seq<byte>, mbxLength: nat, address: seq<byte>, ca: bool): (fs: seq<Frame>)
    requires mbxLength >= 16 && |address| == 3
    ensures fs != []
  {
    if |p| <= 4 && !ca then [Expedited(p, address)] else
      var maxdata := mbxLength - 16;
      var f := Initiate(p, maxdata, address, ca);
      [f] + if |p| % 0x1_0000 > maxdata then Segments(p, maxdata + 7, maxdata, 0, f.body) else []
  }

  // ----- What the slave makes of a request.

  /** The slave reads index and subindex behind the command byte. */
  predicate Names(f: Frame, index: nat, subindex: nat) {
    |f.body| >= 3 && f.body[0] as nat + 256 * f.body[1] as nat == index && f.body[2] as nat == subindex
  }

  /** The upper three bits of the command tell the kind of request: 0 for a segment of a download, 1 for a
      download, 2 for an upload, 3 for a segment of an upload. */
  predicate Specifies(f: Frame, kind: nat) {
    f.command < 0x100 && f.command / 0x20 == kind
  }

  /** The next bit stands for complete access in a first request, and alternates between segments. */
  predicate FifthBit(f: Frame) {
    f.command / 0x10 % 2 == 1
  }

  lemma AddressNames(index: nat, subindex: nat, body: seq<byte>)
    requires index < 0x1_0000 && subindex < 0x100 && |body| >= 3
    requires body[..3] == LittleEndian(index, 2) + LittleEndian(subindex, 1)
    ensures body[0] as nat + 256 * body[1] as nat == index && body[2] as nat == subindex
  {
    assert LittleEndian(index, 2) == [(index % 256) as byte] + LittleEndian(index / 256, 1);
    assert body[..3][0] == body[0] && body[..3][1] == body[1] && body[..3][2] == body[2];
  }

  /** An upload request for a segment has the toggle bit of its number, counted from 1. */
  lemma UploadRequestsToggle(address: seq<byte>, ca: bool, k: nat)
    ensures var f := UploadRequest(address, ca, k);
            Specifies(f, if k == 0 then 2 else 3) && (FifthBit(f) <==> if k == 0 then ca else k % 2 == 0)
  {
  }

  // ----- Writing.

  /** The slave's answer to a frame. */
  datatype Confirm = Good | Refused | Silent

  function ConfirmAt(confirms: seq<Confirm>, k: nat): Confirm {
    if k < |confirms| then confirms[k] else Silent
  }

  /** How many of `n` frames are sent: the first one has to be confirmed, later ones only must not be
      refused. `sent` of them are sent already. */
  function SentOf(n: nat, confirms: seq<Confirm>, sent: nat): (k: nat)
    requires sent <= n
    ensures sent <= k <= n
    decreases n - sent
  {
    if sent == n then n
    else if sent == 1 && ConfirmAt(confirms, 0) != Good then 1
    else if sent > 1 && ConfirmAt(confirms, sent - 1) == Refused then sent
    else SentOf(n, confirms, sent + 1)
  }

  /** The segments that follow the first frame, one by one. The mailbox buffer keeps what earlier
      frames left in it. */
  method WriteSegments(p: seq<byte>, maxdata: nat, hp0: nat, confirms: seq<Confirm>, mailbox0: seq<byte>,
                       ghost all: seq<Frame>, first: Frame)
    returns (frames: seq<Frame>, confirm: Confirm)
    requires hp0 <= |p| && |mailbox0| >= maxdata >= 7 && |first.body| >= 7 && first.body[..7] == mailbox0[..7]
    requires all == [first] + Segments(p, maxdata, hp0, 0, first.body)
    requires ConfirmAt(confirms, 0) == Good
    ensures |frames| == SentOf(|all|, confirms, 1) && frames == all[..|frames|]
    ensures confirm == ConfirmAt(confirms, |frames| - 1)
  {
    hide SentOf, Segments, Waiting, ConfirmAt;
    frames, confirm := [first], Good;
    StartsWaiting(p, maxdata, hp0, mailbox0, all, first);
    var hp := hp0;
    var toggle := 0;
    var mailbox := mailbox0;
    var notLast := true;
    while notLast
      invariant hp <= |p| && |mailbox| >= maxdata && 1 <= |frames| <= |all|
      invariant frames == all[..|frames|]
      invariant confirm == ConfirmAt(confirms, |frames| - 1)
      invariant SentOf(|all|, confirms, 1) == if notLast then SentOf(|all|, confirms, |frames|) else |frames|
      invariant notLast ==> Waiting(p, maxdata, hp, toggle, mailbox, all, frames)
      invariant notLast ==> SendsOn(confirms, |frames|)
      decreases |p| - hp, notLast
    {
      var next;
      next, mailbox, hp, notLast := NextSegment(p, maxdata, hp, toggle, mailbox, all, frames);
      frames := frames + [next];
      confirm := ConfirmAt(confirms, |frames| - 1);
      AfterSegment(|all|, confirms, |frames| - 1);
      if confirm == Refused {
        notLast := false;
      }
      toggle := Flip(toggle);
    }
  }

  ghost predicate SendsOn(confirms: seq<Confirm>, sent: nat)
    requires sent > 0
  {
    if sent == 1 then ConfirmAt(confirms, 0) == Good else ConfirmAt(confirms, sent - 1) != Refused
  }

  lemma AfterSegment(n: nat, confirms: seq<Confirm>, sent: nat)
    requires 0 < sent < n && SendsOn(confirms, sent)
    ensures SentOf(n, confirms, sent) == SentOf(n, confirms, sent + 1)
    ensures ConfirmAt(confirms, sent) == Refused || sent + 1 == n ==> SentOf(n, confirms, sent + 1) == sent + 1
    ensures ConfirmAt(confirms, sent) != Refused ==> SendsOn(confirms, sent + 1)
  {
  }

  lemma StartsWaiting(p: seq<byte>, maxdata: nat, hp: nat, mailbox: seq<byte>, all: seq<Frame>, first: Frame)
    requires hp <= |p| && |mailbox| >= maxdata >= 7 && |first.body| >= 7 && first.body[..7] == mailbox[..7]
    requires all == [first] + Segments(p, maxdata, hp, 0, first.body)
    ensures Waiting(p, maxdata, hp, 0, mailbox, all, [first])
  {
  }

  /** What is still to be sent, and the mailbox holding the body of the last frame. */
  ghost predicate Waiting(p: seq<byte>, maxdata: nat, hp: nat, toggle: nat, mailbox: seq<byte>, all: seq<Frame>,
                          frames: seq<Frame>)
    requires hp <= |p| && |mailbox| >= maxdata >= 7
  {
    exists before: seq<byte> ::
      |before| >= 7 && before[..7] == mailbox[..7] && all == frames + Segments(p, maxdata, hp, toggle, before)
  }

  lemma LastBody(p: seq<byte>, maxdata: nat, hp: nat, toggle: nat, mailbox: seq<byte>, all: seq<Frame>,
                 frames: seq<Frame>)
    returns (before: seq<byte>)
    requires hp <= |p| && |mailbox| >= maxdata >= 7
    requires Waiting(p, maxdata, hp, toggle, mailbox, all, frames)
    ensures |before| >= 7 && before[..7] == mailbox[..7]
    ensures all == frames + Segments(p, maxdata, hp, toggle, before)
  {
    before :|
      |before| >= 7 && before[..7] == mailbox[..7] && all == frames + Segments(p, maxdata, hp, toggle, before);
  }

  /** A segment is what the mailbox holds once its data have been copied over the last frame. */
  lemma IsSegment(p: seq<byte>, maxdata: nat, hp: nat, toggle: nat, before: seq<byte>, mailbox: seq<byte>)
    requires hp <= |p| && |mailbox| >= maxdata >= 7 && |before| >= 7 && before[..7] == mailbox[..7]
    ensures var size := FrameData(|p| - hp, maxdata);
            var filled := p[hp..hp + size] + mailbox[size..];
            var last := (|p| - hp) % 0x1_0000 <= maxdata;
            Segment(p, maxdata, hp, toggle, before) ==
            if last && size < 7 then Frame(1 + (7 - size) * 2 + toggle, filled[..7])
            else Frame((if last then 1 else 0) + toggle, filled[..size])
  {
    var size := FrameData(|p| - hp, maxdata);
    var filled := p[hp..hp + size] + mailbox[size..];
    if size < 7 {
      assert before[size..7] == before[..7][size..] == mailbox[..7][size..];
      assert filled[..7] == p[hp..hp + size] + mailbox[..7][size..];
    } else {
      assert filled[..size] == p[hp..hp + size];
    }
  }

  lemma NextWaits(p: seq<byte>, maxdata: nat, hp: nat, toggle: nat, before: seq<byte>, mailbox: seq<byte>,
                  all: seq<Frame>,
                  frames: seq<Frame>)
    requires hp <= |p| && |mailbox| >= maxdata >= 7 && |before| >= 7
    requires all == frames + Segments(p, maxdata, hp, toggle, before)
    ensures var next := Segment(p, maxdata, hp, toggle, before);
            var more := (|p| - hp) % 0x1_0000 > maxdata;
            |frames| < |all| && all[..|frames| + 1] == frames + [next] &&
            (more && next.body == mailbox[..maxdata] ==>
               Waiting(p, maxdata, hp + maxdata, Flip(toggle), mailbox, all, frames + [next])) &&
            (!more ==> all == frames + [next])
  {
    var next := Segment(p, maxdata, hp, toggle, before);
    if (|p| - hp) % 0x1_0000 > maxdata {
      assert all == (frames + [next]) + Segments(p, maxdata, hp + maxdata, Flip(toggle), next.body);
    }
    if (|p| - hp) % 0x1_0000 > maxdata && next.body == mailbox[..maxdata] {
      assert next.body[..7] == mailbox[..7];
    }
  }

  method NextSegment(p: seq<byte>, maxdata: nat, hp0: nat, toggle: nat, mailbox0: seq<byte>, ghost all: seq<Frame>,
                     ghost frames: seq<Frame>)
    returns (next: Frame, mailbox: seq<byte>, hp: nat, notLast: bool)
    requires hp0 <= |p| && |mailbox0| >= maxdata >= 7
    requires Waiting(p, maxdata, hp0, toggle, mailbox0, all, frames)
    ensures hp0 <= hp <= |p| && |mailbox| == |mailbox0| && |frames| < |all| && all[..|frames| + 1] == frames + [next]
    ensures notLast ==> hp > hp0 && Waiting(p, maxdata, hp, Flip(toggle), mailbox, all, frames + [next])
    ensures !notLast ==> all == frames + [next]
  {
    hide Segments, Segment, Waiting;
    ghost var before := LastBody(p, maxdata, hp0, toggle, mailbox0, all, frames);
    var framedatasize := (|p| - hp0) % 0x1_0000;
    notLast := false;
    var command := 1;
    if framedatasize > maxdata {
      framedatasize := maxdata;
      notLast := true;
      command := 0;
    }
    var length;
    if !notLast && framedatasize < 7 {
      length := 7;
      command := 1 + (7 - framedatasize) * 2;
    } else {
      length := framedatasize;
    }
    mailbox := p[hp0..hp0 + framedatasize] + mailbox0[framedatasize..];
    next := Frame(command + toggle, mailbox[..length]);
    hp := hp0 + framedatasize;
    IsSegment(p, maxdata, hp0, toggle, before, mailbox0);
    NextWaits(p, maxdata, hp0, toggle, before, mailbox, all, frames);
  }

  /** A download that is not expedited. */
  method WriteNormal(p: seq<byte>, mbxLength: nat, address: seq<byte>, ca: bool, confirms: seq<Confirm>)
    returns (frames: seq<Frame>, confirm: Confirm)
    requires mbxLength >= 16 && |address| == 3 && !(|p| <= 4 && !ca)
    ensures var all := Frames(p, mbxLength, address, ca);
            |frames| == SentOf(|all|, confirms, 1) && frames == all[..|frames|]
    ensures |frames| > 0 && confirm == ConfirmAt(confirms, |frames| - 1)
  {
    hide Segments, SentOf, LittleEndian;
    var maxdata := mbxLength - 16;
    var framedatasize := |p| % 0x1_0000;
    var notLast := false;
    if framedatasize > maxdata {
      framedatasize := maxdata;
      notLast := true;
    }
    var command := if ca then DOWN_INIT_CA else DOWN_INIT;
    var mailbox := address + LittleEndian(|p|, 4) + p[..framedatasize];
    var first := Frame(command, mailbox);
    mailbox := mailbox + Zeros(maxdata - framedatasize);
    var hp := framedatasize;
    assert first == Initiate(p, maxdata, address, ca);
    ghost var all := Frames(p, mbxLength, address, ca);
    FirstSent(|all|, confirms);
    confirm := ConfirmAt(confirms, 0);
    frames := [first];
    if confirm == Good && notLast {
      maxdata := maxdata + 7;
      assert first.body[..7] == mailbox[..7];
      frames, confirm := WriteSegments(p, maxdata, hp, confirms, mailbox, all, first);
    }
  }

  lemma FirstSent(n: nat, confirms: seq<Confirm>)
    requires n > 0
    ensures ConfirmAt(confirms, 0) != Good || n == 1 ==> SentOf(n, confirms, 1) == 1
  {
  }

  /** Writes `p` to an object of the slave. The frames sent are a first part of all frames of the
      download; it ends early only if the slave does not confirm the first frame or refuses a segment. */
  method Write(p: seq<byte>, mbxLength: nat, index: nat, subindex: nat, ca: bool, confirms: seq<Confirm>)
    returns (frames: seq<Frame>, confirm: Confirm)
    requires mbxLength >= 16
    ensures var all := Frames(p, mbxLength, Address(index, subindex, ca), ca);
            |frames| <= |all| && frames == all[..|frames|] &&
            (|frames| == |all| || (if |frames| == 1 then confirm != Good else confirm == Refused))
    ensures |frames| > 0 && confirm == ConfirmAt(confirms, |frames| - 1)
    ensures |frames| > 1 ==> ConfirmAt(confirms, 0) == Good
    ensures forall k: nat | 0 < k < |frames| - 1 :: ConfirmAt(confirms, k) != Refused
    ensures index < 0x1_0000 && subindex < 0x100 ==>
              Names(frames[0], index, if ca && subindex > 1 then 1 else subindex)
    ensures Specifies(frames[0], 1) && (FifthBit(frames[0]) <==> ca)
    ensures forall k | 0 < k < |frames| :: Specifies(frames[k], 0) && (FifthBit(frames[k]) <==> k % 2 == 0)
  {
    hide Segments, LittleEndian, Frames;
    frames, confirm := WriteFrames(p, mbxLength, index, subindex, ca, confirms);
    StopsWhere(|Frames(p, mbxLength, Address(index, subindex, ca), ca)|, confirms, 1);
    FirstIsAddressed(p, mbxLength, index, subindex, ca);
    assert frames[0] == Frames(p, mbxLength, Address(index, subindex, ca), ca)[0];
    forall k | 0 < k < |frames| ensures Specifies(frames[k], 0) && (FifthBit(frames[k]) <==> k % 2 == 0) {
      FramesAreWellFormed(p, mbxLength, index, subindex, ca, k);
      assert frames[k] == Frames(p, mbxLength, Address(index, subindex, ca), ca)[k];
    }
  }

  lemma FirstIsAddressed(p: seq<byte>, mbxLength: nat, index: nat, subindex: nat, ca: bool)
    requires mbxLength >= 16
    ensures var f := Frames(p, mbxLength, Address(index, subindex, ca), ca)[0];
            Specifies(f, 1) && (FifthBit(f) <==> ca) &&
            (index < 0x1_0000 && subindex < 0x100 ==> Names(f, index, if ca && subindex > 1 then 1 else subindex))
  {
    hide Segments, LittleEndian;
    var f := Frames(p, mbxLength, Address(index, subindex, ca), ca)[0];
    assert f.body[..3] == Address(index, subindex, ca);
    if index < 0x1_0000 && subindex < 0x100 {
      AddressNames(index, if ca && subindex > 1 then 1 else subindex, f.body);
    }
  }

  method WriteFrames(p: seq<byte>, mbxLength: nat, index: nat, subindex: nat, ca: bool, confirms: seq<Confirm>)
    returns (frames: seq<Frame>, confirm: Confirm)
    requires mbxLength >= 16
    ensures var all := Frames(p, mbxLength, Address(index, subindex, ca), ca);
            |frames| == SentOf(|all|, confirms, 1) && frames == all[..|frames|]
    ensures |frames| > 0 && confirm == ConfirmAt(confirms, |frames| - 1)
  {
    hide Segments, LittleEndian;
    if |p| <= 4 && !ca {
      var first := Frame(DOWN_EXP + (4 - |p|) % 4 * 4,
                         LittleEndian(index, 2) + LittleEndian(subindex, 1) + p + Zeros(4 - |p|));
      frames, confirm := [first], ConfirmAt(confirms, 0);
    } else {
      var sub := subindex;
      if ca && sub > 1 {
        sub := 1;
      }
      frames, confirm := WriteNormal(p, mbxLength, LittleEndian(index, 2) + LittleEndian(sub, 1), ca, confirms);
    }
  }

  lemma {:induction false} SendsAllIff(n: nat, confirms: seq<Confirm>, sent: nat)
    requires 1 < sent <= n
    ensures SentOf(n, confirms, sent) == n <==> forall k | sent - 1 <= k < n - 1 :: ConfirmAt(confirms, k) != Refused
    decreases n - sent
  {
    if sent < n && ConfirmAt(confirms, sent - 1) != Refused {
      SendsAllIff(n, confirms, sent + 1);
    }
  }

  /** Sending stops when all frames are sent, when the first one is not confirmed or when a later one is refused,
      and not before. */
  lemma {:induction false} StopsWhere(n: nat, confirms: seq<Confirm>, sent: nat)
    requires 1 <= sent <= n && (sent > 1 ==> ConfirmAt(confirms, 0) == Good)
    requires forall j: nat | 0 < j < sent - 1 :: ConfirmAt(confirms, j) != Refused
    ensures var k := SentOf(n, confirms, sent);
            1 <= k <= n && (k > 1 ==> ConfirmAt(confirms, 0) == Good) &&
            (forall j: nat | 0 < j < k - 1 :: ConfirmAt(confirms, j) != Refused) &&
            (k == n || (k == 1 && ConfirmAt(confirms, 0) != Good) || (k > 1 && ConfirmAt(confirms, k - 1) == Refused))
    decreases n - sent
  {
    hide ConfirmAt;
    if sent < n && (if sent == 1 then ConfirmAt(confirms, 0) == Good else ConfirmAt(confirms, sent - 1) != Refused) {
      StopsWhere(n, confirms, sent + 1);
    }
  }

  /** A download of several frames is reported as a success exactly if the first and the last frame are
      confirmed and none in between is refused: a segment that gets no answer at all goes unnoticed. */
  lemma ReportsSuccessIff(n: nat, confirms: seq<Confirm>)
    requires n > 1
    ensures SentOf(n, confirms, 1) == n && ConfirmAt(confirms, n - 1) == Good <==>
              ConfirmAt(confirms, 0) == Good && ConfirmAt(confirms, n - 1) == Good &&
              forall k | 0 < k < n - 1 :: ConfirmAt(confirms, k) != Refused
  {
    SendsAllIff(n, confirms, 2);
  }

  // ----- Reading.

  /** What the mailbox of the slave delivers for one request. */
  datatype Reply = Response(frame: Frame) | Other | Nothing

  /** How a transfer ends. `Malformed` is a frame whose lengths do not fit together or into the buffer,
      which the reader does not notice. `Endless` means that it asks on forever. */
  datatype End = Done | TooSmall | Unexpected | NoAnswer | Malformed | Endless

  datatype Outcome = Outcome(end: End, data: seq<byte>)

  /** The number of data bytes of a segment; only a last segment of seven bytes may be filled up. */
  function SegmentSize(f: Frame): (n: nat)
    ensures n <= |f.body|
  {
    if f.command % 2 == 1 && |f.body| == 7 then 7 - f.command / 2 % 8 else |f.body|
  }

  function Segmented(replies: seq<Reply>, size: nat, data: seq<byte>): Outcome {
    if replies == [] then Outcome(Endless, data) else
      match replies[0]
      case Nothing => Segmented(replies[1..], size, data)
      case Other => Outcome(Unexpected, data)
      case Response(f) =>
        if f.command / 0x20 % 8 != 0 then Outcome(Unexpected, data)
        else if |data| + SegmentSize(f) > size then Outcome(Malformed, data)
        else if f.command % 2 == 1 then Outcome(Done, data + f.body[..SegmentSize(f)])
        else Segmented(replies[1..], size, data + f.body)
  }

  /** What is read into a buffer of `size` bytes, after a first reply and further ones. */
  function Reading(index: nat, replies: seq<Reply>, size: nat): Outcome {
    if replies == [] || replies[0] == Nothing then Outcome(NoAnswer, [])
    else if replies[0] == Other then Outcome(Unexpected, [])
    else FirstFrame(index, replies[0].frame, replies[1..], size)
  }

  function FirstFrame(index: nat, f: Frame, rest: seq<Reply>, size: nat): Outcome {
    if |f.body| < 7 then Outcome(Malformed, [])
    else if f.body[..2] != LittleEndian(index, 2) then Outcome(Unexpected, [])
    else if f.command / 2 % 2 == 1 then
      var n := 4 - f.command / 4 % 4;
      if n <= size then Outcome(Done, f.body[3..3 + n]) else Outcome(TooSmall, [])
    else
      var length := FromLittleEndian(f.body[3..7]);
      if length >= 0x8000_0000 then Outcome(Malformed, [])
      else if length > size then Outcome(TooSmall, [])
      else if |f.body| - 7 < length then Segmented(rest, size, f.body[7..])
      else Outcome(Done, f.body[7..7 + length])
  }

  function UploadRequest(address: seq<byte>, ca: bool, k: nat): Frame {
    Frame(if k > 0 then SEG_UP_REQ + (k - 1) % 2 * 0x10 else if ca then UP_REQ_CA else UP_REQ, address + Zeros(4))
  }

  /** Copies `data` into the buffer at `at`. */
  method Copy(buf: array<byte>, at: nat, data: seq<byte>)
    requires at + |data| <= buf.Length
    modifies buf
    ensures buf[..at + |data|] == old(buf[..at]) + data
  {
    forall i | 0 <= i < |data| {
      buf[at + i] := data[i];
    }
  }

  lemma SegmentedFrom(replies: seq<Reply>, i: nat, size: nat, data: seq<byte>)
    requires i <= |replies|
    ensures Segmented(replies[i..], size, data) ==
              if i == |replies| then Outcome(Endless, data)
              else if replies[i] == Nothing then Segmented(replies[i + 1..], size, data)
              else if replies[i] == Other || replies[i].frame.command / 0x20 % 8 != 0 then Outcome(Unexpected, data)
              else if |data| + SegmentSize(replies[i].frame) > size then Outcome(Malformed, data)
              else var more := data + replies[i].frame.body[..SegmentSize(replies[i].frame)];
                   if replies[i].frame.command % 2 == 1 then Outcome(Done, more)
                   else Segmented(replies[i + 1..], size, more)
  {
    if i < |replies| {
      assert replies[i..][1..] == replies[i + 1..];
      if replies[i].Response? {
        assert replies[i].frame.body[..|replies[i].frame.body|] == replies[i].frame.body;
      }
    }
  }

  method TakeSegment(f: Frame, buf: array<byte>, hp: nat) returns (psize: nat, notLast: bool, end: End)
    requires hp <= buf.Length
    modifies buf
    ensures var more := old(buf[..hp]) + f.body[..SegmentSize(f)];
            psize <= buf.Length &&
            if |more| > buf.Length then !notLast && end == Malformed && buf[..psize] == old(buf[..hp])
            else notLast == (f.command % 2 == 0) && end == (if notLast then Endless else Done) && buf[..psize] == more
  {
    psize, notLast, end := hp, true, Endless;
    var framedatasize := |f.body|;
    if f.command % 2 == 1 {
      notLast, end := false, Done;
      if framedatasize == 7 {
        framedatasize := framedatasize - f.command / 2 % 8;
      }
    }
    if psize + framedatasize > buf.Length {
      notLast, end := false, Malformed;
    } else {
      Copy(buf, psize, f.body[..framedatasize]);
      psize := psize + framedatasize;
    }
  }

  lemma NextRequest(address: seq<byte>, ca: bool, k: nat)
    ensures UploadRequest(address, ca, k + 1) == Frame(SEG_UP_REQ + k % 2 * 0x10, address + Zeros(4))
    ensures Flip(k % 2 * 0x10) == (k + 1) % 2 * 0x10
  {
  }

  /** Asks for segment after segment; `Nothing` makes it ask again, with the other toggle bit. */
  method ReadSegments(address: seq<byte>, ca: bool, replies: seq<Reply>, buf: array<byte>, first: nat)
    returns (end: End, psize: nat, requests: seq<Frame>)
    requires first <= buf.Length
    modifies buf
    ensures psize <= buf.Length && Outcome(end, buf[..psize]) == Segmented(replies, buf.Length, old(buf[..first]))
    ensures forall k | 0 <= k < |requests| :: requests[k] == UploadRequest(address, ca, k + 1)
    ensures |requests| <= |replies| && (end != Endless ==> requests != [])
    ensures end == Endless ==> |requests| == |replies|
  {
    hide Segmented, SegmentSize, UploadRequest, Flip;
    requests, psize, end := [], first, Endless;
    var toggle := 0;
    var notLast := true;
    ghost var goal := Segmented(replies, buf.Length, buf[..first]);
    assert replies[0..] == replies;
    while notLast && |requests| < |replies|
      invariant psize <= buf.Length && |requests| <= |replies|
      invariant toggle == |requests| % 2 * 0x10
      invariant forall k | 0 <= k < |requests| :: requests[k] == UploadRequest(address, ca, k + 1)
      invariant notLast ==> end == Endless && goal == Segmented(replies[|requests|..], buf.Length, buf[..psize])
      invariant !notLast ==> goal == Outcome(end, buf[..psize]) && requests != []
      invariant end == Endless ==> notLast
      decreases |replies| - |requests|
    {
      var reply := replies[|requests|];
      SegmentedFrom(replies, |requests|, buf.Length, buf[..psize]);
      NextRequest(address, ca, |requests|);
      requests := requests + [Frame(SEG_UP_REQ + toggle, address + Zeros(4))];
      if reply.Response? {
        var f := reply.frame;
        if f.command / 0x20 % 8 == 0 {
          psize, notLast, end := TakeSegment(f, buf, psize);
        } else {
          notLast, end := false, Unexpected;
        }
      } else if reply.Other? {
        notLast, end := false, Unexpected;
      }
      toggle := Flip(toggle);
    }
    SegmentedFrom(replies, |requests|, buf.Length, buf[..psize]);
  }

  /** Reads an object of the slave into `buf`. */
  method Read(index: nat, subindex: nat, ca: bool, replies: seq<Reply>, buf: array<byte>)
    returns (end: End, psize: nat, requests: seq<Frame>)
    modifies buf
    ensures var r := Reading(index, replies, buf.Length);
            end == r.end && (end.Done? ==> psize == |r.data| <= buf.Length && buf[..psize] == r.data)
    ensures forall k | 0 <= k < |requests| :: requests[k] == UploadRequest(Address(index, subindex, ca), ca, k)
    ensures requests != []
    ensures index < 0x1_0000 && subindex < 0x100 ==>
              forall k | 0 <= k < |requests| :: Names(requests[k], index, if ca && subindex > 1 then 1 else subindex)
    ensures Specifies(requests[0], 2) && (FifthBit(requests[0]) <==> ca)
    ensures forall k | 0 < k < |requests| :: Specifies(requests[k], 3) && (FifthBit(requests[k]) <==> k % 2 == 0)
  {
    end, psize, requests := ReadFrames(index, subindex, ca, replies, buf);
    forall k | 0 <= k < |requests|
      ensures Specifies(requests[k], if k == 0 then 2 else 3) &&
              (FifthBit(requests[k]) <==> if k == 0 then ca else k % 2 == 0)
      ensures index < 0x1_0000 && subindex < 0x100 ==>
                Names(requests[k], index, if ca && subindex > 1 then 1 else subindex)
    {
      var address := Address(index, subindex, ca);
      UploadRequestsToggle(address, ca, k);
      assert requests[k].body[..3] == address;
      if index < 0x1_0000 && subindex < 0x100 {
        AddressNames(index, if ca && subindex > 1 then 1 else subindex, requests[k].body);
      }
    }
  }

  method ReadFrames(index: nat, subindex: nat, ca: bool, replies: seq<Reply>, buf: array<byte>)
    returns (end: End, psize: nat, requests: seq<Frame>)
    modifies buf
    ensures var r := Reading(index, replies, buf.Length);
            end == r.end && (end.Done? ==> psize == |r.data| <= buf.Length && buf[..psize] == r.data)
    ensures forall k | 0 <= k < |requests| :: requests[k] == UploadRequest(Address(index, subindex, ca), ca, k)
    ensures requests != []
  {
    hide Segmented, LittleEndian, FromLittleEndian, SegmentSize;
    var sub := subindex;
    if ca && sub > 1 {
      sub := 1;
    }
    var address := LittleEndian(index, 2) + LittleEndian(sub, 1);
    requests, psize := [Frame(if ca then UP_REQ_CA else UP_REQ, address + Zeros(4))], buf.Length;
    if replies == [] || replies[0].Nothing? {
      end := NoAnswer;
    } else if replies[0].Other? {
      end := Unexpected;
    } else {
      var more;
      end, psize, more := TakeFirst(index, address, ca, replies[0].frame, replies[1..], buf);
      requests := requests + more;
    }
  }

  method TakeFirst(index: nat, address: seq<byte>, ca: bool, f: Frame, rest: seq<Reply>, buf: array<byte>)
    returns (end: End, psize: nat, requests: seq<Frame>)
    modifies buf
    ensures var r := FirstFrame(index, f, rest, buf.Length);
            end == r.end && (end.Done? ==> psize == |r.data| <= buf.Length && buf[..psize] == r.data)
    ensures forall k | 0 <= k < |requests| :: requests[k] == UploadRequest(address, ca, k + 1)
  {
    hide Segmented, LittleEndian, FromLittleEndian, SegmentSize, UploadRequest;
    psize, requests := buf.Length, [];
    if |f.body| < 7 {
      end := Malformed;
    } else if f.body[..2] != LittleEndian(index, 2) {
      end := Unexpected;
    } else if f.command / 2 % 2 == 1 {
      var bytesize := 4 - f.command / 4 % 4;
      if psize >= bytesize {
        Copy(buf, 0, f.body[3..3 + bytesize]);
        psize, end := bytesize, Done;
      } else {
        end := TooSmall;
      }
    } else {
      end, psize, requests := TakeNormal(index, address, ca, f, rest, buf);
    }
  }

  method TakeNormal(index: nat, address: seq<byte>, ca: bool, f: Frame, rest: seq<Reply>, buf: array<byte>)
    returns (end: End, psize: nat, requests: seq<Frame>)
    requires |f.body| >= 7 && f.body[..2] == LittleEndian(index, 2) && f.command / 2 % 2 == 0
    modifies buf
    ensures var r := FirstFrame(index, f, rest, buf.Length);
            end == r.end && (end.Done? ==> psize == |r.data| <= buf.Length && buf[..psize] == r.data)
    ensures forall k | 0 <= k < |requests| :: requests[k] == UploadRequest(address, ca, k + 1)
  {
    hide Segmented, LittleEndian, FromLittleEndian, SegmentSize, UploadRequest;
    psize, requests := buf.Length, [];
    var sdoLen := FromLittleEndian(f.body[3..7]);
    if sdoLen >= 0x8000_0000 {
      end := Malformed;
    } else if sdoLen <= psize {
      var framedatasize := |f.body| - 7;
      if framedatasize < sdoLen {
        Copy(buf, 0, f.body[7..]);
        assert buf[..framedatasize] == f.body[7..];
        end, psize, requests := ReadSegments(address, ca, rest, buf, framedatasize);
      } else {
        Copy(buf, 0, f.body[7..7 + sdoLen]);
        psize, end := sdoLen, Done;
      }
    } else {
      end := TooSmall;
    }
  }

  // ----- Round trip.

  function Answers(fs: seq<Frame>): (replies: seq<Reply>)
    ensures |replies| == |fs|
  {
    seq(|fs|, i requires 0 <= i < |fs| => Response(fs[i]))
  }

  lemma SegmentShape(p: seq<byte>, max: nat, pos: nat, toggle: nat, before: seq<byte>)
    requires pos <= |p| && |before| >= 7 && max >= 7 && (toggle == 0 || toggle == 0x10)
    ensures var f := Segment(p, max, pos, toggle, before);
            var more := (|p| - pos) % 0x1_0000 > max;
            var size := FrameData(|p| - pos, max);
            f.command < 0x20 && f.command / 0x10 == toggle / 0x10 && (f.command % 2 == 0 <==> more) &&
            7 <= |f.body| <= max && SegmentSize(f) == size && f.body[..size] == p[pos..pos + size]
  {
  }

  lemma AnswersFrom(f: Frame, rest: seq<Frame>, more: seq<Reply>)
    ensures Answers([f] + rest) + more == [Response(f)] + (Answers(rest) + more)
  {
    var fs := [f] + rest;
    assert forall i | 0 <= i < |rest| :: fs[i + 1] == rest[i];
  }

  lemma StepSegmented(f: Frame, rest: seq<Reply>, size: nat, data: seq<byte>)
    requires f.command < 0x20 && |data| + SegmentSize(f) <= size
    ensures var more := data + f.body[..SegmentSize(f)];
            Segmented([Response(f)] + rest, size, data) ==
            if f.command % 2 == 1 then Outcome(Done, more) else Segmented(rest, size, more)
  {
    assert ([Response(f)] + rest)[1..] == rest;
    assert f.body[..|f.body|] == f.body;
  }

  lemma {:induction false} SegmentsAreRead(p: seq<byte>, max: nat, pos: nat, toggle: nat, before: seq<byte>, size: nat,
                                           more: seq<Reply>)
    requires pos <= |p| <= size && |p| - pos < 0x1_0000 && |before| >= 7 && max >= 7 && (toggle == 0 || toggle == 0x10)
    ensures Segmented(Answers(Segments(p, max, pos, toggle, before)) + more, size, p[..pos]) == Outcome(Done, p)
    decreases |p| - pos
  {
    hide Segmented, SegmentSize, Segment;
    var f := Segment(p, max, pos, toggle, before);
    SegmentShape(p, max, pos, toggle, before);
    var n := FrameData(|p| - pos, max);
    var next := p[..pos] + p[pos..pos + n];
    assert next == p[..pos + n];
    var rest := if |p| - pos > max then Segments(p, max, pos + max, Flip(toggle), f.body) else [];
    assert Segments(p, max, pos, toggle, before) == [f] + rest;
    AnswersFrom(f, rest, more);
    StepSegmented(f, Answers(rest) + more, size, p[..pos]);
    if |p| - pos > max {
      SegmentsAreRead(p, max, pos + max, Flip(toggle), f.body, size, more);
    } else {
      assert p[..pos + n] == p;
    }
  }

  /** If 65536 bytes or more are left, at least that many never travel. */
  lemma {:induction false} SegmentsDropBytes(p: seq<byte>, max: nat, pos: nat, toggle: nat, before: seq<byte>,
                                             size: nat,
                                             data: seq<byte>)
    requires pos + 0x1_0000 <= |p| && |before| >= 7 && max >= 7 && (toggle == 0 || toggle == 0x10)
    requires |data| <= pos
    ensures |Segmented(Answers(Segments(p, max, pos, toggle, before)), size, data).data| + 0x1_0000 <= |p|
    decreases |p| - pos
  {
    hide Segmented, SegmentSize, Segment;
    var f := Segment(p, max, pos, toggle, before);
    SegmentShape(p, max, pos, toggle, before);
    var again := (|p| - pos) % 0x1_0000 > max;
    var rest := if again then Segments(p, max, pos + max, Flip(toggle), f.body) else [];
    var next := data + f.body[..SegmentSize(f)];
    assert Segments(p, max, pos, toggle, before) == [f] + rest;
    AnswersFrom(f, rest, []);
    assert Answers([f] + rest) + [] == Answers([f] + rest) && Answers(rest) + [] == Answers(rest);
    if |next| > size {
      TooLongStops(f, Answers(rest), size, data);
    } else {
      StepSegmented(f, Answers(rest), size, data);
      if again {
        SegmentsDropBytes(p, max, pos + max, Flip(toggle), f.body, size, next);
      }
    }
  }

  lemma TooLongStops(f: Frame, rest: seq<Reply>, size: nat, data: seq<byte>)
    requires f.command < 0x20 && |data| + SegmentSize(f) > size
    ensures Segmented([Response(f)] + rest, size, data) == Outcome(Malformed, data)
  {
  }

  lemma InitiateIsRead(p: seq<byte>, maxdata: nat, address: seq<byte>, ca: bool)
    requires |address| == 3 && |p| < 0x1_0000_0000
    ensures var f := Initiate(p, maxdata, address, ca);
            f.command / 2 % 2 == 0 && f.body[..3] == address && |f.body| == 7 + FrameData(|p|, maxdata) &&
            FromLittleEndian(f.body[3..7]) == |p| && f.body[7..] == p[..FrameData(|p|, maxdata)]
  {
    hide LittleEndian, FromLittleEndian;
    assert Pow256(4) == 256 * Pow256(3) == 256 * 256 * Pow256(2) == 256 * 256 * 256 * Pow256(1);
    ReadsBack(|p|, 4);
    assert Initiate(p, maxdata, address, ca).body[3..7] == LittleEndian(|p|, 4);
  }

  lemma ReadsFirst(index: nat, f: Frame, rest: seq<Frame>, more: seq<Reply>, size: nat)
    ensures Reading(index, Answers([f] + rest) + more, size) == FirstFrame(index, f, Answers(rest) + more, size)
  {
    AnswersFrom(f, rest, more);
    assert ([Response(f)] + (Answers(rest) + more))[1..] == Answers(rest) + more;
  }

  lemma ExpeditedIsRead(p: seq<byte>, index: nat, address: seq<byte>, size: nat, more: seq<Reply>)
    requires |p| <= 4 && |address| == 3 && address[..2] == LittleEndian(index, 2)
    ensures FirstFrame(index, Expedited(p, address), more, size) ==
              if p == [] then (if size >= 4 then Outcome(Done, Zeros(4)) else Outcome(TooSmall, []))
              else if |p| <= size then Outcome(Done, p)
              else Outcome(TooSmall, [])
  {
    hide Segmented, FromLittleEndian, LittleEndian;
    var f := Expedited(p, address);
    var n := 4 - f.command / 4 % 4;
    assert f.body[..2] == address[..2];
    assert n == if p == [] then 4 else |p|;
    assert f.body[3..3 + n] == p + Zeros(n - |p|);
  }

  lemma NormalIsRead(p: seq<byte>, mbxLength: nat, index: nat, address: seq<byte>, ca: bool, size: nat,
                     more: seq<Reply>)
    requires mbxLength >= 16 && |address| == 3 && address[..2] == LittleEndian(index, 2)
    requires |p| > 4 || ca
    requires |p| < 0x1_0000 && |p| <= size
    ensures Reading(index, Answers(Frames(p, mbxLength, address, ca)) + more, size) == Outcome(Done, p)
  {
    hide Segmented, Initiate, LittleEndian, FromLittleEndian, Segments, Reading;
    var maxdata := mbxLength - 16;
    var f := Initiate(p, maxdata, address, ca);
    InitiateIsRead(p, maxdata, address, ca);
    assert f.body[..2] == f.body[..3][..2];
    var rest := if |p| > maxdata then Segments(p, maxdata + 7, maxdata, 0, f.body) else [];
    assert Frames(p, mbxLength, address, ca) == [f] + rest;
    ReadsFirst(index, f, rest, more, size);
    if |p| > maxdata {
      SegmentsAreRead(p, maxdata + 7, maxdata, 0, f.body, size, more);
    } else {
      assert f.body[7..7 + |p|] == f.body[7..];
    }
  }

  lemma NormalIsLost(p: seq<byte>, mbxLength: nat, index: nat, address: seq<byte>, ca: bool, size: nat)
    requires mbxLength >= 16 && |address| == 3 && address[..2] == LittleEndian(index, 2)
    requires |p| > 4 || ca
    requires |p| < 0x8000_0000 && (|p| >= 0x1_0000 || |p| > size)
    ensures Reading(index, Answers(Frames(p, mbxLength, address, ca)), size) != Outcome(Done, p)
  {
    hide Initiate, LittleEndian, FromLittleEndian, Segments, Reading, SegmentSize;
    var maxdata := mbxLength - 16;
    var f := Initiate(p, maxdata, address, ca);
    InitiateIsRead(p, maxdata, address, ca);
    assert f.body[..2] == f.body[..3][..2];
    var more := |p| % 0x1_0000 > maxdata;
    var rest := if more then Segments(p, maxdata + 7, maxdata, 0, f.body) else [];
    assert Frames(p, mbxLength, address, ca) == [f] + rest;
    ReadsFirst(index, f, rest, [], size);
    assert Answers([f] + rest) + [] == Answers([f] + rest) && Answers(rest) + [] == Answers(rest);
    if |p| <= size && more {
      SegmentsDropBytes(p, maxdata + 7, maxdata, 0, f.body, size, f.body[7..]);
    }
  }

  lemma AddressHasIndex(index: nat, subindex: nat, ca: bool)
    ensures Address(index, subindex, ca)[..2] == LittleEndian(index, 2)
  {
  }

  /** The frames of a download, read with the rules for uploads, give back the parameter, whatever
      follows, if and only if it fits the buffer, is shorter than 65536 bytes (the size of a frame is
      computed in 16 bits) and is not an empty one without complete access (its expedited frame
      announces four bytes). */
  lemma RoundTripIff(p: seq<byte>, mbxLength: nat, index: nat, subindex: nat, ca: bool, size: nat)
    requires mbxLength >= 16 && |p| < 0x8000_0000
    ensures var replies := Answers(Frames(p, mbxLength, Address(index, subindex, ca), ca));
            (forall more :: Reading(index, replies + more, size) == Outcome(Done, p)) <==>
              |p| <= size && |p| < 0x1_0000 && (p != [] || ca)
  {
    hide Reading, Segments, Initiate, Expedited, FirstFrame, Address;
    var address := Address(index, subindex, ca);
    var replies := Answers(Frames(p, mbxLength, address, ca));
    AddressHasIndex(index, subindex, ca);
    assert replies + [] == replies;
    if |p| <= 4 && !ca {
      var f := Expedited(p, address);
      assert [f] + [] == [f];
      forall more ensures Reading(index, replies + more, size) == FirstFrame(index, f, Answers([]) + more, size) {
        ReadsFirst(index, f, [], more, size);
      }
      forall more {
        ExpeditedIsRead(p, index, address, size, more);
      }
      assert Reading(index, replies + [], size) == FirstFrame(index, f, Answers([]) + [], size);
    } else if |p| <= size && |p| < 0x1_0000 {
      forall more ensures Reading(index, replies + more, size) == Outcome(Done, p) {
        NormalIsRead(p, mbxLength, index, address, ca, size, more);
      }
    } else {
      NormalIsLost(p, mbxLength, index, address, ca, size);
      assert Reading(index, replies + [], size) != Outcome(Done, p);
    }
  }

  // ----- What is accepted.

  /** How many of the data bytes of a segment count, as the slave marks it. */
  function Useful(f: Frame): nat {
    if f.command % 2 == 0 || |f.body| != 7 then |f.body| else 7 - f.command / 2 % 8
  }

  /** The data of the segments among the first `n` replies. */
  function Bodies(replies: seq<Reply>, n: nat): seq<byte>
    requires n <= |replies|
  {
    if n == 0 then [] else
      Bodies(replies, n - 1) +
      match replies[n - 1]
      case Response(f) => f.body[..Useful(f)]
      case _ => []
  }

  predicate IsSegmentReply(r: Reply, last: bool) {
    (r.Nothing? && !last) || (r.Response? && r.frame.command / 0x20 % 8 == 0 && (r.frame.command % 2 == 1 <==> last))
  }

  lemma BodiesNext(replies: seq<Reply>, n: nat)
    requires replies != [] && n + 1 <= |replies|
    ensures Bodies(replies, n + 1) == Bodies(replies, 1) + Bodies(replies[1..], n)
  {
    if n > 0 {
      BodiesNext(replies, n - 1);
      assert replies[1..][n - 1] == replies[n];
    } else {
      assert Bodies(replies, 1) + [] == Bodies(replies, 1);
    }
  }

  /** A segmented transfer is done with the first last segment, if all replies before are segments or missing; its
      data are those of all segments, one after the other, which fit the buffer. */
  lemma {:induction false} SegmentedIsDone(replies: seq<Reply>, size: nat, data: seq<byte>) returns (n: nat)
    requires Segmented(replies, size, data).end == Done
    ensures n < |replies| && IsSegmentReply(replies[n], true)
    ensures forall k | 0 <= k < n :: IsSegmentReply(replies[k], false)
    ensures Segmented(replies, size, data).data == data + Bodies(replies, n + 1)
    ensures |data + Bodies(replies, n + 1)| <= size
    decreases |replies|
  {
    hide Bodies, Segmented, Useful;
    DoneStep(replies, size, data);
    if replies[0].Response? && replies[0].frame.command % 2 == 1 {
      n := 0;
    } else {
      var m := SegmentedIsDone(replies[1..], size, data + Bodies(replies, 1));
      n := m + 1;
      BodiesNext(replies, n);
      assert data + (Bodies(replies, 1) + Bodies(replies[1..], n)) ==
        (data + Bodies(replies, 1)) + Bodies(replies[1..], n);
      forall k | 0 <= k < n ensures IsSegmentReply(replies[k], false) {
        assert k > 0 ==> replies[k] == replies[1..][k - 1];
      }
      assert replies[n] == replies[1..][m];
    }
  }

  lemma DoneStep(replies: seq<Reply>, size: nat, data: seq<byte>)
    requires Segmented(replies, size, data).end == Done
    ensures replies != [] && !replies[0].Other? && (replies[0].Response? ==> replies[0].frame.command / 0x20 % 8 == 0)
    ensures if replies[0].Response? && replies[0].frame.command % 2 == 1
            then Segmented(replies, size, data).data == data + Bodies(replies, 1) && |data + Bodies(replies, 1)| <= size
            else Segmented(replies, size, data) == Segmented(replies[1..], size, data + Bodies(replies, 1))
  {
    hide Bodies;
    OneBody(replies);
    assert data + [] == data;
  }

  lemma OneBody(replies: seq<Reply>)
    requires replies != []
    ensures Bodies(replies, 1) == if replies[0].Response? then replies[0].frame.body[..Useful(replies[0].frame)] else []
    ensures replies[0].Response? && replies[0].frame.command % 2 == 0 ==> Bodies(replies, 1) == replies[0].frame.body
    ensures replies[0].Response? ==> Useful(replies[0].frame) == SegmentSize(replies[0].frame)
  {
    assert Bodies(replies, 0) == [];
  }

  /** Only answers for the right object are accepted, and nothing is added to their data: an expedited one brings
      one to four bytes, a normal one as many as it announces, with the segments after it if it is too short. */
  lemma AcceptedAnswer(index: nat, replies: seq<Reply>, size: nat)
    requires Reading(index, replies, size).end == Done && index < 0x1_0000
    ensures replies != [] && replies[0].Response? && |replies[0].frame.body| >= 7
    ensures var f, data := replies[0].frame, Reading(index, replies, size).data;
            f.body[0] as nat + 256 * f.body[1] as nat == index && |data| <= size &&
            if f.command / 2 % 2 == 1 then data == f.body[3..7 - f.command / 4 % 4]
            else
              var announced := FromLittleEndian(f.body[3..7]);
              announced <= size &&
              if |f.body| - 7 >= announced then data == f.body[7..7 + announced] else f.body[7..] <= data
  {
    hide Segmented, FromLittleEndian, LittleEndian;
    var f := replies[0].frame;
    IndexBytes(index, f.body);
    if f.command / 2 % 2 == 0 && |f.body| - 7 < FromLittleEndian(f.body[3..7]) {
      var n := SegmentedIsDone(replies[1..], size, f.body[7..]);
    }
  }

  lemma IndexBytes(index: nat, body: seq<byte>)
    requires index < 0x1_0000 && |body| >= 2 && body[..2] == LittleEndian(index, 2)
    ensures body[0] as nat + 256 * body[1] as nat == index
  {
    assert LittleEndian(index, 2) == [(index % 256) as byte] + LittleEndian(index / 256, 1);
    assert body[..2][0] == body[0] && body[..2][1] == body[1];
  }

  /** Why a first answer is not accepted. */
  lemma RefusedAnswer(index: nat, replies: seq<Reply>, size: nat)
    requires index < 0x1_0000
    ensures var end := Reading(index, replies, size).end;
            (replies == [] || replies[0] == Nothing <==> end == NoAnswer) &&
            (replies != [] && replies[0] == Other ==> end == Unexpected) &&
            (replies != [] && replies[0].Response? ==>
               var f := replies[0].frame;
               (|f.body| >= 7 && f.body[0] as nat + 256 * f.body[1] as nat != index ==> end == Unexpected) &&
               (|f.body| >= 7 && f.body[0] as nat + 256 * f.body[1] as nat == index ==>
                  (end == TooSmall <==>
                     size < if f.command / 2 % 2 == 1 then 4 - f.command / 4 % 4 else
                              var announced := FromLittleEndian(f.body[3..7]);
                              if announced >= 0x8000_0000 then 0 else announced)))
  {
    hide FromLittleEndian, LittleEndian, Segmented;
    if replies != [] && replies[0].Response? && |replies[0].frame.body| >= 7 {
      IndexBytesIff(index, replies[0].frame.body);
      SegmentedEnds(replies[1..], size, replies[0].frame.body[7..]);
    }
  }

  lemma IndexBytesIff(index: nat, body: seq<byte>)
    requires index < 0x1_0000 && |body| >= 2
    ensures body[..2] == LittleEndian(index, 2) <==> body[0] as nat + 256 * body[1] as nat == index
  {
    assert LittleEndian(index, 2) == [(index % 256) as byte] + LittleEndian(index / 256, 1);
    assert body[..2][0] == body[0] && body[..2][1] == body[1];
  }

  lemma {:induction false} SegmentedEnds(replies: seq<Reply>, size: nat, data: seq<byte>)
    ensures Segmented(replies, size, data).end != TooSmall && Segmented(replies, size, data).end != NoAnswer
    decreases |replies|
  {
    if replies != [] && replies[0].Nothing? {
      SegmentedEnds(replies[1..], size, data);
    } else if replies != [] && replies[0].Response? {
      SegmentedEnds(replies[1..], size, data + replies[0].frame.body);
    }
  }

  // ----- What every frame keeps.

  /** No frame is longer than the mailbox, and all but the last one fill it: six header bytes, two bytes of CoE
      header, the command and the body. The toggle bits of the segments alternate, and only the last one is marked
      as such. */
  lemma {:induction false} SegmentsAreWellFormed(p: seq<byte>, max: nat, pos: nat, toggle: nat, before: seq<byte>,
                                                 k: nat)
    requires pos <= |p| && |before| >= 7 && max >= 7 && (toggle == 0 || toggle == 0x10)
    requires k < |Segments(p, max, pos, toggle, before)|
    ensures var fs := Segments(p, max, pos, toggle, before);
            7 <= |fs[k].body| <= max && fs[k].command < 0x20 && (k < |fs| - 1 ==> |fs[k].body| == max) &&
            fs[k].command / 0x10 == (toggle / 0x10 + k) % 2 && (fs[k].command % 2 == 1 <==> k == |fs| - 1)
    decreases |p| - pos
  {
    hide Segment, SegmentSize, Flip, Segments, FrameData;
    SegmentShape(p, max, pos, toggle, before);
    SegmentsNext(p, max, pos, toggle, before);
    if k > 0 {
      ToggleAlternates(toggle, k);
      SegmentsAreWellFormed(p, max, pos + max, Flip(toggle), Segment(p, max, pos, toggle, before).body, k - 1);
    } else {
      FirstToggle(toggle);
    }
  }

  lemma SegmentsNext(p: seq<byte>, max: nat, pos: nat, toggle: nat, before: seq<byte>)
    requires pos <= |p| && |before| >= 7 && max >= 7
    ensures var f, fs := Segment(p, max, pos, toggle, before), Segments(p, max, pos, toggle, before);
            fs[0] == f &&
            if (|p| - pos) % 0x1_0000 > max
            then |f.body| == max && fs[1..] == Segments(p, max, pos + max, Flip(toggle), f.body) && |fs| > 1
            else |fs| == 1
  {
  }

  lemma FirstToggle(toggle: nat)
    requires toggle == 0 || toggle == 0x10
    ensures toggle / 0x10 == (toggle / 0x10 + 0) % 2
  {
  }

  lemma ToggleAlternates(toggle: nat, k: nat)
    requires k > 0 && (toggle == 0 || toggle == 0x10)
    ensures (Flip(toggle) / 0x10 + k - 1) % 2 == (toggle / 0x10 + k) % 2 && (Flip(toggle) == 0 || Flip(toggle) == 0x10)
  {
  }

  lemma FramesAreWellFormed(p: seq<byte>, mbxLength: nat, index: nat, subindex: nat, ca: bool, k: nat)
    requires mbxLength >= 16
    requires k < |Frames(p, mbxLength, Address(index, subindex, ca), ca)|
    ensures var fs := Frames(p, mbxLength, Address(index, subindex, ca), ca);
            16 <= fs[k].Length() + 6 <= mbxLength && (k < |fs| - 1 ==> fs[k].Length() + 6 == mbxLength) &&
            (k > 0 ==> fs[k].command / 0x10 == (k - 1) % 2 && (fs[k].command % 2 == 1 <==> k == |fs| - 1))
  {
    hide Segments, LittleEndian;
    if k > 0 {
      var f := Initiate(p, mbxLength - 16, Address(index, subindex, ca), ca);
      SegmentsAreWellFormed(p, mbxLength - 9, mbxLength - 16, 0, f.body, k - 1);
    }
  }

  /** Up to four bytes go into one expedited frame, which says how many, if access is not complete; otherwise the
      first frame announces the size. */
  lemma FirstAnnounces(p: seq<byte>, mbxLength: nat, index: nat, subindex: nat, ca: bool)
    requires mbxLength >= 16
    ensures var fs := Frames(p, mbxLength, Address(index, subindex, ca), ca);
            if |p| <= 4 && !ca
            then |fs| == 1 && fs[0].command == (if |p| == 0 then 0x23 else 0x33 - 4 * |p|) && |fs[0].body| == 7 &&
                 fs[0].body[3..3 + |p|] == p
            else fs[0].command == (if ca then 0x31 else 0x21) &&
                 (|p| < 0x1_0000_0000 ==> FromLittleEndian(fs[0].body[3..7]) == |p|) && fs[0].body[7..] <= p
  {
    hide Segments, LittleEndian, FromLittleEndian;
    if (|p| > 4 || ca) && |p| < 0x1_0000_0000 {
      InitiateIsRead(p, mbxLength - 16, Address(index, subindex, ca), ca);
    }
  }
}

/** Chains of EtherCAT datagrams in one Ethernet frame: how the master writes them into its transmit
    buffer, and how they parse back. */
module Datagram {
  import opened Basics

  type word = n: nat | n < 0x1_0000

  const ETH_HEADER: nat := 14
  const EC_HEADER: nat := 12
  const ELENGTH: nat := 2
  const WKC: nat := 2
  const MAX_FRAME: nat := 1518
  const FOLLOWS: nat := 0x8000

  /** What a caller asks for. */
  datatype Request = Request(command: byte, index: byte, adp: word, ado: word, data: seq<byte>)

  /** A datagram as it stands in a frame. */
  datatype Datagram = Datagram(command: byte, index: byte, adp: word, ado: word, follows: bool, data: seq<byte>)

  /** NOP, APRD, FPRD, BRD and LRD read only: their data start as zeros. */
  predicate ReadsOnly(command: byte) {
    command in {0, 1, 4, 7, 10}
  }

  function Carried(r: Request): (s: seq<byte>)
    ensures |s| == |r.data|
    ensures forall i | 0 <= i < |s| :: s[i] == if ReadsOnly(r.command) then 0 else r.data[i]
  {
    if ReadsOnly(r.command) then seq(|r.data|, _ => 0) else r.data
  }

  function InFrame(r: Request, follows: bool): Datagram {
    Datagram(r.command, r.index, r.adp, r.ado, follows, Carried(r))
  }

  // ----- Layout.

  function Word(b: seq<byte>, at: nat): (w: word)
    requires at + 2 <= |b|
  {
    b[at] as nat + 256 * b[at + 1] as nat
  }

  /** Where datagram `k` starts: behind the Ethernet header and the length field. */
  function Offset(chain: seq<Datagram>, k: nat): (n: nat)
    requires k <= |chain|
    ensures n >= 16 && (k > 0 ==> n >= 28)
  {
    if k == 0 then ETH_HEADER + ELENGTH
    else Offset(chain, k - 1) + EC_HEADER - ELENGTH + |chain[k - 1].data| + WKC
  }

  /** The header, the data and the cleared work counter of a datagram. The interrupt field is not set. */
  predicate HoldsAt(b: seq<byte>, at: nat, d: Datagram) {
    at + 12 + |d.data| <= |b| && |d.data| < 0x800 &&
    b[at] == d.command && b[at + 1] == d.index && Word(b, at + 2) == d.adp && Word(b, at + 4) == d.ado &&
    Word(b, at + 6) == |d.data| + (if d.follows then FOLLOWS else 0) &&
    b[at + 10..at + 10 + |d.data|] == d.data && Word(b, at + 10 + |d.data|) == 0
  }

  /** A word, low byte first. */
  predicate HasWord(b: seq<byte>, at: nat, w: nat)
    requires at + 2 <= |b|
  {
    b[at] as nat == w % 256 && b[at + 1] as nat == w / 256
  }

  /** The bytes of a datagram, one by one: command and index, the slave's and the memory address, the length, with
      the top bit for more datagrams, two bytes that are not set, the data, and two bytes of zero. */
  predicate HasBytes(b: seq<byte>, at: nat, r: Request, follows: bool) {
    at + 12 + |r.data| <= |b| && b[at] == r.command && b[at + 1] == r.index &&
    HasWord(b, at + 2, r.adp) && HasWord(b, at + 4, r.ado) &&
    HasWord(b, at + 6, |r.data| + if follows then 0x8000 else 0) &&
    (forall i | 0 <= i < |r.data| ::
       b[at + 10 + i] ==
         if r.command == 0 || r.command == 1 || r.command == 4 || r.command == 7 || r.command == 10 then 0
         else r.data[i]) &&
    HasWord(b, at + 10 + |r.data|, 0)
  }

  lemma WordIs(b: seq<byte>, at: nat)
    requires at + 2 <= |b|
    ensures HasWord(b, at, Word(b, at))
  {
  }

  lemma HoldsBytes(b: seq<byte>, at: nat, r: Request, follows: bool)
    requires HoldsAt(b, at, InFrame(r, follows))
    ensures HasBytes(b, at, r, follows)
  {
    WordIs(b, at + 2);
    WordIs(b, at + 4);
    WordIs(b, at + 6);
    WordIs(b, at + 10 + |r.data|);
    forall i | 0 <= i < |r.data| ensures b[at + 10 + i] == InFrame(r, follows).data[i] {
      assert b[at + 10..at + 10 + |r.data|][i] == b[at + 10 + i];
    }
    hide HasWord, Word;
  }

  ghost predicate Laid(b: seq<byte>, length: nat, chain: seq<Datagram>) {
    chain != [] && length == Offset(chain, |chain|) <= |b| &&
    Word(b, ETH_HEADER) == 0x1000 + length - 16 &&
    forall k | 0 <= k < |chain| :: HoldsAt(b, Offset(chain, k), chain[k])
  }

  lemma HoldsElsewhere(b: seq<byte>, c: seq<byte>, at: nat, d: Datagram)
    requires HoldsAt(b, at, d) && |b| == |c|
    requires forall i | at <= i < at + 12 + |d.data| :: b[i] == c[i]
    ensures HoldsAt(c, at, d)
  {
    assert b[at + 10..at + 10 + |d.data|] == c[at + 10..at + 10 + |d.data|];
  }

  lemma {:induction false} OffsetsGrow(chain: seq<Datagram>, j: nat, k: nat)
    requires j < k <= |chain|
    ensures Offset(chain, j) + 12 + |chain[j].data| <= Offset(chain, k)
    decreases k
  {
    if j + 1 < k {
      OffsetsGrow(chain, j, k - 1);
    }
  }

  lemma {:induction false} OffsetsDependOnLengths(chain: seq<Datagram>, other: seq<Datagram>, k: nat)
    requires k <= |chain| && k <= |other|
    requires forall i | 0 <= i < k :: |chain[i].data| == |other[i].data|
    ensures Offset(chain, k) == Offset(other, k)
  {
    if k > 0 {
      OffsetsDependOnLengths(chain, other, k - 1);
    }
  }

  // ----- The transmit buffer.

  /** The chain after one more datagram: the first one now says that others follow. */
  function Added(chain: seq<Datagram>, r: Request, more: bool): (c: seq<Datagram>)
    requires chain != []
  {
    [chain[0].(follows := true)] + chain[1..] + [InFrame(r, more)]
  }

  /** The bytes of a frame after an addition: two header words and everything from `length` on are new. */
  ghost predicate Extended(b: seq<byte>, c: seq<byte>, length: nat, r: Request, more: bool) {
    |c| == |b| && 28 <= length && length + 12 + |r.data| <= |b| &&
    Word(c, ETH_HEADER) == Word(b, ETH_HEADER) + EC_HEADER + |r.data| &&
    Word(c, 22) == (if Word(b, 22) < FOLLOWS then Word(b, 22) + FOLLOWS else Word(b, 22)) &&
    HoldsAt(c, length, InFrame(r, more)) &&
    forall i | 16 <= i < length && i != 22 && i != 23 :: c[i] == b[i]
  }

  lemma FirstStillHolds(b: seq<byte>, c: seq<byte>, length: nat, d: Datagram, r: Request, more: bool)
    requires Extended(b, c, length, r, more) && HoldsAt(b, 16, d) && 28 + |d.data| <= length
    ensures HoldsAt(c, 16, d.(follows := true))
  {
    hide HoldsAt;
    assert HoldsAt(c, 16, d.(follows := true)) by {
      FlaggedHolds(b, c, d);
    }
  }

  lemma FlaggedHolds(b: seq<byte>, c: seq<byte>, d: Datagram)
    requires HoldsAt(b, 16, d) && |c| == |b|
    requires Word(c, 22) == if Word(b, 22) < FOLLOWS then Word(b, 22) + FOLLOWS else Word(b, 22)
    requires forall i | 16 <= i < 28 + |d.data| && i != 22 && i != 23 :: c[i] == b[i]
    ensures HoldsAt(c, 16, d.(follows := true))
  {
    assert b[26..26 + |d.data|] == c[26..26 + |d.data|];
  }

  lemma AddedHolds(b: seq<byte>, c: seq<byte>, length: nat, chain: seq<Datagram>, r: Request, more: bool, k: nat)
    requires Laid(b, length, chain) && Extended(b, c, length, r, more) && k <= |chain|
    ensures var after := Added(chain, r, more);
            HoldsAt(c, Offset(after, k), after[k]) && Offset(after, k) == Offset(chain, k)
  {
    hide HoldsAt, Offset;
    var after := Added(chain, r, more);
    OffsetsDependOnLengths(chain, after, k);
    if k < |chain| {
      OffsetsGrow(chain, k, |chain|);
      FirstOffsets(chain, k);
      if k == 0 {
        FirstStillHolds(b, c, length, chain[0], r, more);
      } else {
        HoldsElsewhere(b, c, Offset(chain, k), chain[k]);
      }
    }
  }

  lemma FirstOffsets(chain: seq<Datagram>, k: nat)
    requires k <= |chain|
    ensures Offset(chain, 0) == 16 && (k > 0 ==> Offset(chain, k) >= 28)
  {
  }

  lemma AddedIsLaid(b: seq<byte>, c: seq<byte>, length: nat, chain: seq<Datagram>, r: Request, more: bool)
    requires Laid(b, length, chain) && Extended(b, c, length, r, more)
    ensures Laid(c, length + 12 + |r.data|, Added(chain, r, more))
    ensures Offset(Added(chain, r, more), |chain|) == length
  {
    hide HoldsAt, Offset;
    var after := Added(chain, r, more);
    forall k | 0 <= k < |after| ensures HoldsAt(c, Offset(after, k), after[k]) {
      AddedHolds(b, c, length, chain, r, more, k);
    }
    AddedHolds(b, c, length, chain, r, more, |chain|);
    LastOffset(after, |chain|);
  }

  lemma LastOffset(chain: seq<Datagram>, k: nat)
    requires k < |chain|
    ensures Offset(chain, k + 1) == Offset(chain, k) + 12 + |chain[k].data|
  {
  }

  class TxBuffer {
    const frame: array<byte>
    var length: nat

    constructor ()
      ensures frame.Length == MAX_FRAME && fresh(frame)
    {
      frame := new byte[MAX_FRAME](_ => 0);
      length := 0;
    }

    method Put16(at: nat, w: word)
      requires at + 2 <= frame.Length
      modifies frame
      ensures Word(frame[..], at) == w
      ensures forall i | 0 <= i < frame.Length && i != at && i != at + 1 :: frame[i] == old(frame[i])
    {
      frame[at], frame[at + 1] := (w % 256) as byte, (w / 256) as byte;
    }

    /** Copies the data, or clears the place where the answer will be. */
    method WriteData(at: nat, r: Request)
      requires at + |r.data| <= frame.Length
      modifies frame
      ensures frame[at..at + |r.data|] == Carried(r)
      ensures forall i | 0 <= i < frame.Length && !(at <= i < at + |r.data|) :: frame[i] == old(frame[i])
    {
      if ReadsOnly(r.command) {
        forall i | 0 <= i < |r.data| {
          frame[at + i] := 0;
        }
      } else {
        forall i | 0 <= i < |r.data| {
          frame[at + i] := r.data[i];
        }
      }
    }

    /** Writes one datagram, from the command byte on. */
    method WriteDatagram(at: nat, r: Request, follows: bool)
      requires at + 12 + |r.data| <= frame.Length && |r.data| < 0x800
      modifies frame
      ensures HoldsAt(frame[..], at, InFrame(r, follows)) && HasBytes(frame[..], at, r, follows)
      ensures forall i | 0 <= i < at || at + 12 + |r.data| <= i < frame.Length :: frame[i] == old(frame[i])
    {
      frame[at], frame[at + 1] := r.command, r.index;
      Put16(at + 2, r.adp);
      Put16(at + 4, r.ado);
      Put16(at + 6, |r.data| + if follows then FOLLOWS else 0);
      WriteData(at + 10, r);
      Put16(at + 10 + |r.data|, 0);
      assert frame[..][at + 10..at + 10 + |r.data|] == Carried(r);
      HoldsBytes(frame[..], at, r, follows);
    }

    /** Starts a frame. */
    method Setup(r: Request)
      requires frame.Length == MAX_FRAME && 28 + |r.data| <= MAX_FRAME
      modifies frame, this`length
      ensures Laid(frame[..], length, [InFrame(r, false)])
      ensures HasBytes(frame[..], 16, r, false) && HasWord(frame[..], 14, 0x1000 + 12 + |r.data|)
      ensures length == 28 + |r.data|
    {
      Put16(ETH_HEADER, 0x1000 + EC_HEADER + |r.data|);
      WriteDatagram(ETH_HEADER + ELENGTH, r, false);
      length := ETH_HEADER + EC_HEADER + WKC + |r.data|;
      WordIs(frame[..], 14);
    }

    /** Adds a datagram to a frame, and returns where its data will be in the received frame. */
    method Add(r: Request, more: bool, ghost chain: seq<Datagram>) returns (offset: nat)
      requires frame.Length == MAX_FRAME && length + 12 + |r.data| <= MAX_FRAME
      requires Laid(frame[..], length, chain)
      modifies frame, this`length
      ensures Laid(frame[..], length, Added(chain, r, more))
      ensures length == old(length) + 12 + |r.data|
      ensures offset + ETH_HEADER == Offset(Added(chain, r, more), |chain|) + 10
      ensures HasBytes(frame[..], old(length), r, more) && HasWord(frame[..], 14, 0x1000 + length - 16)
      ensures offset == old(length) - 4
    {
      hide HoldsAt, Offset, Carried, HasBytes;
      ghost var before := frame[..];
      StartIsLaid(before, length, chain);
      var prevlength := length;
      Put16(ETH_HEADER, Word(frame[..], ETH_HEADER) + EC_HEADER + |r.data|);
      var dlength := Word(frame[..], 22);
      assert dlength == Word(before, 22);
      Put16(22, if dlength < FOLLOWS then dlength + FOLLOWS else dlength);
      WriteDatagram(prevlength, r, more);
      length := prevlength + 12 + |r.data|;
      offset := prevlength + EC_HEADER - ELENGTH - ETH_HEADER;
      assert Extended(before, frame[..], prevlength, r, more);
      AddedIsLaid(before, frame[..], prevlength, chain, r, more);
      WordIs(frame[..], 14);
    }
  }

  lemma StartIsLaid(b: seq<byte>, length: nat, chain: seq<Datagram>)
    requires Laid(b, length, chain)
    ensures length >= 28 && Word(b, 14) == 0x1000 + length - 16
  {
  }

  // ----- Parsing.

  /** Reads the datagram that starts at `at`; the length takes 11 bits of its word. */
  function ReadAt(b: seq<byte>, at: nat): (r: Option<Datagram>)
    ensures r.Some? ==> at + 12 + |r.value.data| <= |b|
  {
    if at + 12 > |b| then None else
      var w := Word(b, at + 6);
      var n := w % 0x800;
      if at + 12 + n > |b| then None
      else Some(Datagram(b[at], b[at + 1], Word(b, at + 2), Word(b, at + 4), w >= FOLLOWS, b[at + 10..at + 10 + n]))
  }

  /** Reads datagrams until one says that no other follows, as a slave that processes the frame does. */
  function Parse(b: seq<byte>, at: nat): Option<seq<Datagram>>
    decreases |b| - at
  {
    match ReadAt(b, at)
    case None => None
    case Some(d) =>
      if !d.follows then Some([d]) else
        match Parse(b, at + 12 + |d.data|)
        case None => None
        case Some(rest) => Some([d] + rest)
  }

  lemma ReadsWhatItHolds(b: seq<byte>, at: nat, d: Datagram)
    requires HoldsAt(b, at, d)
    ensures ReadAt(b, at) == Some(d)
  {
  }

  /** The first datagrams that say that another one follows. */
  function Announced(chain: seq<Datagram>, k: nat): (n: nat)
    requires k <= |chain|
    ensures k <= n <= |chain|
    decreases |chain| - k
  {
    if k < |chain| && chain[k].follows then Announced(chain, k + 1) else k
  }

  /** The exact result of parsing a frame: its chain up to the first datagram that announces no other
      one, and nothing if there is no such datagram. */
  lemma {:induction false} ParsesAnnounced(b: seq<byte>, length: nat, chain: seq<Datagram>, k: nat)
    requires Laid(b, length, chain) && k <= |chain|
    ensures Parse(b[..length], Offset(chain, k)) ==
              var n := Announced(chain, k);
              if n < |chain| then Some(chain[k..n + 1]) else None
    decreases |chain| - k
  {
    hide HoldsAt, Offset, Parse, ReadAt, Laid;
    if k < |chain| {
      var d := chain[k];
      ReadsLink(b, length, chain, k);
      LastOffset(chain, k);
      ParseStep(b[..length], Offset(chain, k), d);
      if d.follows {
        ParsesAnnounced(b, length, chain, k + 1);
        var n := Announced(chain, k + 1);
        if n < |chain| {
          assert [d] + chain[k + 1..n + 1] == chain[k..n + 1];
        }
      } else {
        assert chain[k..k + 1] == [d];
      }
    } else {
      EndsAtLength(b, length, chain);
    }
  }

  lemma ReadsLink(b: seq<byte>, length: nat, chain: seq<Datagram>, k: nat)
    requires Laid(b, length, chain) && k < |chain|
    ensures length <= |b| && ReadAt(b[..length], Offset(chain, k)) == Some(chain[k])
  {
    hide HoldsAt, Offset, ReadAt;
    OffsetsGrow(chain, k, |chain|);
    HoldsInPrefix(b, length, Offset(chain, k), chain[k]);
    ReadsWhatItHolds(b[..length], Offset(chain, k), chain[k]);
  }

  lemma ParseStep(b: seq<byte>, at: nat, d: Datagram)
    requires ReadAt(b, at) == Some(d)
    ensures Parse(b, at) ==
              if !d.follows then Some([d])
              else if Parse(b, at + 12 + |d.data|).None? then None
              else Some([d] + Parse(b, at + 12 + |d.data|).value)
  {
  }

  lemma EndsAtLength(b: seq<byte>, length: nat, chain: seq<Datagram>)
    requires Laid(b, length, chain)
    ensures length <= |b| && Parse(b[..length], Offset(chain, |chain|)).None?
  {
    hide HoldsAt, Offset;
  }

  lemma HoldsInPrefix(b: seq<byte>, length: nat, at: nat, d: Datagram)
    requires HoldsAt(b, at, d) && at + 12 + |d.data| <= length <= |b|
    ensures HoldsAt(b[..length], at, d)
  {
    assert b[..length][at + 10..at + 10 + |d.data|] == b[at + 10..at + 10 + |d.data|];
  }

  // ----- Whole frames.

  /** The chain of a frame that is set up with `first` and extended by `adds`, each with its `more`. */
  function Chain(first: Request, adds: seq<(Request, bool)>): (chain: seq<Datagram>)
    ensures |chain| == |adds| + 1
  {
    if adds == [] then [InFrame(first, false)]
    else Added(Chain(first, adds[..|adds| - 1]), adds[|adds| - 1].0, adds[|adds| - 1].1)
  }

  lemma {:induction false} ChainAt(first: Request, adds: seq<(Request, bool)>, k: nat)
    requires k <= |adds|
    ensures Chain(first, adds)[k] ==
              if k == 0 then InFrame(first, adds != []) else InFrame(adds[k - 1].0, adds[k - 1].1)
    decreases |adds|
  {
    if adds != [] && k < |adds| {
      ChainAt(first, adds[..|adds| - 1], k);
    }
  }

  lemma {:induction false} AnnouncedIff(chain: seq<Datagram>, k: nat)
    requires k < |chain|
    ensures Announced(chain, k) == |chain| - 1 <==>
              (forall i | k <= i < |chain| - 1 :: chain[i].follows) && !chain[|chain| - 1].follows
    decreases |chain| - k
  {
    if k < |chain| - 1 && chain[k].follows {
      AnnouncedIff(chain, k + 1);
    }
  }

  predicate MoreExceptLast(adds: seq<(Request, bool)>) {
    forall i | 0 <= i < |adds| :: adds[i].1 == (i < |adds| - 1)
  }

  /** A frame parses back to the datagrams that were put into it if and only if `more` is true for all
      added datagrams but the last one. */
  lemma ParsesBackIff(b: seq<byte>, length: nat, first: Request, adds: seq<(Request, bool)>)
    requires Laid(b, length, Chain(first, adds))
    ensures Parse(b[..length], 16) == Some(Chain(first, adds)) <==> MoreExceptLast(adds)
  {
    hide Laid, Chain;
    var chain := Chain(first, adds);
    forall k | 0 <= k <= |adds| {
      ChainAt(first, adds, k);
    }
    ParsesAnnounced(b, length, chain, 0);
    AnnouncedIff(chain, 0);
    var n := Announced(chain, 0);
    assert n == |chain| - 1 ==> chain[0..n + 1] == chain;
    assert n < |chain| - 1 ==> |chain[0..n + 1]| < |chain|;
    MoreMeansFollows(first, adds);
  }

  lemma MoreMeansFollows(first: Request, adds: seq<(Request, bool)>)
    ensures var chain := Chain(first, adds);
            (forall i | 0 <= i < |chain| - 1 :: chain[i].follows) && !chain[|chain| - 1].follows <==>
              MoreExceptLast(adds)
  {
    hide Chain;
    var chain := Chain(first, adds);
    forall k | 0 <= k <= |adds| ensures chain[k].follows == if k == 0 then adds != [] else adds[k - 1].1 {
      ChainAt(first, adds, k);
    }
    if (forall i | 0 <= i < |chain| - 1 :: chain[i].follows) && !chain[|chain| - 1].follows {
      forall i | 0 <= i < |adds| ensures adds[i].1 == (i < |adds| - 1) {
        assert chain[i + 1].follows == adds[i].1;
      }
    }
  }

  /** What a slave finds in the frame for a request: the same command and address, and the data of every write and
      read-write; reading commands (NOP, APRD, FPRD, BRD and LRD) find zeros. */
  ghost predicate Delivers(d: Datagram, r: Request) {
    d.command == r.command && d.index == r.index && d.adp == r.adp && d.ado == r.ado && |d.data| == |r.data| &&
    forall i | 0 <= i < |r.data| ::
      d.data[i] == if r.command == 0 || r.command == 1 || r.command == 4 || r.command == 7 || r.command == 10 then 0
                   else r.data[i]
  }

  /** A frame whose requests say correctly whether more follow delivers all of them, in order. */
  lemma AllAreDelivered(b: seq<byte>, length: nat, first: Request, adds: seq<(Request, bool)>)
    requires Laid(b, length, Chain(first, adds)) && MoreExceptLast(adds)
    ensures var p := Parse(b[..length], 16);
            p.Some? && |p.value| == |adds| + 1 &&
            forall k | 0 <= k <= |adds| :: Delivers(p.value[k], if k == 0 then first else adds[k - 1].0)
  {
    hide Laid, Parse, Chain;
    ParsesBackIff(b, length, first, adds);
    forall k | 0 <= k <= |adds| ensures Delivers(Chain(first, adds)[k], if k == 0 then first else adds[k - 1].0) {
      ChainAt(first, adds, k);
      InFrameDelivers(if k == 0 then first else adds[k - 1].0, Chain(first, adds)[k].follows);
    }
  }

  lemma InFrameDelivers(r: Request, follows: bool)
    ensures Delivers(InFrame(r, follows), r)
  {
  }

  /** The length field points at the work counter of the last datagram of a received frame, whose
      Ethernet header is stripped. */
  lemma LengthFindsLastCounter(b: seq<byte>, length: nat, chain: seq<Datagram>)
    requires Laid(b, length, chain) && length <= MAX_FRAME
    ensures var last := |chain| - 1;
            var counter := Offset(chain, last) + 10 + |chain[last].data|;
            Word(b, ETH_HEADER) % 0x1000 + ETH_HEADER == counter == length - 2 && Word(b, counter) == 0
  {
    hide HoldsAt;
    LastOffset(chain, |chain| - 1);
    assert HoldsAt(b, Offset(chain, |chain| - 1), chain[|chain| - 1]);
    CounterIsClear(b, Offset(chain, |chain| - 1), chain[|chain| - 1]);
  }

  lemma CounterIsClear(b: seq<byte>, at: nat, d: Datagram)
    requires HoldsAt(b, at, d)
    ensures Word(b, at + 10 + |d.data|) == 0
  {
  }
}

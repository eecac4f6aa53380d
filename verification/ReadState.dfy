/** Reading the states of all slaves: with one broadcast if that is enough, otherwise with one datagram
    for each slave. */
module ReadState {
  import opened Basics
  import opened Datagram
  import opened StatusReads

  const ERROR: bv16 := 0x10
  const INIT: bv16 := 1
  const PRE_OP: bv16 := 2
  const BOOT: bv16 := 3
  const SAFE_OP: bv16 := 4
  const OP: bv16 := 8

  predicate SingleState(s: bv16) {
    s == INIT || s == PRE_OP || s == BOOT || s == SAFE_OP || s == OP
  }

  /** An AL status: the state with its error flag, and a status code. */
  datatype Al = Al(status: bv16, code: bv16)

  function AlOf(s: seq<byte>): Al
    requires |s| == STATUS_SIZE
  {
    Al(Word(s, 0) as bv16, Word(s, 4) as bv16)
  }

  function Decoded(list: seq<seq<byte>>): (als: seq<Al>)
    requires forall k | 0 <= k < |list| :: |list[k]| == STATUS_SIZE
    ensures |als| == |list| && forall k | 0 <= k < |list| :: als[k] == AlOf(list[k])
  {
    seq(|list|, k requires 0 <= k < |list| => AlOf(list[k]))
  }

  function Or(x: bv16, y: bv16): bv16 {
    x | y
  }

  /** What a broadcast read collects: the bitwise OR of what all slaves hold. */
  function Broadcast(als: seq<Al>): bv16 {
    if als == [] then 0 else Or(Broadcast(als[..|als| - 1]), als[|als| - 1].status)
  }

  function Codes(als: seq<Al>): bv16 {
    if als == [] then 0 else Or(Codes(als[..|als| - 1]), als[|als| - 1].code)
  }

  /** The lowest state; 0xff if there are no slaves. */
  function Lowest(als: seq<Al>): bv16 {
    if als == [] then 0xff
    else
      var l := Lowest(als[..|als| - 1]);
      var s := als[|als| - 1].status & 0xf;
      if s < l then s else l
  }

  lemma SummaryNext(als: seq<Al>, al: Al)
    ensures Codes(als + [al]) == Or(Codes(als), al.code)
    ensures Lowest(als + [al]) == if al.status & 0xf < Lowest(als) then al.status & 0xf else Lowest(als)
  {
    hide Or;
    assert (als + [al])[..|als|] == als;
  }

  /** The broadcast is enough: no error flag, one of the five state codes, and no slave missing. */
  predicate BroadcastSuffices(rval: bv16, wkc: int, slavecount: nat) {
    rval & ERROR == 0 && SingleState(rval & 0xf) && wkc >= slavecount
  }

  // ----- When the broadcast tells the truth.

  ghost predicate Legal(als: seq<Al>) {
    forall k | 0 <= k < |als| :: SingleState(als[k].status)
  }

  /** Slaves in INIT and PRE_OP together look like slaves in BOOT. */
  ghost predicate LooksLikeBoot(als: seq<Al>) {
    Broadcast(als) == BOOT && exists k | 0 <= k < |als| :: als[k].status != BOOT
  }

  predicate Within(x: bv16, all: bv16) {
    x | all == all
  }

  lemma WithinPart(x: bv16, part: bv16, s: bv16)
    requires Within(x, part)
    ensures Within(x, Or(part, s))
  {
  }

  lemma WithinLast(part: bv16, s: bv16)
    ensures Within(s, Or(part, s))
  {
  }

  lemma {:induction false} EachIsCovered(als: seq<Al>, k: nat)
    requires k < |als|
    ensures Within(als[k].status, Broadcast(als))
  {
    hide Within, Or;
    var last := |als| - 1;
    if k < last {
      EachIsCovered(als[..last], k);
      WithinPart(als[k].status, Broadcast(als[..last]), als[last].status);
    } else {
      WithinLast(Broadcast(als[..last]), als[last].status);
    }
  }

  lemma SingleInSingle(s: bv16, all: bv16)
    requires SingleState(s) && SingleState(all) && Within(s, all)
    ensures s == all || all == BOOT
  {
  }

  lemma LegalBits(part: bv16, s: bv16)
    requires part & 0xf == part && SingleState(s)
    ensures Or(part, s) & 0xf == Or(part, s)
  {
  }

  lemma {:induction false} BroadcastIsLegal(als: seq<Al>)
    requires Legal(als)
    ensures Broadcast(als) & 0xf == Broadcast(als) && Broadcast(als) & ERROR == 0
  {
    hide SingleState, Or;
    if als != [] {
      var front := als[..|als| - 1];
      assert Legal(front);
      BroadcastIsLegal(front);
      LegalBits(Broadcast(front), als[|als| - 1].status);
    }
    NoErrorBit(Broadcast(als));
  }

  lemma NoErrorBit(s: bv16)
    ensures s & 0xf == s ==> s & ERROR == 0
  {
  }

  lemma {:induction false} LowestOfEqual(als: seq<Al>, s: bv16)
    requires als != [] && SingleState(s) && forall k | 0 <= k < |als| :: als[k].status == s
    ensures Lowest(als) == s
  {
    if |als| > 1 {
      LowestOfEqual(als[..|als| - 1], s);
    }
  }

  lemma {:induction false} LowestIsLowest(als: seq<Al>, k: nat)
    requires k < |als|
    ensures Lowest(als) <= als[k].status & 0xf
  {
    if k < |als| - 1 {
      LowestIsLowest(als[..|als| - 1], k);
    }
  }

  lemma BelowBoot(s: bv16)
    requires SingleState(s) && Within(s, BOOT) && s != BOOT
    ensures s & 0xf < BOOT
  {
  }

  /** For error-free slaves, all of them present, the one broadcast gives every slave its state and the
      right lowest one, unless their states only add up to the code of BOOT. */
  lemma BroadcastAgreesIff(als: seq<Al>, wkc: int)
    requires als != [] && Legal(als)
    requires BroadcastSuffices(Broadcast(als), wkc, |als|)
    ensures var s := Broadcast(als) & 0xf;
            (forall k | 0 <= k < |als| :: als[k].status == s) && Lowest(als) == s <==> !LooksLikeBoot(als)
    ensures LooksLikeBoot(als) ==> Lowest(als) < Broadcast(als) & 0xf
  {
    hide Lowest, SingleState, Within;
    BroadcastIsLegal(als);
    if !LooksLikeBoot(als) {
      forall k | 0 <= k < |als| ensures als[k].status == Broadcast(als) {
        EachIsCovered(als, k);
        SingleInSingle(als[k].status, Broadcast(als));
      }
      LowestOfEqual(als, Broadcast(als));
    } else {
      var k :| 0 <= k < |als| && als[k].status != BOOT;
      EachIsCovered(als, k);
      LowestIsLowest(als, k);
      BelowBoot(als[k].status);
    }
  }

  /** A state code, perhaps with the error flag, and nothing else. */
  ghost predicate Reported(als: seq<Al>) {
    forall k | 0 <= k < |als| :: SingleState(als[k].status & 0xf) && als[k].status & 0xffe0 == 0
  }

  lemma NoFlagsIsLegal(als: seq<Al>)
    requires Reported(als) && Broadcast(als) & ERROR == 0
    ensures Legal(als)
  {
    hide SingleState, Within;
    forall k | 0 <= k < |als| ensures SingleState(als[k].status) {
      EachIsCovered(als, k);
      NoFlagInside(als[k].status, Broadcast(als));
    }
  }

  lemma NoFlagInside(s: bv16, all: bv16)
    requires Within(s, all) && all & ERROR == 0 && s & 0xffe0 == 0
    ensures s & 0xf == s
  {
  }

  /** A slave with the error flag sets it in the broadcast. */
  lemma FlagIsSeen(als: seq<Al>, k: nat)
    requires k < |als| && als[k].status & 0x10 != 0
    ensures Broadcast(als) & 0x10 != 0
  {
    EachIsCovered(als, k);
    FlagInside(als[k].status, Broadcast(als));
  }

  lemma FlagInside(s: bv16, all: bv16)
    requires Within(s, all) && s & 0x10 != 0
    ensures all & 0x10 != 0
  {
  }

  /** The master's view after reading slaves that all answer, with or without error flags: their statuses and
      the lowest state are right exactly if the broadcast does not look like BOOT without being it. In
      particular they are right if any slave has the error flag or does not answer the broadcast. */
  lemma ReadsStatesIff(actual: seq<Al>, als: seq<Al>, lowest: bv16, wkc: int)
    requires actual != [] && Reported(actual)
    requires if Broadcast(actual) & 0x10 == 0 && wkc >= |actual| && Broadcast(actual) & 0xf in {1, 2, 3, 4, 8}
             then als == AllIn(Broadcast(actual) & 0xf, |actual|) && lowest == Broadcast(actual) & 0xf
             else als == actual && lowest == Lowest(actual)
    ensures (forall k | 0 <= k < |actual| :: als[k].status == actual[k].status) && lowest == Lowest(actual) <==>
              !(wkc >= |actual| && LooksLikeBoot(actual))
    ensures (exists k | 0 <= k < |actual| :: actual[k].status & 0x10 != 0) || wkc < |actual| ==> als == actual
  {
    hide Lowest;
    if k :| 0 <= k < |actual| && actual[k].status & 0x10 != 0 {
      FlagIsSeen(actual, k);
    }
    if Broadcast(actual) & 0x10 == 0 {
      NoFlagsIsLegal(actual);
      BroadcastIsLegal(actual);
      if BroadcastSuffices(Broadcast(actual), wkc, |actual|) {
        BroadcastAgreesIff(actual, wkc);
        assert als[0].status == Broadcast(actual) & 0xf;
      }
    }
  }

  // ----- The summary.

  /** The lowest state is the state of some slave, and no slave is in a lower one. */
  lemma {:induction false} LowestIsReached(als: seq<Al>) returns (k: nat)
    requires als != []
    ensures k < |als| && Lowest(als) == als[k].status & 0xf
    ensures forall j | 0 <= j < |als| :: als[k].status & 0xf <= als[j].status & 0xf
  {
    hide Lowest;
    var n := |als| - 1;
    SummaryNext(als[..n], als[n]);
    assert als == als[..n] + [als[n]];
    if n == 0 {
      k := 0;
      NibbleIsSmall(als[0].status);
      assert als[..0] == [];
      NoSlaves();
    } else {
      k := LowestIsReached(als[..n]);
      if als[n].status & 0xf < Lowest(als[..n]) {
        k := n;
      }
    }
  }

  lemma NibbleIsSmall(s: bv16)
    ensures s & 0xf < 0xff
  {
  }

  /** The summary of the codes has the bits of every code, and no others. */
  lemma {:induction false} CodesAreCollected(als: seq<Al>, all: bv16)
    ensures forall k | 0 <= k < |als| :: Within(als[k].code, Codes(als))
    ensures (forall k | 0 <= k < |als| :: Within(als[k].code, all)) ==> Within(Codes(als), all)
  {
    hide Within, Or;
    if als == [] {
      NothingWithin(all);
    } else {
      var n := |als| - 1;
      CodesAreCollected(als[..n], all);
      WithinLast(Codes(als[..n]), als[n].code);
      forall k | 0 <= k < n ensures Within(als[k].code, Codes(als)) {
        WithinPart(als[..n][k].code, Codes(als[..n]), als[n].code);
      }
      if forall k | 0 <= k < |als| :: Within(als[k].code, all) {
        assert forall k | 0 <= k < n :: als[..n][k] == als[k];
        BothWithin(Codes(als[..n]), als[n].code, all);
      }
    }
  }

  lemma NothingWithin(all: bv16)
    ensures Within(0, all)
  {
  }

  lemma BothWithin(x: bv16, y: bv16, all: bv16)
    requires Within(x, all) && Within(y, all)
    ensures Within(Or(x, y), all)
  {
  }

  lemma InitAndPreOpLookLikeBoot()
    ensures LooksLikeBoot([Al(INIT, 0), Al(PRE_OP, 0)]) && Lowest([Al(INIT, 0), Al(PRE_OP, 0)]) == INIT
  {
    var first := [Al(INIT, 0)];
    var als := [Al(INIT, 0), Al(PRE_OP, 0)];
    assert als[..1] == first && first[..0] == [];
    assert Broadcast(first) == Or(Broadcast([]), INIT) == INIT;
    assert Lowest(first) == INIT;
    assert Broadcast(als) == Or(Broadcast(first), PRE_OP) == BOOT;
    assert als[0].status != BOOT;
  }

  /** A slave as the master sees it. */
  datatype Slave = Slave(configadr: word, state: bv16, alcode: bv16)

  /** The slave list: entry 0 stands for all slaves together. */
  class Master {
    const slavelist: array<Slave>
    const slavecount: nat

    ghost predicate Valid() {
      slavelist.Length == slavecount + 1
    }

    /** The station addresses of the slaves. */
    ghost function Configs(): (c: seq<word>)
      requires Valid()
      reads slavelist
      ensures |c| == slavecount
    {
      seq(slavecount, k requires 0 <= k < slavecount && Valid() reads slavelist => slavelist[k + 1].configadr)
    }

    /** The first slaves have these statuses. */
    ghost predicate Stored(als: seq<Al>)
      reads slavelist
    {
      |als| < slavelist.Length &&
      forall k | 0 <= k < |als| :: slavelist[k + 1].state == als[k].status && slavelist[k + 1].alcode == als[k].code
    }

    /** Stores the answer of one slave. */
    method TakeOne(slave: nat, raw: seq<byte>, lowest0: bv16, ghost als: seq<Al>) returns (lowest: bv16)
      requires Valid() && slave == |als| + 1 <= slavecount && |raw| == STATUS_SIZE
      requires Stored(als) && lowest0 == Lowest(als) && slavelist[0].alcode == Codes(als)
      modifies slavelist
      ensures Stored(als + [AlOf(raw)]) && Configs() == old(Configs())
      ensures lowest == Lowest(als + [AlOf(raw)]) && slavelist[0].alcode == Codes(als + [AlOf(raw)])
    {
      hide AlOf, Lowest, Codes;
      var al := AlOf(raw);
      lowest := lowest0;
      slavelist[slave] := slavelist[slave].(alcode := al.code);
      if al.status & 0xf < lowest {
        lowest := al.status & 0xf;
      }
      slavelist[slave] := slavelist[slave].(state := al.status);
      slavelist[0] := slavelist[0].(alcode := Or(slavelist[0].alcode, slavelist[slave].alcode));
      SummaryNext(als, al);
      assert forall k | 0 <= k < |als| :: (als + [al])[k] == als[k];
    }

    /** Stores the answers to one frame. */
    method TakeBatch(list: seq<seq<byte>>, fslave: nat, lowest0: bv16, ghost als0: seq<Al>) returns (lowest: bv16)
      requires Valid() && fslave == |als0| + 1 && fslave + |list| <= slavecount + 1
      requires forall k | 0 <= k < |list| :: |list[k]| == STATUS_SIZE
      requires Stored(als0) && lowest0 == Lowest(als0) && slavelist[0].alcode == Codes(als0)
      modifies slavelist
      ensures Stored(als0 + Decoded(list)) && Configs() == old(Configs())
      ensures lowest == Lowest(als0 + Decoded(list)) && slavelist[0].alcode == Codes(als0 + Decoded(list))
    {
      hide AlOf, Lowest, Codes, Stored;
      lowest := lowest0;
      ghost var als := als0;
      var k := 0;
      assert als0 + Decoded(list[..0]) == als0;
      while k < |list|
        invariant k <= |list| && als == als0 + Decoded(list[..k]) && Configs() == old(Configs())
        invariant Stored(als) && lowest == Lowest(als) && slavelist[0].alcode == Codes(als)
      {
        lowest := TakeOne(fslave + k, list[k], lowest, als);
        als := als + [AlOf(list[k])];
        assert list[..k + 1] == list[..k] + [list[k]];
        k := k + 1;
      }
      assert list[..k] == list;
    }

    method Addresses(fslave: nat, lslave: nat) returns (slca: seq<word>)
      requires Valid() && 1 <= fslave <= lslave <= slavecount
      ensures slca == Configs()[fslave - 1..lslave]
    {
      slca := [];
      for slave := fslave to lslave + 1
        invariant |slca| == slave - fslave
        invariant forall i | 0 <= i < |slca| :: slca[i] == slavelist[fslave + i].configadr
      {
        slca := slca + [slavelist[slave].configadr];
      }
    }

    /** Asks the slaves from `fslave` to `lslave` with one frame. */
    method PollBatch(tx: TxBuffer, index: byte, net: seq<byte> -> Option<seq<byte>>, ghost status: word -> seq<byte>,
                     fslave: nat, lslave: nat, lowest0: bv16, ghost als0: seq<Al>)
      returns (lowest: bv16, ghost als: seq<Al>, received: bool)
      requires Valid() && tx.frame.Length == MAX_FRAME
      requires Serves(net, status) && forall c: word :: |status(c)| == STATUS_SIZE
      requires fslave == |als0| + 1 <= lslave <= slavecount && lslave - fslave < MAX_MULTI
      requires Stored(als0) && lowest0 == Lowest(als0) && slavelist[0].alcode == Codes(als0)
      modifies slavelist, tx.frame, tx`length
      ensures Stored(als) && Configs() == old(Configs())
      ensures lowest == Lowest(als) && slavelist[0].alcode == Codes(als)
      ensures |als| == lslave && als[..|als0|] == als0
      ensures forall k | |als0| <= k < lslave :: Holds(als[k], status(Configs()[k]), !received)
    {
      hide AlOf, Lowest, Codes, Serves, Or, Stored;
      var slca := Addresses(fslave, lslave);
      var sl;
      sl, received := FprdMulti(tx, slca, index, net, status);
      ClearStatus();
      lowest := TakeBatch(sl, fslave, lowest0, als0);
      als := als0 + Decoded(sl);
    }

    /** Asks every slave, in frames of at most 64 datagrams. `polled` are the slaves asked, by frame. */
    method PollAll(tx: TxBuffer, index: byte, net: seq<byte> -> Option<seq<byte>>, ghost status: word -> seq<byte>)
      returns (lowest: bv16, ghost als: seq<Al>, polled: seq<(nat, nat)>, complete: bool)
      requires Valid() && tx.frame.Length == MAX_FRAME
      requires Serves(net, status) && forall c: word :: |status(c)| == STATUS_SIZE
      modifies slavelist, tx.frame, tx`length
      ensures Covers(polled, slavecount)
      ensures |als| == slavecount && AllHold(als, Configs(), status, !complete)
      ensures Configs() == old(Configs())
      ensures Stored(als) && slavelist[0].alcode == Codes(als) && slavelist[0].state == lowest == Lowest(als)
    {
      hide AlOf, Lowest, Codes, Serves, Or, AllHold, Holds;
      NoSlaves();
      slavelist[0] := slavelist[0].(alcode := 0);
      assert Configs() == old(Configs());
      NothingHeld(Configs(), status);
      lowest, als, polled, complete := 0xff, [], [], true;
      var fslave := 1;
      while fslave <= slavecount
        invariant 1 <= fslave == |als| + 1 <= slavecount + 1
        invariant Covers(polled, fslave - 1) && Configs() == old(Configs())
        invariant AllHold(als, Configs(), status, !complete)
        invariant Stored(als) && slavelist[0].alcode == Codes(als) && lowest == Lowest(als)
      {
        var lslave := slavecount;
        if lslave - fslave >= MAX_MULTI {
          lslave := fslave + MAX_MULTI - 1;
        }
        ghost var before := als;
        var received;
        lowest, als, received := PollBatch(tx, index, net, status, fslave, lslave, lowest, als);
        HoldMore(before, als, Configs(), status, !complete, !received);
        polled, complete := polled + [(fslave, lslave)], complete && received;
        fslave := lslave + 1;
      }
      slavelist[0] := slavelist[0].(state := lowest);
      assert Configs() == old(Configs());
    }

    /** Gives all slaves the same state and no status code. */
    method SetAll(s: bv16)
      requires Valid()
      modifies slavelist
      ensures Stored(AllIn(s, slavecount)) && Configs() == old(Configs())
      ensures slavelist[0] == old(slavelist[0])
    {
      for slave := 1 to slavecount + 1
        invariant forall k | 1 <= k < slave :: slavelist[k].state == s && slavelist[k].alcode == 0
        invariant slavelist[0] == old(slavelist[0])
        invariant forall k | 0 <= k <= slavecount :: slavelist[k].configadr == old(slavelist[k].configadr)
      {
        slavelist[slave] := slavelist[slave].(alcode := 0, state := s);
      }
    }

    /** Reads all states. `rval` and `wkc` are what the broadcast gave. `als` is what is taken for the
        statuses of the slaves in the end. */
    method ReadState(rval: bv16, wkc: int, tx: TxBuffer, index: byte, net: seq<byte> -> Option<seq<byte>>,
                     ghost status: word -> seq<byte>)
      returns (lowest: bv16, ghost als: seq<Al>, ghost complete: bool)
      requires Valid() && tx.frame.Length == MAX_FRAME
      requires Serves(net, status) && forall c: word :: |status(c)| == STATUS_SIZE
      modifies slavelist, tx.frame, tx`length
      ensures Stored(als) && |als| == slavecount && Configs() == old(Configs()) && slavelist[0].state == lowest
      ensures rval & 0x10 != 0 || wkc < slavecount || rval & 0xf !in {1, 2, 3, 4, 8} ==>
                Polled(slavelist[1..], status, !complete) && lowest == Lowest(als) && slavelist[0].alcode == Codes(als)
      ensures rval & 0x10 == 0 && wkc >= slavecount && rval & 0xf in {1, 2, 3, 4, 8} ==>
                lowest == rval & 0xf && slavelist[0].alcode == 0 &&
                forall k | 1 <= k <= slavecount :: slavelist[k].state == rval & 0xf && slavelist[k].alcode == 0
    {
      hide AlOf, Lowest, Codes, Serves, Or, Stored;
      var allslavespresent := wkc >= slavecount;
      var bitwisestate := rval & 0xf;
      var noerrorflag := rval & ERROR == 0;
      if noerrorflag {
        slavelist[0] := slavelist[0].(alcode := 0);
      }
      var allslavessamestate := SingleState(bitwisestate);
      if allslavessamestate {
        slavelist[0] := slavelist[0].(state := bitwisestate);
      }
      if noerrorflag && allslavessamestate && allslavespresent {
        SetAll(bitwisestate);
        StoredIsSame(bitwisestate);
        lowest, als, complete := bitwisestate, AllIn(bitwisestate, slavecount), true;
      } else {
        var polled, all;
        lowest, als, polled, all := PollAll(tx, index, net, status);
        complete := all;
        StoredIsPolled(als, status, !complete);
      }
    }

    lemma StoredIsPolled(als: seq<Al>, status: word -> seq<byte>, lost: bool)
      requires Valid() && Stored(als) && forall c: word :: |status(c)| == STATUS_SIZE
      requires |als| == slavecount
      requires AllHold(als, Configs(), status, lost)
      ensures Polled(slavelist[1..], status, lost)
    {
      hide AlOf, OwnStatus;
      var slaves := slavelist[1..];
      forall k | 0 <= k < |slaves| ensures OwnStatusOr(slaves[k], status(slaves[k].configadr), lost) {
        assert slaves[k] == slavelist[k + 1] && slaves[k].configadr == Configs()[k];
        assert Holds(als[k], status(Configs()[k]), lost);
        if als[k] == AlOf(status(Configs()[k])) {
          IsOwn(slaves[k], status(Configs()[k]));
        }
      }
    }

    lemma StoredIsSame(s: bv16)
      requires Valid() && Stored(AllIn(s, slavecount))
      ensures forall k | 1 <= k <= slavecount :: slavelist[k].state == s && slavelist[k].alcode == 0
    {
      forall k | 1 <= k <= slavecount ensures slavelist[k].state == s && slavelist[k].alcode == 0 {
        assert AllIn(s, slavecount)[k - 1] == Al(s, 0) && slavelist[k - 1 + 1] == slavelist[k];
      }
    }
  }

  /** A slave's record holds what its status registers hold: two bytes of status, two more, two of code. */
  predicate OwnStatus(s: Slave, raw: seq<byte>) {
    |raw| == 6 && s.state == (raw[0] as nat + 256 * raw[1] as nat) as bv16 &&
    s.alcode == (raw[4] as nat + 256 * raw[5] as nat) as bv16
  }

  predicate OwnStatusOr(s: Slave, raw: seq<byte>, lost: bool) {
    OwnStatus(s, raw) || (lost && s.state == 0 && s.alcode == 0)
  }

  lemma IsOwn(s: Slave, raw: seq<byte>)
    requires |raw| == STATUS_SIZE && Al(s.state, s.alcode) == AlOf(raw)
    ensures OwnStatus(s, raw)
  {
    AlBytes(raw);
  }

  /** So do all records, but for those of slaves whose frame was lost: these are clear. */
  ghost predicate Polled(slaves: seq<Slave>, status: word -> seq<byte>, lost: bool) {
    forall k | 0 <= k < |slaves| :: OwnStatusOr(slaves[k], status(slaves[k].configadr), lost)
  }

  lemma ClearStatus()
    ensures AlOf(NoStatus()) == Al(0, 0)
  {
  }

  lemma AlBytes(s: seq<byte>)
    requires |s| == STATUS_SIZE
    ensures AlOf(s).status == (s[0] as nat + 256 * s[1] as nat) as bv16
    ensures AlOf(s).code == (s[4] as nat + 256 * s[5] as nat) as bv16
  {
  }

  function AllIn(s: bv16, n: nat): (als: seq<Al>)
    ensures |als| == n
  {
    seq(n, _ => Al(s, 0))
  }

  lemma NoSlaves()
    ensures Lowest([]) == 0xff && Codes([]) == 0
  {
  }

  predicate Holds(al: Al, raw: seq<byte>, lost: bool)
    requires |raw| == STATUS_SIZE
  {
    al == AlOf(raw) || (lost && al == Al(0, 0))
  }

  /** The statuses of the slaves with these addresses, but for lost ones. */
  ghost predicate AllHold(als: seq<Al>, configs: seq<word>, status: word -> seq<byte>, lost: bool)
    requires forall c: word :: |status(c)| == STATUS_SIZE
  {
    |als| <= |configs| && forall k | 0 <= k < |als| :: Holds(als[k], status(configs[k]), lost)
  }

  lemma NothingHeld(configs: seq<word>, status: word -> seq<byte>)
    requires forall c: word :: |status(c)| == STATUS_SIZE
    ensures AllHold([], configs, status, false)
  {
  }

  lemma HoldMore(before: seq<Al>, als: seq<Al>, configs: seq<word>, status: word -> seq<byte>, lost: bool, lost': bool)
    requires (forall c: word :: |status(c)| == STATUS_SIZE) && AllHold(before, configs, status, lost)
    requires |before| <= |als| <= |configs| && als[..|before|] == before
    requires forall k | |before| <= k < |als| :: Holds(als[k], status(configs[k]), lost')
    ensures AllHold(als, configs, status, lost || lost')
  {
    hide AlOf;
    forall k | 0 <= k < |als| ensures Holds(als[k], status(configs[k]), lost || lost') {
      if k < |before| {
        assert als[k] == als[..|before|][k] == before[k];
        assert Holds(before[k], status(configs[k]), lost);
      }
    }
  }

  /** Consecutive batches, each of 1 to 64 slaves, from slave 1 to slave `last`. */
  predicate Covers(batches: seq<(nat, nat)>, last: nat) {
    if batches == [] then last == 0 else
      var b := batches[|batches| - 1];
      b.0 <= b.1 < b.0 + MAX_MULTI && b.1 == last && b.0 > 0 && Covers(batches[..|batches| - 1], b.0 - 1)
  }
}

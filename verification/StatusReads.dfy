/** One frame that reads the AL status of up to 64 slaves, one datagram for each. */
module StatusReads {
  import opened Basics
  import opened Datagram

  const MAX_MULTI: nat := 64
  const FPRD: byte := 4
  const ALSTAT: word := 0x0130
  const STATUS_SIZE: nat := 6

  function NoStatus(): (s: seq<byte>)
    ensures |s| == STATUS_SIZE
  {
    seq(STATUS_SIZE, _ => 0)
  }

  function Ask(config: word, index: byte): Request {
    Request(FPRD, index, config, ALSTAT, NoStatus())
  }

  /** The first `k` datagrams that are added for the slaves after the first one. */
  function Adds(configs: seq<word>, index: byte, k: nat): (adds: seq<(Request, bool)>)
    requires k < |configs|
    ensures |adds| == k
  {
    if k == 0 then [] else Adds(configs, index, k - 1) + [(Ask(configs[k], index), k < |configs| - 1)]
  }

  lemma {:induction false} AddsAt(configs: seq<word>, index: byte, k: nat, i: nat)
    requires i < k < |configs|
    ensures Adds(configs, index, k)[i] == (Ask(configs[i + 1], index), i + 1 < |configs| - 1)
  {
    if i < k - 1 {
      AddsAt(configs, index, k - 1, i);
    }
  }

  /** The chain of the first `k` + 1 status reads. */
  function Reads(configs: seq<word>, index: byte, k: nat): (chain: seq<Datagram>)
    requires k < |configs|
    ensures |chain| == k + 1
  {
    Chain(Ask(configs[0], index), Adds(configs, index, k))
  }

  lemma ReadsNext(configs: seq<word>, index: byte, k: nat)
    requires 0 < k < |configs|
    ensures Reads(configs, index, k) == Added(Reads(configs, index, k - 1), Ask(configs[k], index), k < |configs| - 1)
  {
    assert Adds(configs, index, k)[..k - 1] == Adds(configs, index, k - 1);
  }

  lemma ReadsAt(configs: seq<word>, index: byte, k: nat, i: nat)
    requires i <= k < |configs|
    ensures var d := Reads(configs, index, k)[i];
            d.adp == configs[i] && d.ado == ALSTAT && d.command == FPRD && |d.data| == STATUS_SIZE
  {
    ChainAt(Ask(configs[0], index), Adds(configs, index, k), i);
    if i > 0 {
      AddsAt(configs, index, k, i - 1);
    }
  }

  /** Where the status of slave `i` is in the received frame. */
  lemma {:induction false} OffsetOfRead(configs: seq<word>, index: byte, k: nat, i: nat)
    requires i <= k + 1 <= |configs|
    ensures Offset(Reads(configs, index, k), i) == 16 + 18 * i
  {
    if i > 0 {
      OffsetOfRead(configs, index, k, i - 1);
      ReadsAt(configs, index, k, i - 1);
    }
  }

  // ----- The network.

  /** A datagram that reads the status of one slave. */
  predicate AsksStatus(d: Datagram) {
    d.command == 4 && d.ado == 0x0130 && |d.data| == 6
  }

  /** The frame came back with the status of the addressed slave in each datagram that asks for one. Its
      Ethernet header is stripped. */
  ghost predicate Served(rx: seq<byte>, chain: seq<Datagram>, status: word -> seq<byte>) {
    forall k | 0 <= k < |chain| && AsksStatus(chain[k]) ::
      AnswerAt(rx, Offset(chain, k) + 10 - ETH_HEADER, status(chain[k].adp))
  }

  predicate AnswerAt(rx: seq<byte>, at: nat, s: seq<byte>) {
    |s| == STATUS_SIZE && at + STATUS_SIZE <= |rx| && rx[at..at + STATUS_SIZE] == s
  }

  /** Every frame that comes back at all was processed up to its last datagram. */
  ghost predicate Serves(net: seq<byte> -> Option<seq<byte>>, status: word -> seq<byte>) {
    forall b | net(b).Some? && Parse(b, 16).Some? :: Served(net(b).value, Parse(b, 16).value, status)
  }

  lemma ReadsParse(b: seq<byte>, length: nat, configs: seq<word>, index: byte)
    requires configs != [] && Laid(b, length, Reads(configs, index, |configs| - 1))
    ensures Parse(b[..length], 16) == Some(Reads(configs, index, |configs| - 1))
  {
    hide Laid, Parse, Chain;
    var adds := Adds(configs, index, |configs| - 1);
    forall i | 0 <= i < |adds| {
      AddsAt(configs, index, |adds|, i);
    }
    ParsesBackIff(b, length, Ask(configs[0], index), adds);
  }

  // ----- Sending and collecting.

  /** Builds the frame. */
  method Build(tx: TxBuffer, configs: seq<word>, index: byte) returns (positions: seq<nat>)
    requires 1 <= |configs| <= MAX_MULTI && tx.frame.Length == MAX_FRAME
    modifies tx.frame, tx`length
    ensures Laid(tx.frame[..], tx.length, Reads(configs, index, |configs| - 1))
    ensures tx.length == 16 + 18 * |configs| <= 1168
    ensures |positions| == |configs| && forall i | 0 <= i < |configs| :: positions[i] == 12 + 18 * i
  {
    hide Laid, Reads, Added, Offset;
    var n := |configs|;
    FirstRead(configs, index);
    tx.Setup(Ask(configs[0], index));
    LengthOfReads(tx.frame[..], tx.length, configs, index, 0);
    positions := [EC_HEADER];
    var slcnt := 1;
    while slcnt < n - 1
      invariant 1 <= slcnt <= n && (slcnt < n || n == 1) && |positions| == slcnt
      invariant Laid(tx.frame[..], tx.length, Reads(configs, index, slcnt - 1)) && tx.length == 16 + 18 * slcnt
      invariant forall i | 0 <= i < slcnt :: positions[i] == 12 + 18 * i
    {
      var offset := AddRead(tx, configs, index, slcnt, true);
      positions := positions + [offset];
      slcnt := slcnt + 1;
    }
    if slcnt < n {
      var offset := AddRead(tx, configs, index, slcnt, false);
      positions := positions + [offset];
    }
  }

  method AddRead(tx: TxBuffer, configs: seq<word>, index: byte, slcnt: nat, more: bool) returns (offset: nat)
    requires 1 <= slcnt < |configs| <= MAX_MULTI && tx.frame.Length == MAX_FRAME && more == (slcnt < |configs| - 1)
    requires Laid(tx.frame[..], tx.length, Reads(configs, index, slcnt - 1)) && tx.length == 16 + 18 * slcnt
    modifies tx.frame, tx`length
    ensures Laid(tx.frame[..], tx.length, Reads(configs, index, slcnt)) && tx.length == 16 + 18 * (slcnt + 1)
    ensures offset == 12 + 18 * slcnt
  {
    hide Laid, Reads, Added, Offset;
    ReadsNext(configs, index, slcnt);
    offset := tx.Add(Ask(configs[slcnt], index), more, Reads(configs, index, slcnt - 1));
    OffsetOfRead(configs, index, slcnt, slcnt);
  }

  lemma FirstRead(configs: seq<word>, index: byte)
    requires configs != []
    ensures Reads(configs, index, 0) == [InFrame(Ask(configs[0], index), false)]
  {
  }

  lemma LengthOfReads(b: seq<byte>, length: nat, configs: seq<word>, index: byte, k: nat)
    requires k < |configs| && Laid(b, length, Reads(configs, index, k))
    ensures length == 16 + 18 * (k + 1)
  {
    OffsetOfRead(configs, index, k, k + 1);
  }

  /** Reads the statuses of the slaves with station addresses `configs`; `net` is what becomes of a
      frame on the wire. A lost frame leaves all statuses clear. */
  method FprdMulti(tx: TxBuffer, configs: seq<word>, index: byte, net: seq<byte> -> Option<seq<byte>>,
                   ghost status: word -> seq<byte>)
    returns (list: seq<seq<byte>>, received: bool)
    requires 1 <= |configs| <= MAX_MULTI && tx.frame.Length == MAX_FRAME
    requires Serves(net, status)
    modifies tx.frame, tx`length
    ensures |list| == |configs|
    ensures forall i | 0 <= i < |configs| :: list[i] == if received then status(configs[i]) else NoStatus()
  {
    hide Laid, Reads, Parse, Serves;
    var positions := Build(tx, configs, index);
    var sent := tx.frame[..tx.length];
    assert sent == tx.frame[..][..tx.length];
    ReadsParse(tx.frame[..], tx.length, configs, index);
    var answer := net(sent);
    list, received := seq(|configs|, _ => NoStatus()), answer.Some?;
    if received {
      var slcnt := 0;
      while slcnt < |configs|
        invariant slcnt <= |configs| == |list|
        invariant forall i | 0 <= i < slcnt :: list[i] == status(configs[i])
      {
        Arrives(net, sent, status, configs, index, slcnt);
        list := list[slcnt := answer.value[positions[slcnt]..positions[slcnt] + STATUS_SIZE]];
        slcnt := slcnt + 1;
      }
    }
  }

  lemma Arrives(net: seq<byte> -> Option<seq<byte>>, sent: seq<byte>, status: word -> seq<byte>, configs: seq<word>,
                index: byte, i: nat)
    requires Serves(net, status) && net(sent).Some? && i < |configs|
    requires Parse(sent, 16) == Some(Reads(configs, index, |configs| - 1))
    ensures AnswerAt(net(sent).value, 12 + 18 * i, status(configs[i]))
  {
    hide Reads, Parse, Offset;
    OffsetOfRead(configs, index, |configs| - 1, i);
    ReadsAt(configs, index, |configs| - 1, i);
  }
}

/** File access over EtherCAT: a file travels as numbered packets, each acknowledged before the next
    one is sent; a packet that is not full ends the file. */
module Foe {
  import opened Basics

  datatype Packet = Packet(number: int, data: seq<byte>)

  /** What the slave answers to the writer. */
  datatype Reply = Ack(number: int) | Busy | ErrorReply(code: nat) | BadReply | NotFoe

  const OK: int := 1
  const TIMEOUT: int := 0
  const PACKET_NUMBER: int := -1
  const FOE_ERROR: int := -2
  const FILE_NOT_FOUND: int := -3
  const PACKET_ERROR: int := -4
  const BUFFER_TOO_SMALL: int := -5

  // ----- The packets of a file.

  function Chunk(file: seq<byte>, max: nat, pos: nat): seq<byte>
    requires pos <= |file|
  {
    if |file| - pos > max then file[pos..pos + max] else file[pos..]
  }

  /** The packets from position `pos` on, numbered from `n`. A full packet is followed by another one,
      which is empty if nothing is left. */
  function PacketsFrom(file: seq<byte>, max: nat, pos: nat, n: int): (ps: seq<Packet>)
    requires pos <= |file| && max > 0
    ensures ps != []
    decreases |file| - pos
  {
    var chunk := Chunk(file, max, pos);
    [Packet(n, chunk)] + if |chunk| == max then PacketsFrom(file, max, pos + max, n + 1) else []
  }

  lemma PacketsStep(file: seq<byte>, max: nat, pos: nat, n: int)
    requires pos <= |file| && max > 0
    ensures var chunk := Chunk(file, max, pos);
            |chunk| == (if |file| - pos > max then max else |file| - pos) && chunk == file[pos..pos + |chunk|] &&
            PacketsFrom(file, max, pos, n) ==
              [Packet(n, chunk)] + if |chunk| == max then PacketsFrom(file, max, pos + max, n + 1) else []
  {
  }

  /** An empty file has no packets, not even an empty one. */
  function Packets(file: seq<byte>, max: nat): seq<Packet> {
    if file == [] || max == 0 then [] else PacketsFrom(file, max, 0, 1)
  }

  /** Packets are numbered from 1; all are full but the last one, which is shorter. */
  lemma {:induction false} PacketShapes(file: seq<byte>, max: nat, pos: nat, n: int, k: nat)
    requires pos <= |file| && max > 0 && k < |PacketsFrom(file, max, pos, n)|
    ensures var ps := PacketsFrom(file, max, pos, n);
            ps[k].number == n + k &&
            (if k < |ps| - 1 then |ps[k].data| == max else |ps[k].data| < max)
    decreases |file| - pos
  {
    if |Chunk(file, max, pos)| == max && k > 0 {
      PacketShapes(file, max, pos + max, n + 1, k - 1);
    }
  }

  // ----- Writing.

  /** How many replies acknowledge packets `n`, `n` + 1, ... in order. */
  function InOrderAcks(replies: seq<Reply>, n: nat): (k: nat)
    ensures k <= |replies|
    ensures k < |replies| ==> replies[k] != Ack(n + k)
  {
    if replies == [] || replies[0] != Ack(n) then 0 else 1 + InOrderAcks(replies[1..], n + 1)
  }

  /** What a reply other than the awaited acknowledgement makes the writer return. */
  function Verdict(replies: seq<Reply>, k: nat): int {
    if k >= |replies| then TIMEOUT else
      match replies[k]
      case Ack(_) => PACKET_NUMBER
      case Busy => OK
      case ErrorReply(code) => if code == 0x8001 then FILE_NOT_FOUND else FOE_ERROR
      case BadReply => PACKET_ERROR
      case NotFoe => PACKET_ERROR
  }

  /** The packets sent so far and what is still to be sent. */
  ghost predicate Progress(file: seq<byte>, max: nat, packets: seq<Packet>, pos: nat, finalZero: bool) {
    pos <= |file| &&
    (finalZero ==> pos == |file| && max > 0) &&
    Packets(file, max) == packets +
      (if max > 0 && (finalZero || pos < |file|) then PacketsFrom(file, max, pos, |packets| + 1) else [])
  }

  /** Answers an acknowledgement: sends the next packet if there is one. */
  method SendNext(file: seq<byte>, max: nat, ghost packets: seq<Packet>, pos0: nat, psize0: int, sendpacket0: int,
                  dofinalzero0: bool)
    returns (sent: seq<Packet>, pos: nat, psize: int, sendpacket: int, dofinalzero: bool, segmentdata: nat)
    requires Progress(file, max, packets, pos0, dofinalzero0)
    requires psize0 == |file| - pos0 && sendpacket0 == |packets|
    ensures Progress(file, max, packets + sent, pos, dofinalzero)
    ensures psize == |file| - pos && sendpacket == |packets + sent| && |sent| <= 1
    ensures sent == [] ==> packets == Packets(file, max)
    ensures sent != [] ==> |packets| < |Packets(file, max)|
  {
    hide Progress, PacketsFrom, Packets;
    sent, pos, psize, sendpacket, dofinalzero, segmentdata := [], pos0, psize0, sendpacket0, dofinalzero0, 0;
    ProgressBounds(file, max, packets, pos0, dofinalzero0);
    var tsize := psize;
    if tsize > max {
      tsize := max;
    }
    assert packets + [] == packets;
    if tsize != 0 || dofinalzero {
      OneMorePacket(file, max, packets, pos0, dofinalzero0);
      dofinalzero := false;
      segmentdata := tsize;
      psize := psize - segmentdata;
      if psize == 0 && segmentdata == max {
        dofinalzero := true;
      }
      sendpacket := sendpacket + 1;
      sent := [Packet(sendpacket, file[pos..pos + segmentdata])];
      pos := pos + segmentdata;
    }
  }

  lemma ProgressBounds(file: seq<byte>, max: nat, packets: seq<Packet>, pos: nat, finalZero: bool)
    requires Progress(file, max, packets, pos, finalZero)
    ensures pos <= |file| && (finalZero ==> max > 0)
    ensures (max == 0 || pos == |file|) && !finalZero ==> packets == Packets(file, max)
  {
  }

  lemma OneMorePacket(file: seq<byte>, max: nat, packets: seq<Packet>, pos: nat, finalZero: bool)
    requires Progress(file, max, packets, pos, finalZero) && max > 0 && (pos < |file| || finalZero)
    ensures pos <= |file| && |packets| < |Packets(file, max)|
    ensures var size := if |file| - pos > max then max else |file| - pos;
            Progress(file, max, packets + [Packet(|packets| + 1, file[pos..pos + size])], pos + size,
                     pos + size == |file| && size == max)
  {
    hide PacketsFrom, Packets;
    PacketsStep(file, max, pos, |packets| + 1);
    var packet := Packet(|packets| + 1, Chunk(file, max, pos));
    var rest := PacketsFrom(file, max, pos, |packets| + 1)[1..];
    assert packets + ([packet] + rest) == (packets + [packet]) + rest;
  }

  lemma PrefixOfAll(file: seq<byte>, max: nat, packets: seq<Packet>, pos: nat, finalZero: bool)
    requires Progress(file, max, packets, pos, finalZero)
    ensures |packets| <= |Packets(file, max)| && packets == Packets(file, max)[..|packets|]
  {
  }

  lemma AckStep(replies: seq<Reply>, next: nat)
    requires next <= |replies|
    ensures InOrderAcks(replies[next..], next) ==
              if next < |replies| && replies[next] == Ack(next)
              then 1 + InOrderAcks(replies[next + 1..], next + 1) else 0
  {
    if next < |replies| {
      assert replies[next..][1..] == replies[next + 1..];
    }
  }

  /** How a transfer ends: the packets sent and the result. Only `sendable` messages can be sent, the
      request included; then sending fails. */
  ghost predicate Ends(all: seq<Packet>, replies: seq<Reply>, sendable: nat, packets: seq<Packet>, wkc: int) {
    var acks := InOrderAcks(replies, 0);
    if sendable <= acks && sendable <= |all| then
      packets == (if sendable == 0 then [] else all[..sendable - 1]) && wkc == TIMEOUT
    else if acks > |all| then packets == all && wkc == OK
    else packets == all[..acks] && wkc == Verdict(replies, acks)
  }

  /** The result when `n` packets have been sent, by what happened then: nothing could be sent any more, or the
      slave's answer to the last packet, or to the request, was not the awaited one, or all was sent. */
  ghost predicate EndsWith(replies: seq<Reply>, sendable: nat, n: nat, total: nat, wkc: int) {
    if sendable == 0 then n == 0 && wkc == TIMEOUT
    else if n >= |replies| then wkc == TIMEOUT
    else
      match replies[n]
      case Ack(number) =>
        if number != n then wkc == PACKET_NUMBER
        else if n == total then wkc == OK
        else sendable == n + 1 && wkc == TIMEOUT
      case Busy => wkc == OK
      case ErrorReply(code) => wkc == if code == 0x8001 then FILE_NOT_FOUND else FOE_ERROR
      case BadReply => wkc == PACKET_ERROR
      case NotFoe => wkc == PACKET_ERROR
  }

  lemma {:induction false} AcksAreInOrder(replies: seq<Reply>, n: nat, k: nat)
    requires k < InOrderAcks(replies, n)
    ensures k < |replies| && replies[k] == Ack(n + k)
  {
    if k > 0 {
      AcksAreInOrder(replies[1..], n + 1, k - 1);
    }
  }

  /** Every packet but the first is sent for an acknowledgement of the one before, and the first one for an
      acknowledgement of the request. */
  lemma EndsMeans(all: seq<Packet>, replies: seq<Reply>, sendable: nat, packets: seq<Packet>, wkc: int)
    requires Ends(all, replies, sendable, packets, wkc)
    ensures packets <= all && (sendable > 0 ==> |packets| < sendable)
    ensures forall k | 0 <= k < |packets| :: k < |replies| && replies[k] == Ack(k)
    ensures EndsWith(replies, sendable, |packets|, |all|, wkc)
  {
    hide InOrderAcks;
    var acks := InOrderAcks(replies, 0);
    forall k | 0 <= k < acks ensures k < |replies| && replies[k] == Ack(k) {
      AcksAreInOrder(replies, 0, k);
    }
  }

  /** Writes a file through a mailbox of `mbxLength` bytes. `replies` is what the slave answers: to the
      request first, then to each packet. A busy slave ends the transfer without an error. */
  method Write(file: seq<byte>, mbxLength: nat, replies: seq<Reply>, sendable: nat)
    returns (packets: seq<Packet>, wkc: int)
    requires mbxLength >= 12
    ensures packets <= Packets(file, mbxLength - 12) && (sendable > 0 ==> |packets| < sendable)
    ensures forall k | 0 <= k < |packets| :: k < |replies| && replies[k] == Ack(k)
    ensures EndsWith(replies, sendable, |packets|, |Packets(file, mbxLength - 12)|, wkc)
  {
    packets, wkc := WritePackets(file, mbxLength, replies, sendable);
    EndsMeans(Packets(file, mbxLength - 12), replies, sendable, packets, wkc);
  }

  method WritePackets(file: seq<byte>, mbxLength: nat, replies: seq<Reply>, sendable: nat)
    returns (packets: seq<Packet>, wkc: int)
    requires mbxLength >= 12
    ensures Ends(Packets(file, mbxLength - 12), replies, sendable, packets, wkc)
  {
    hide Progress, Packets, InOrderAcks;
    packets := [];
    var max := mbxLength - 12;
    var sendpacket: int, pos: nat, psize: int, segmentdata: nat := 0, 0, |file|, 0;
    var dofinalzero := false;
    var next := 0;
    var worktodo := sendable > 0;
    wkc := if worktodo then OK else TIMEOUT;
    ghost var all := Packets(file, max);
    ghost var acks := InOrderAcks(replies, 0);
    StartsWriting(file, max);
    assert replies[0..] == replies;
    while worktodo
      invariant worktodo ==> wkc == OK && next == sendpacket == |packets| <= |replies| && |packets| < sendable
      invariant worktodo ==> Progress(file, max, packets, pos, dofinalzero) && psize == |file| - pos
      invariant worktodo ==> acks == next + InOrderAcks(replies[next..], next)
      invariant !worktodo ==> Ends(all, replies, sendable, packets, wkc)
      decreases |replies| - next, worktodo
    {
      PrefixOfAll(file, max, packets, pos, dofinalzero);
      AckStep(replies, next);
      worktodo := false;
      wkc := if next < |replies| then OK else TIMEOUT;
      if wkc > 0 {
        var reply := replies[next];
        if reply.Ack? {
          if reply.number == sendpacket {
            var sent;
            sent, pos, psize, sendpacket, dofinalzero, segmentdata :=
              SendNext(file, max, packets, pos, psize, sendpacket, dofinalzero);
            if sent != [] {
              if |packets| + 1 < sendable {
                packets := packets + sent;
                worktodo := true;
              } else {
                wkc := TIMEOUT;
              }
            }
          } else {
            wkc := PACKET_NUMBER;
          }
        } else if reply.Busy? {
          if sendpacket != 0 {
            if psize == 0 {
              dofinalzero := true;
            }
            psize := psize + segmentdata;
            sendpacket := sendpacket - 1;
          }
        } else if reply.ErrorReply? {
          wkc := if reply.code == 0x8001 then FILE_NOT_FOUND else FOE_ERROR;
        } else {
          wkc := PACKET_ERROR;
        }
        next := next + 1;
      }
    }
  }

  lemma StartsWriting(file: seq<byte>, max: nat)
    ensures Progress(file, max, [], 0, false)
  {
    assert [] + Packets(file, max) == Packets(file, max);
  }

  // ----- Reading.

  /** What the slave answers to the reader. */
  datatype Mail = DataMail(packet: Packet) | ErrorMail | BadMail | NotFoeMail

  /** How a transfer ends, and what has been read by then. */
  datatype Outcome = Finished(data: seq<byte>) | Stopped(code: int, data: seq<byte>)

  /** Reads packets numbered from `n` into a buffer of `size` bytes, until one is not full. Only `sendable`
      messages can be sent, the request included, and each packet is acknowledged with one. */
  function Reading(msgs: seq<Mail>, max: nat, size: nat, n: int, data: seq<byte>, sendable: nat): Outcome {
    if msgs == [] then Stopped(TIMEOUT, data) else
      match msgs[0]
      case DataMail(p) =>
        if p.number == n && |data| + |p.data| <= size then
          if n >= sendable then Stopped(TIMEOUT, data + p.data)
          else if |p.data| == max then Reading(msgs[1..], max, size, n + 1, data + p.data, sendable)
          else Finished(data + p.data)
        else Stopped(BUFFER_TOO_SMALL, data)
      case ErrorMail => Stopped(FOE_ERROR, data)
      case BadMail => Stopped(PACKET_ERROR, data)
      case NotFoeMail => Stopped(PACKET_ERROR, data)
  }

  /** What is read if the request can be sent at all. */
  function Transfer(msgs: seq<Mail>, max: nat, size: nat, sendable: nat): Outcome {
    if sendable == 0 then Stopped(TIMEOUT, []) else Reading(msgs, max, size, 1, [], sendable)
  }

  /** The data of the first `k` packets. */
  function Collected(msgs: seq<Mail>, k: nat): seq<byte>
    requires k <= |msgs|
  {
    if k == 0 then [] else
      Collected(msgs, k - 1) + if msgs[k - 1].DataMail? then msgs[k - 1].packet.data else []
  }

  /** What is stored is acknowledged, but for a last packet whose acknowledgement cannot be sent. */
  ghost predicate Acknowledged(msgs: seq<Mail>, stored: seq<byte>, acks: nat, sendable: nat) {
    acks <= |msgs| &&
    (stored == Collected(msgs, acks) ||
     (acks + 1 == sendable && acks + 1 <= |msgs| && stored == Collected(msgs, acks + 1)))
  }

  method Copy(buf: array<byte>, at: nat, data: seq<byte>)
    requires at + |data| <= buf.Length
    modifies buf
    ensures buf[..at + |data|] == old(buf[..at]) + data
  {
    forall i | 0 <= i < |data| {
      buf[at + i] := data[i];
    }
  }

  /** Reads a file through a mailbox of `mbxLength` bytes into `buf`. `acks` are the acknowledgements
      sent. If not even a first answer arrives, the size stays that of the buffer. */
  method Read(msgs: seq<Mail>, mbxLength: nat, buf: array<byte>, sendable: nat)
    returns (wkc: int, psize: nat, acks: seq<int>)
    requires mbxLength >= 12
    modifies buf
    ensures var r := Transfer(msgs, mbxLength - 12, buf.Length, sendable);
            (r.Finished? ==> wkc == OK) && (r.Stopped? ==> wkc == r.code) &&
            psize == (if msgs == [] || sendable == 0 then buf.Length else |r.data|) &&
            |r.data| <= buf.Length && buf[..|r.data|] == r.data
    ensures |acks| <= sendable && forall i | 0 <= i < |acks| :: acks[i] == i + 1
    ensures Acknowledged(msgs, Transfer(msgs, mbxLength - 12, buf.Length, sendable).data, |acks|, sendable)
    ensures wkc == OK ==> Transfer(msgs, mbxLength - 12, buf.Length, sendable).data == Collected(msgs, |acks|)
  {
    psize, acks := buf.Length, [];
    var max := mbxLength - 12;
    var prevpacket: int, dataread: nat, next: nat := 0, 0, 0;
    var worktodo := sendable > 0;
    wkc := if worktodo then OK else TIMEOUT;
    ghost var outcome := Transfer(msgs, max, buf.Length, sendable);
    assert buf[..0] == [] && msgs[0..] == msgs;
    while worktodo
      invariant dataread <= buf.Length && next <= |msgs|
      invariant |acks| <= sendable && forall i | 0 <= i < |acks| :: acks[i] == i + 1
      invariant if worktodo then |acks| == next && buf[..dataread] == Collected(msgs, next)
                else Acknowledged(msgs, buf[..dataread], |acks|, sendable)
      invariant !worktodo && wkc == OK ==> |acks| <= |msgs| && buf[..dataread] == Collected(msgs, |acks|)
      invariant psize == if next == 0 then buf.Length else dataread
      invariant !worktodo && next == 0 ==> msgs == [] || sendable == 0
      invariant next > 0 ==> msgs != [] && sendable > 0
      invariant worktodo ==>
                  |acks| == prevpacket < sendable &&
                  outcome == Reading(msgs[next..], max, buf.Length, prevpacket + 1, buf[..dataread], sendable)
      invariant !worktodo ==> if wkc == OK then outcome == Finished(buf[..dataread])
                              else outcome == Stopped(wkc, buf[..dataread])
      decreases |msgs| - next, worktodo
    {
      worktodo := false;
      wkc := if next < |msgs| then OK else TIMEOUT;
      if wkc > 0 {
        var msg := msgs[next];
        if msg.DataMail? {
          var segment := |msg.packet.data|;
          prevpacket := prevpacket + 1;
          if msg.packet.number == prevpacket && dataread + segment <= buf.Length {
            Copy(buf, dataread, msg.packet.data);
            dataread := dataread + segment;
            if segment == max {
              worktodo := true;
              assert msgs[next..][1..] == msgs[next + 1..];
            }
            if prevpacket < sendable {
              acks := acks + [msg.packet.number];
            } else {
              wkc := TIMEOUT;
              worktodo := false;
            }
          } else {
            wkc := BUFFER_TOO_SMALL;
          }
        } else if msg.ErrorMail? {
          wkc := FOE_ERROR;
        } else {
          wkc := PACKET_ERROR;
        }
        psize := dataread;
        next := next + 1;
      }
    }
  }

  // ----- Where reading ends.

  /** The first `k` messages are full packets with the numbers 1 to `k`. */
  ghost predicate FullPackets(msgs: seq<Mail>, k: nat, max: nat) {
    k <= |msgs| &&
    forall i | 0 <= i < k :: msgs[i].DataMail? && msgs[i].packet.number == i + 1 && |msgs[i].packet.data| == max
  }

  /** What reading comes to when the first `k` messages were full packets in sequence: a packet with another number,
      repeated or after a missing one, is refused like one that does not fit, a shorter packet ends the file, and
      everything else is an error. */
  ghost predicate ReadsUpTo(r: Outcome, msgs: seq<Mail>, k: nat, max: nat, size: nat, sendable: nat)
    requires k <= |msgs|
  {
    var before := Collected(msgs, k);
    if k == |msgs| then r == Stopped(TIMEOUT, before)
    else
      match msgs[k]
      case DataMail(p) =>
        if p.number != k + 1 || |before| + |p.data| > size then r == Stopped(BUFFER_TOO_SMALL, before)
        else if k + 1 >= sendable then r == Stopped(TIMEOUT, before + p.data)
        else |p.data| != max ==> r == Finished(before + p.data)
      case ErrorMail => r == Stopped(FOE_ERROR, before)
      case BadMail => r == Stopped(PACKET_ERROR, before)
      case NotFoeMail => r == Stopped(PACKET_ERROR, before)
  }

  lemma {:induction false} ReadingFrom(msgs: seq<Mail>, max: nat, size: nat, k: nat, sendable: nat)
    requires FullPackets(msgs, k, max) && |Collected(msgs, k)| <= size && k < sendable
    ensures Transfer(msgs, max, size, sendable) == Reading(msgs[k..], max, size, k + 1, Collected(msgs, k), sendable)
  {
    hide FullPackets;
    if k == 0 {
      assert msgs[0..] == msgs;
    } else {
      FewerFull(msgs, k, max);
      ReadingFrom(msgs, max, size, k - 1, sendable);
      assert msgs[k - 1..][1..] == msgs[k..] && msgs[k - 1..][0] == msgs[k - 1];
    }
  }

  lemma FewerFull(msgs: seq<Mail>, k: nat, max: nat)
    requires FullPackets(msgs, k, max) && k > 0
    ensures k <= |msgs| && FullPackets(msgs, k - 1, max) && msgs[k - 1].DataMail?
    ensures msgs[k - 1].packet.number == k && |msgs[k - 1].packet.data| == max
  {
  }

  /** The outcome for every sequence of messages. */
  lemma ReadStopsAt(msgs: seq<Mail>, max: nat, size: nat, k: nat, sendable: nat)
    requires FullPackets(msgs, k, max) && |Collected(msgs, k)| <= size && k < sendable
    ensures ReadsUpTo(Transfer(msgs, max, size, sendable), msgs, k, max, size, sendable)
  {
    hide Transfer, Collected;
    ReadingFrom(msgs, max, size, k, sendable);
    assert k < |msgs| ==> msgs[k..][0] == msgs[k];
  }

  /** There is always such a `k`, at which reading ends. */
  lemma {:induction false} SomewhereReadingStops(msgs: seq<Mail>, max: nat, size: nat, sendable: nat, from: nat)
    returns (k: nat)
    requires FullPackets(msgs, from, max) && |Collected(msgs, from)| <= size && from < sendable
    ensures from <= k && FullPackets(msgs, k, max) && |Collected(msgs, k)| <= size && k < sendable
    ensures k < |msgs| && msgs[k].DataMail? && |msgs[k].packet.data| == max ==>
              msgs[k].packet.number != k + 1 || |Collected(msgs, k)| + max > size || k + 1 >= sendable
    decreases |msgs| - from
  {
    if from < |msgs| && msgs[from].DataMail? && |msgs[from].packet.data| == max &&
       msgs[from].packet.number == from + 1 && |Collected(msgs, from)| + max <= size && from + 1 < sendable {
      k := SomewhereReadingStops(msgs, max, size, sendable, from + 1);
    } else {
      k := from;
    }
  }

  // ----- Round trip.

  function Mailed(ps: seq<Packet>): (msgs: seq<Mail>)
    ensures |msgs| == |ps|
  {
    seq(|ps|, i requires 0 <= i < |ps| => DataMail(ps[i]))
  }

  lemma {:induction false} RestIsRead(file: seq<byte>, max: nat, pos: nat, n: int, size: nat, more: seq<Mail>,
                                      sendable: nat)
    requires pos <= |file| && max > 0
    requires |file| <= size
    ensures var ps := PacketsFrom(file, max, pos, n);
            var r := Reading(Mailed(ps) + more, max, size, n, file[..pos], sendable);
            if n + |ps| <= sendable then r == Finished(file) else r.Stopped?
    decreases |file| - pos
  {
    hide PacketsFrom, Reading, Mailed, Chunk;
    PacketsStep(file, max, pos, n);
    var chunk := Chunk(file, max, pos);
    var rest := if |chunk| == max then PacketsFrom(file, max, pos + max, n + 1) else [];
    assert file[..pos] + chunk == file[..pos + |chunk|];
    ReadsPacket(Packet(n, chunk), rest, more, max, size, file[..pos], sendable);
    if |chunk| == max {
      RestIsRead(file, max, pos + max, n + 1, size, more, sendable);
    } else {
      assert file[..pos + |chunk|] == file;
    }
  }

  lemma ReadsPacket(p: Packet, rest: seq<Packet>, more: seq<Mail>, max: nat, size: nat, data: seq<byte>,
                    sendable: nat)
    requires |data| + |p.data| <= size
    ensures Reading(Mailed([p] + rest) + more, max, size, p.number, data, sendable) ==
              if p.number >= sendable then Stopped(TIMEOUT, data + p.data)
              else if |p.data| == max
              then Reading(Mailed(rest) + more, max, size, p.number + 1, data + p.data, sendable)
              else Finished(data + p.data)
  {
    var msgs := Mailed([p] + rest) + more;
    assert msgs[0] == DataMail(p) && msgs[1..] == Mailed(rest) + more;
  }

  lemma {:induction false} NeverMoreThanTheBuffer(msgs: seq<Mail>, max: nat, size: nat, n: int, data: seq<byte>,
                                                  sendable: nat)
    requires |data| <= size
    ensures |Reading(msgs, max, size, n, data, sendable).data| <= size
    decreases |msgs|
  {
    if msgs != [] && msgs[0].DataMail? && |data| + |msgs[0].packet.data| <= size {
      NeverMoreThanTheBuffer(msgs[1..], max, size, n + 1, data + msgs[0].packet.data, sendable);
    }
  }

  /** A reader gets exactly the file that was written, and stops there whatever follows, if and only if
      the file is not empty, a packet has room for data, the buffer for the file, and the request and all
      acknowledgements can be sent. */
  lemma {:induction false} RoundTripIff(file: seq<byte>, max: nat, size: nat, sendable: nat)
    ensures (forall more :: Transfer(Mailed(Packets(file, max)) + more, max, size, sendable) == Finished(file))
       <==> file != [] && max > 0 && |file| <= size && |Packets(file, max)| < sendable
  {
    hide Reading, PacketsFrom, Mailed;
    var msgs := Mailed(Packets(file, max));
    if file != [] && max > 0 && |file| <= size && sendable > 0 {
      assert file[..0] == [];
      forall more {
        RestIsRead(file, max, 0, 1, size, more, sendable);
      }
      assert Transfer(msgs + [], max, size, sendable).Stopped? || |Packets(file, max)| < sendable;
    } else {
      NeverMoreThanTheBuffer(msgs + [], max, size, 1, [], sendable);
      NothingToRead(sendable, max, size);
      if file == [] || max == 0 {
        assert msgs + [] == [];
      }
      assert Transfer(msgs + [], max, size, sendable) != Finished(file);
    }
  }

  lemma NothingToRead(sendable: nat, max: nat, size: nat)
    ensures Reading([], max, size, 1, [], sendable) == Stopped(TIMEOUT, [])
  {
  }
}

/** Placing one slave's process data in the logical address space. */
module FmmuMapping {

  const MAXSM: nat := 8

  /** Sync manager kinds. */
  const OUTPUTS: nat := 3
  const INPUTS: nat := 4

  datatype Sm = Sm(start: nat, length: nat, kind: nat)

  /** A logical window: `logLength` bytes from `logStart`, used from bit `startBit` of the first
      byte up to and including bit `endBit` of the last byte. */
  datatype Fmmu = Fmmu(logStart: nat, startBit: nat, logLength: nat, endBit: nat, physStart: nat)
  {
    function Begin(): int {
      8 * logStart + startBit
    }

    function End(): int {
      8 * (logStart + logLength) - 7 + endBit
    }

    predicate IsEmpty() {
      End() <= Begin()
    }

    /** The bit numbers are inside their bytes. */
    predicate HasBits() {
      startBit < 8 && endBit < 8
    }
  }

  /** Windows in increasing order between bit `lo` and bit `hi`, none overlapping another. */
  ghost predicate InOrder(ws: seq<Fmmu>, lo: int, hi: int) {
    lo <= hi &&
    (forall i | 0 <= i < |ws| :: lo <= ws[i].Begin() <= ws[i].End() <= hi) &&
    forall i, j | 0 <= i < j < |ws| :: ws[i].End() <= ws[j].Begin()
  }

  /** Whole-byte windows that fill the bytes from `lo` to `hi` without a gap. */
  ghost predicate FillBytes(ws: seq<Fmmu>, lo: nat, hi: nat) {
    lo <= hi &&
    (forall i | 0 <= i < |ws| :: ws[i].startBit == 0 && ws[i].endBit == 7) &&
    if ws == [] then lo == hi else
      var last := ws[|ws| - 1];
      last.logStart + last.logLength == hi && FillBytes(ws[..|ws| - 1], lo, last.logStart)
  }

  lemma AppendFills(ws: seq<Fmmu>, w: Fmmu, lo: nat)
    requires FillBytes(ws, lo, w.logStart) && w.startBit == 0 && w.endBit == 7
    ensures FillBytes(ws + [w], lo, w.logStart + w.logLength)
  {
    assert (ws + [w])[..|ws|] == ws;
  }

  lemma {:induction false} FilledIsInOrder(ws: seq<Fmmu>, lo: nat, hi: nat)
    requires FillBytes(ws, lo, hi)
    ensures InOrder(ws, 8 * lo, 8 * hi)
  {
    if ws != [] {
      var front := ws[..|ws| - 1];
      FilledIsInOrder(front, lo, ws[|ws| - 1].logStart);
      forall i | 0 <= i < |ws| - 1 ensures ws[i] == front[i] {
      }
    }
  }

  function RoundUp(bits: nat): nat {
    (bits + 7) / 8
  }

  /** Bytes that the sync managers of a kind among the first `n` hold together. */
  function Capacity(sm: seq<Sm>, kind: nat, n: nat): nat
    requires n <= |sm|
  {
    if n == 0 then 0
    else Capacity(sm, kind, n - 1) + if sm[n - 1].kind == kind then sm[n - 1].length else 0
  }

  /** The next sync manager of a kind at or after `smc`, or the last one. */
  function NextOf(sm: seq<Sm>, kind: nat, smc: nat): (next: nat)
    requires |sm| == MAXSM && smc < MAXSM
    ensures smc <= next < MAXSM && (next == MAXSM - 1 || sm[next].kind == kind)
    decreases MAXSM - smc
  {
    if smc == MAXSM - 1 || sm[smc].kind == kind then smc else NextOf(sm, kind, smc + 1)
  }

  /** How far one window goes when sync manager `smc` is already in it: to the first one with which it
      has enough bits, or to the next one that does not adjoin. */
  function Collected(sm: seq<Sm>, kind: nat, bits: nat, smc: nat, byteCount: nat): (r: (nat, nat))
    requires |sm| == MAXSM && smc < MAXSM
    ensures smc <= r.0 < MAXSM && (r.0 == smc ==> smc == MAXSM - 1 || 8 * r.1 >= bits)
    decreases MAXSM - smc
  {
    if 8 * byteCount >= bits || smc == MAXSM - 1 then (smc, byteCount) else
      var next := NextOf(sm, kind, smc + 1);
      if sm[next].start > (sm[smc].start + sm[smc].length) % 0x1_0000 then (next, byteCount)
      else Collected(sm, kind, bits, next, byteCount + sm[next].length)
  }

  /** The physical start and the size of each window of a slave with whole bytes. */
  function Shapes(sm: seq<Sm>, kind: nat, bits: nat, smc: nat, byteCount: nat, done: nat): seq<(nat, nat)>
    requires |sm| == MAXSM && smc < MAXSM
    decreases MAXSM - smc, if done < RoundUp(bits) then 1 else 0
  {
    if smc == MAXSM - 1 || done >= RoundUp(bits) then [] else
      var first := NextOf(sm, kind, smc);
      var (next, bytes) := Collected(sm, kind, bits, first, byteCount + sm[first].length);
      var size := if bytes + done > RoundUp(bits) then RoundUp(bits) - done else bytes;
      [(sm[first].start, size)] + Shapes(sm, kind, bits, next, bytes, done + size)
  }

  function ShapesOf(ws: seq<Fmmu>): (shapes: seq<(nat, nat)>)
    ensures |shapes| == |ws|
  {
    seq(|ws|, i requires 0 <= i < |ws| => (ws[i].physStart, ws[i].logLength))
  }

  lemma CollectedNext(sm: seq<Sm>, kind: nat, bits: nat, smc: nat, byteCount: nat)
    requires |sm| == MAXSM && smc < MAXSM
    ensures Collected(sm, kind, bits, smc, byteCount) ==
              if 8 * byteCount >= bits || smc == MAXSM - 1 then (smc, byteCount) else
                var next := NextOf(sm, kind, smc + 1);
                if sm[next].start > (sm[smc].start + sm[smc].length) % 0x1_0000 then (next, byteCount)
                else Collected(sm, kind, bits, next, byteCount + sm[next].length)
  {
  }

  lemma CapacityNext(sm: seq<Sm>, kind: nat, smc: nat)
    requires smc < |sm|
    ensures Capacity(sm, kind, smc) <= Capacity(sm, kind, smc + 1) <= Capacity(sm, kind, smc) + sm[smc].length
  {
  }

  method NextSm(sm: seq<Sm>, kind: nat, smc: nat) returns (next: nat)
    requires |sm| == MAXSM && smc < MAXSM
    ensures next == NextOf(sm, kind, smc)
    ensures Capacity(sm, kind, next) == Capacity(sm, kind, smc)
  {
    next := smc;
    while next < MAXSM - 1 && sm[next].kind != kind
      invariant smc <= next < MAXSM && NextOf(sm, kind, smc) == NextOf(sm, kind, next)
      invariant Capacity(sm, kind, next) == Capacity(sm, kind, smc)
    {
      next := next + 1;
    }
  }

  /** Adds up adjoining sync managers for one window, until they hold all `bits` or there is a gap
      in the physical addresses. `smc` comes back as the last one counted, or the first one not
      counted if there was a gap. */
  method CollectSms(sm: seq<Sm>, kind: nat, bits: nat, smc0: nat, byteCount0: nat)
    returns (smc: nat, byteCount: nat, physStart: nat)
    requires |sm| == MAXSM && smc0 < MAXSM - 1 && Capacity(sm, kind, smc0) <= byteCount0
    ensures smc0 <= smc < MAXSM && Capacity(sm, kind, smc) <= byteCount
    ensures smc == smc0 ==> 8 * byteCount >= bits
    ensures var first := NextOf(sm, kind, smc0);
            physStart == sm[first].start &&
            (smc, byteCount) == Collected(sm, kind, bits, first, byteCount0 + sm[first].length)
  {
    hide NextOf, Collected, Capacity;
    smc := NextSm(sm, kind, smc0);
    CapacityNext(sm, kind, smc);
    physStart := sm[smc].start;
    byteCount := byteCount0 + sm[smc].length;
    var bitCount := 8 * byteCount0 + sm[smc].length * 8;
    var endAddr := (sm[smc].start + sm[smc].length) % 0x1_0000;
    ghost var goal := Collected(sm, kind, bits, smc, byteCount);
    while bitCount < bits && smc < MAXSM - 1
      invariant smc0 <= smc < MAXSM && bitCount == 8 * byteCount
      invariant endAddr == (sm[smc].start + sm[smc].length) % 0x1_0000
      invariant goal == Collected(sm, kind, bits, smc, byteCount)
      invariant Capacity(sm, kind, if smc < MAXSM - 1 then smc + 1 else smc) <= byteCount
    {
      CollectedNext(sm, kind, bits, smc, byteCount);
      smc := NextSm(sm, kind, smc + 1);
      CapacityNext(sm, kind, smc);
      if sm[smc].start > endAddr {
        break;
      }
      byteCount := byteCount + sm[smc].length;
      bitCount := bitCount + sm[smc].length * 8;
      endAddr := (sm[smc].start + sm[smc].length) % 0x1_0000;
    }
    CollectedNext(sm, kind, bits, smc, byteCount);
    CapacityNext(sm, kind, smc);
  }

  /** The window of a slave with fewer than eight bits: it starts at the next free bit. */
  method PlaceBits(bits: nat, addr0: nat, bit0: nat, physStart: nat) returns (w: Fmmu, addr: nat, bit: nat)
    requires 0 < bits < 8 && bit0 < 8
    ensures bit < 8 && w.logLength >= 1 && w.HasBits() && w.physStart == physStart
    ensures w.Begin() == 8 * addr0 + bit0 && w.End() == w.Begin() + bits == 8 * addr + bit
  {
    addr, bit := addr0, bit0 + bits - 1;
    if bit > 7 {
      addr := addr + 1;
      bit := bit - 8;
    }
    w := Fmmu(addr0, bit0, addr - addr0 + 1, bit, physStart);
    bit := bit + 1;
    if bit > 7 {
      addr := addr + 1;
      bit := bit - 8;
    }
  }

  /** A window of a slave with whole bytes: it starts at the next free byte. */
  method PlaceBytes(bytes: nat, done: nat, byteCount: nat, addr0: nat, bit0: nat, physStart: nat)
    returns (w: Fmmu, addr: nat)
    requires done < bytes && bit0 < 8
    ensures w.logStart == addr0 + RoundUp(bit0) && w.startBit == 0 && w.endBit == 7
    ensures addr == w.logStart + w.logLength && w.physStart == physStart
    ensures w.logLength == if byteCount + done > bytes then bytes - done else byteCount
  {
    addr := addr0;
    if bit0 > 0 {
      addr := addr + 1;
    }
    var size := byteCount;
    if size + done > bytes {
      size := bytes - done;
    }
    w := Fmmu(addr, 0, size, 7, physStart);
    addr := addr + size;
  }

  /** The windows placed so far for a slave with `bits` bits, holding `done` bytes, when the next
      free position has moved from (`addr0`, `bit0`) to (`addr`, `bit`). */
  ghost predicate Placed(ws: seq<Fmmu>, bits: nat, addr0: nat, bit0: nat, addr: nat, bit: nat, done: nat) {
    bit < 8 &&
    (ws == [] ==> addr == addr0 && bit == bit0 && done == 0) &&
    if bits < 8 then
      ws != [] ==>
        |ws| == 1 && done >= 1 && ws[0].HasBits() && ws[0].Begin() == 8 * addr0 + bit0 &&
        ws[0].End() == 8 * addr0 + bit0 + bits == 8 * addr + bit
    else
      (ws != [] ==> bit == 0) &&
      addr + RoundUp(bit) == addr0 + RoundUp(bit0) + done &&
      FillBytes(ws, addr0 + RoundUp(bit0), addr + RoundUp(bit))
  }

  /** One round: the next window. */
  method PlaceWindow(ghost ws: seq<Fmmu>, bits: nat, ghost addr0: nat, ghost bit0: nat,
                     addr1: nat, bit1: nat, done: nat, byteCount: nat, physStart: nat)
    returns (w: Fmmu, addr: nat, bit: nat)
    requires 0 < bits && bit0 < 8 && Placed(ws, bits, addr0, bit0, addr1, bit1, done) && done < RoundUp(bits)
    ensures Placed(ws + [w], bits, addr0, bit0, addr, bit, done + w.logLength)
    ensures w.physStart == physStart && (bits < 8 ==> w.logLength >= 1)
    ensures bits >= 8 ==>
              w.logLength == if byteCount + done > RoundUp(bits) then RoundUp(bits) - done else byteCount
  {
    if bits <= 7 {
      w, addr, bit := PlaceBits(bits, addr1, bit1, physStart);
    } else {
      w, addr := PlaceBytes(RoundUp(bits), done, byteCount, addr1, bit1, physStart);
      bit := 0;
      AppendFills(ws, w, addr0 + RoundUp(bit0));
    }
  }

  lemma BitsOnlyOnce(ws: seq<Fmmu>, bits: nat, addr0: nat, bit0: nat, addr: nat, bit: nat, done: nat)
    requires Placed(ws, bits, addr0, bit0, addr, bit, done) && done < RoundUp(bits)
    ensures bits < 8 ==> ws == []
  {
  }

  /** The windows so far have the right shapes; `smc`, `byteCount` and `done` say where the next starts. */
  ghost predicate Shaped(sm: seq<Sm>, kind: nat, bits: nat, ws: seq<Fmmu>, smc: nat, byteCount: nat, done: nat)
    requires |sm| == MAXSM && smc < MAXSM
  {
    if bits < 8 then if ws == [] then smc == 0 else ws[0].physStart == sm[NextOf(sm, kind, 0)].start
    else Shapes(sm, kind, bits, 0, 0, 0) == ShapesOf(ws) + Shapes(sm, kind, bits, smc, byteCount, done)
  }

  lemma NothingPlaced(sm: seq<Sm>, kind: nat, bits: nat, addr0: nat, bit0: nat)
    requires |sm| == MAXSM && bit0 < 8
    ensures Placed([], bits, addr0, bit0, addr0, bit0, 0) && Capacity(sm, kind, 0) == 0
    ensures Shaped(sm, kind, bits, [], 0, 0, 0)
  {
    assert ShapesOf([]) + Shapes(sm, kind, bits, 0, 0, 0) == Shapes(sm, kind, bits, 0, 0, 0);
  }

  lemma AllPlaced(sm: seq<Sm>, kind: nat, bits: nat, ws: seq<Fmmu>, addr0: nat, bit0: nat, addr: nat, bit: nat,
                  smc: nat, byteCount: nat, done: nat)
    requires |sm| == MAXSM && 0 < bits && bit0 < 8 && smc < MAXSM && Capacity(sm, kind, smc) <= byteCount
    requires Placed(ws, bits, addr0, bit0, addr, bit, done) && Shaped(sm, kind, bits, ws, smc, byteCount, done)
    requires smc == MAXSM - 1 || done >= RoundUp(bits)
    requires smc > 0 ==> ws != []
    requires bits >= 8 ==> done <= RoundUp(bits) && (done < RoundUp(bits) ==> byteCount < RoundUp(bits))
    ensures bit < 8 && InOrder(ws, 8 * addr0 + bit0, 8 * addr + bit)
    ensures bits < 8 ==>
              |ws| == 1 && ws[0].HasBits() && ws[0].Begin() == 8 * addr0 + bit0 &&
              ws[0].End() == 8 * addr0 + bit0 + bits == 8 * addr + bit
    ensures bits >= 8 ==>
              bit == 0 && FillBytes(ws, addr0 + RoundUp(bit0), addr) &&
              addr <= addr0 + RoundUp(bit0) + RoundUp(bits) &&
              (Capacity(sm, kind, MAXSM - 1) >= RoundUp(bits) ==> addr == addr0 + RoundUp(bit0) + RoundUp(bits))
    ensures if bits < 8 then ws[0].physStart == sm[NextOf(sm, kind, 0)].start
            else ShapesOf(ws) == Shapes(sm, kind, bits, 0, 0, 0)
  {
    hide Capacity, NextOf, Collected;
    if bits >= 8 {
      FilledIsInOrder(ws, addr0 + RoundUp(bit0), addr);
      assert ShapesOf(ws) + [] == ShapesOf(ws);
    }
  }

  lemma OneMoreShape(sm: seq<Sm>, kind: nat, bits: nat, ws: seq<Fmmu>, smc0: nat, byteCount0: nat, done: nat, w: Fmmu,
                     smc: nat, byteCount: nat)
    requires |sm| == MAXSM && smc0 < MAXSM - 1 && done < RoundUp(bits) && (bits < 8 ==> ws == [])
    requires Shaped(sm, kind, bits, ws, smc0, byteCount0, done)
    requires var first := NextOf(sm, kind, smc0);
             w.physStart == sm[first].start &&
             (smc, byteCount) == Collected(sm, kind, bits, first, byteCount0 + sm[first].length)
    requires bits >= 8 ==>
               w.logLength == if byteCount + done > RoundUp(bits) then RoundUp(bits) - done else byteCount
    ensures Shaped(sm, kind, bits, ws + [w], smc, byteCount, done + w.logLength)
  {
    hide Collected, NextOf, Shapes, ShapesOf;
    if bits >= 8 {
      ShapesNext(sm, kind, bits, smc0, byteCount0, done);
      ShapesAppend(ws, w);
    }
  }

  lemma ShapesAppend(ws: seq<Fmmu>, w: Fmmu)
    ensures ShapesOf(ws + [w]) == ShapesOf(ws) + [(w.physStart, w.logLength)]
  {
    assert forall i | 0 <= i < |ws| :: (ws + [w])[i] == ws[i];
  }

  lemma ShapesNext(sm: seq<Sm>, kind: nat, bits: nat, smc: nat, byteCount: nat, done: nat)
    requires |sm| == MAXSM && smc < MAXSM - 1 && done < RoundUp(bits)
    ensures var first := NextOf(sm, kind, smc);
            var (next, bytes) := Collected(sm, kind, bits, first, byteCount + sm[first].length);
            var size := if bytes + done > RoundUp(bits) then RoundUp(bits) - done else bytes;
            Shapes(sm, kind, bits, smc, byteCount, done) ==
              [(sm[first].start, size)] + Shapes(sm, kind, bits, next, bytes, done + size)
  {
    hide Collected, NextOf;
  }

  /** One direction of one slave: `bits` is its data size, and the windows go to the first free
      position at or after bit `bit0` of byte `addr0`. */
  method MapSlave(sm: seq<Sm>, kind: nat, bits: nat, addr0: nat, bit0: nat)
    returns (fmmus: seq<Fmmu>, addr: nat, bit: nat)
    requires |sm| == MAXSM && 0 < bits && bit0 < 8
    ensures bit < 8 && InOrder(fmmus, 8 * addr0 + bit0, 8 * addr + bit)
    ensures bits < 8 ==>
              |fmmus| == 1 && fmmus[0].HasBits() && fmmus[0].Begin() == 8 * addr0 + bit0 &&
              fmmus[0].End() == 8 * addr0 + bit0 + bits == 8 * addr + bit
    ensures bits >= 8 ==>
              bit == 0 && FillBytes(fmmus, addr0 + RoundUp(bit0), addr) &&
              addr <= addr0 + RoundUp(bit0) + RoundUp(bits) &&
              (Capacity(sm, kind, MAXSM - 1) >= RoundUp(bits) ==> addr == addr0 + RoundUp(bit0) + RoundUp(bits))
    ensures if bits < 8 then fmmus[0].physStart == sm[NextOf(sm, kind, 0)].start
            else ShapesOf(fmmus) == Shapes(sm, kind, bits, 0, 0, 0)
  {
    hide Placed, Capacity, Shaped, Collected, NextOf, FillBytes, InOrder, Shapes, ShapesOf;
    fmmus, addr, bit := [], addr0, bit0;
    var byteCount: nat, done: nat, smc: nat := 0, 0, 0;
    NothingPlaced(sm, kind, bits, addr0, bit0);
    while smc < MAXSM - 1 && done < RoundUp(bits)
      invariant smc < MAXSM && Capacity(sm, kind, smc) <= byteCount
      invariant Placed(fmmus, bits, addr0, bit0, addr, bit, done) && (smc > 0 ==> fmmus != [])
      invariant bits >= 8 ==> done <= RoundUp(bits) && (done < RoundUp(bits) ==> byteCount < RoundUp(bits))
      invariant Shaped(sm, kind, bits, fmmus, smc, byteCount, done)
      decreases MAXSM - smc, if done < RoundUp(bits) then 1 else 0
    {
      BitsOnlyOnce(fmmus, bits, addr0, bit0, addr, bit, done);
      ghost var smc0, byteCount0 := smc, byteCount;
      var physStart, w;
      smc, byteCount, physStart := CollectSms(sm, kind, bits, smc, byteCount);
      w, addr, bit := PlaceWindow(fmmus, bits, addr0, bit0, addr, bit, done, byteCount, physStart);
      OneMoreShape(sm, kind, bits, fmmus, smc0, byteCount0, done, w, smc, byteCount);
      done := done + w.logLength;
      fmmus := fmmus + [w];
    }
    AllPlaced(sm, kind, bits, fmmus, addr0, bit0, addr, bit, smc, byteCount, done);
  }
}

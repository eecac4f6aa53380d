/** Accumulating wheel angles from encoder readings that wrap around once a turn. `pi` stands for half a
    turn, in whatever unit the readings are. */
module Encoder {
  import opened Basics

  /** The two wheel encoders of a drive. */
  datatype Reading = Reading(encoder1: real, encoder2: real)
  {
    function Channel(c: nat): real {
      if c == 0 then encoder1 else encoder2
    }
  }

  /** What one sample adds to the sum. */
  function Unwrap(pi: real, prev: real, curr: real): real {
    if Abs(curr - prev) > pi then
      if curr < prev then curr - prev + 2.0 * pi else curr - prev - 2.0 * pi
    else curr - prev
  }

  /** The sum after all samples of one encoder; the first one only starts it. */
  function Accumulated(pi: real, readings: seq<real>): real {
    if |readings| < 2 then 0.0
    else Accumulated(pi, readings[..|readings| - 1]) + Unwrap(pi, readings[|readings| - 2], readings[|readings| - 1])
  }

  function ChannelOf(samples: seq<seq<Reading>>, i: nat, c: nat): (rs: seq<real>)
    requires forall s | s in samples :: i < |s|
    ensures |rs| == |samples| && forall k | 0 <= k < |rs| :: rs[k] == samples[k][i].Channel(c)
  {
    seq(|samples|, k requires 0 <= k < |samples| => assert samples[k] in samples; samples[k][i].Channel(c))
  }

  class Monitor {
    const pi: real
    const numWheels: nat
    const prevEncoder: array2<real>
    const sumEncoder: array2<real>
    var initialized: bool

    ghost predicate Valid() {
      prevEncoder.Length0 == sumEncoder.Length0 == numWheels && prevEncoder.Length1 == sumEncoder.Length1 == 2 &&
      prevEncoder != sumEncoder
    }

    constructor (pi: real, numWheels: nat)
      ensures Valid() && fresh(prevEncoder) && fresh(sumEncoder) && this.pi == pi && this.numWheels == numWheels
      ensures Holds([])
    {
      this.pi, this.numWheels, initialized := pi, numWheels, false;
      prevEncoder, sumEncoder := new real[numWheels, 2]((_, _) => 0.0), new real[numWheels, 2]((_, _) => 0.0);
    }

    /** The state after these samples. */
    ghost predicate Holds(samples: seq<seq<Reading>>)
      reads this, prevEncoder, sumEncoder
    {
      Valid() && (initialized <==> samples != []) && (forall s | s in samples :: |s| == numWheels) &&
      forall i, c | 0 <= i < numWheels && 0 <= c < 2 ::
        sumEncoder[i, c] == Accumulated(pi, ChannelOf(samples, i, c)) &&
        (initialized ==> prevEncoder[i, c] == samples[|samples| - 1][i].Channel(c))
    }

    /** Updates one encoder of one wheel. */
    method UpdateChannel(i: nat, c: nat, currEncoder: real)
      requires Valid() && i < numWheels && c < 2
      modifies prevEncoder, sumEncoder
      ensures sumEncoder[i, c] == old(sumEncoder[i, c]) + Unwrap(pi, old(prevEncoder[i, c]), currEncoder)
      ensures prevEncoder[i, c] == currEncoder
      ensures forall j, d | 0 <= j < numWheels && 0 <= d < 2 && (j, d) != (i, c) ::
                prevEncoder[j, d] == old(prevEncoder[j, d]) && sumEncoder[j, d] == old(sumEncoder[j, d])
    {
      if Abs(currEncoder - prevEncoder[i, c]) > pi {
        if currEncoder < prevEncoder[i, c] {
          sumEncoder[i, c] := sumEncoder[i, c] + (currEncoder - prevEncoder[i, c] + 2.0 * pi);
        } else {
          sumEncoder[i, c] := sumEncoder[i, c] + (currEncoder - prevEncoder[i, c] - 2.0 * pi);
        }
      } else {
        sumEncoder[i, c] := sumEncoder[i, c] + (currEncoder - prevEncoder[i, c]);
      }
      prevEncoder[i, c] := currEncoder;
    }

    method StartFrom(data: seq<Reading>)
      requires Valid() && |data| == numWheels
      modifies this`initialized, prevEncoder
      ensures initialized
      ensures forall i, c | 0 <= i < numWheels && 0 <= c < 2 ::
                prevEncoder[i, c] == if old(initialized) then old(prevEncoder[i, c]) else data[i].Channel(c)
    {
      if !initialized {
        for i := 0 to numWheels
          invariant forall j, c | 0 <= j < i && 0 <= c < 2 :: prevEncoder[j, c] == data[j].Channel(c)
        {
          prevEncoder[i, 0] := data[i].encoder1;
          prevEncoder[i, 1] := data[i].encoder2;
        }
        initialized := true;
      }
    }

    method UpdateAll(data: seq<Reading>)
      requires Valid() && |data| == numWheels
      modifies prevEncoder, sumEncoder
      ensures forall i, c | 0 <= i < numWheels && 0 <= c < 2 ::
                sumEncoder[i, c] == old(sumEncoder[i, c]) + Unwrap(pi, old(prevEncoder[i, c]), data[i].Channel(c))
      ensures forall i, c | 0 <= i < numWheels && 0 <= c < 2 :: prevEncoder[i, c] == data[i].Channel(c)
    {
      hide Unwrap;
      for i := 0 to numWheels
        invariant forall j, c | 0 <= j < i && 0 <= c < 2 ::
                    sumEncoder[j, c] == old(sumEncoder[j, c]) + Unwrap(pi, old(prevEncoder[j, c]), data[j].Channel(c))
        invariant forall j, c | 0 <= j < i && 0 <= c < 2 :: prevEncoder[j, c] == data[j].Channel(c)
        invariant forall j, c | i <= j < numWheels && 0 <= c < 2 ::
                    sumEncoder[j, c] == old(sumEncoder[j, c]) && prevEncoder[j, c] == old(prevEncoder[j, c])
      {
        UpdateChannel(i, 0, data[i].encoder1);
        UpdateChannel(i, 1, data[i].encoder2);
      }
    }

    /** One sample of all wheels. */
    method UpdateEncoders(data: seq<Reading>, ghost samples: seq<seq<Reading>>)
      requires pi > 0.0 && Holds(samples) && |data| == numWheels
      modifies this`initialized, prevEncoder, sumEncoder
      ensures Holds(samples + [data])
    {
      hide Unwrap;
      StartFrom(data);
      UpdateAll(data);
      forall i, c | 0 <= i < numWheels && 0 <= c < 2
        ensures Accumulated(pi, ChannelOf(samples + [data], i, c)) ==
                  Accumulated(pi, ChannelOf(samples, i, c)) +
                  if samples == [] then 0.0
                  else Unwrap(pi, samples[|samples| - 1][i].Channel(c), data[i].Channel(c))
      {
        AccumulatesNext(pi, samples, data, i, c);
      }
      NoTurn(pi);
    }

    /** Any number of samples. */
    method Run(samples: seq<seq<Reading>>)
      requires pi > 0.0 && Holds([]) && forall s | s in samples :: |s| == numWheels
      modifies this`initialized, prevEncoder, sumEncoder
      ensures Holds(samples)
    {
      hide *;
      assert samples[..0] == [];
      for k := 0 to |samples|
        invariant Holds(samples[..k])
      {
        assert samples[k] in samples && samples[..k] + [samples[k]] == samples[..k + 1];
        UpdateEncoders(samples[k], samples[..k]);
      }
      assert samples[..|samples|] == samples;
    }
  }

  lemma NoTurn(pi: real)
    requires pi > 0.0
    ensures forall x: real :: Unwrap(pi, x, x) == 0.0
  {
  }

  lemma AccumulatesNext(pi: real, samples: seq<seq<Reading>>, data: seq<Reading>, i: nat, c: nat)
    requires i < |data| && forall s | s in samples :: |s| == |data|
    ensures Accumulated(pi, ChannelOf(samples + [data], i, c)) ==
              Accumulated(pi, ChannelOf(samples, i, c)) +
              if samples == [] then 0.0 else Unwrap(pi, samples[|samples| - 1][i].Channel(c), data[i].Channel(c))
  {
    hide Unwrap;
    var rs := ChannelOf(samples + [data], i, c);
    assert rs[..|rs| - 1] == ChannelOf(samples, i, c);
  }

  // ----- The true angle.

  /** How far `m` full turns are. */
  function Turns(pi: real, m: int): real
    decreases if m < 0 then -m else m
  {
    if m == 0 then 0.0 else if m > 0 then Turns(pi, m - 1) + 2.0 * pi else Turns(pi, m + 1) - 2.0 * pi
  }

  /** Readings of a shaft with these angles: each is off by a number of full turns, and no two of them
      are more than a turn apart. */
  ghost predicate Reads(pi: real, angles: seq<real>, readings: seq<real>, turns: seq<int>) {
    |angles| == |readings| == |turns| &&
    (forall k | 0 <= k < |readings| :: ReadsAt(pi, angles, readings, turns, k)) &&
    forall j, k | 0 <= j < |readings| && 0 <= k < |readings| :: WithinATurn(pi, readings, j, k)
  }

  predicate ReadsAt(pi: real, angles: seq<real>, readings: seq<real>, turns: seq<int>, k: nat)
    requires k < |angles| == |readings| == |turns|
  {
    readings[k] == angles[k] - Turns(pi, turns[k])
  }

  predicate WithinATurn(pi: real, readings: seq<real>, j: nat, k: nat)
    requires j < |readings| && k < |readings|
  {
    Abs(readings[j] - readings[k]) <= 2.0 * pi
  }

  /** A step is measured right if the shaft turns by less than half a turn; by exactly half a turn only if
      the readings turn the same way. */
  predicate Resolved(pi: real, angle: real, next: real, reading: real, nextReading: real) {
    Abs(next - angle) < pi || (Abs(next - angle) == pi && next - angle == nextReading - reading)
  }

  lemma {:induction false} Multiple(pi: real, m: int)
    requires pi > 0.0
    ensures m >= 1 ==> Turns(pi, m) >= 2.0 * pi
    ensures m <= -1 ==> Turns(pi, m) <= 0.0 - 2.0 * pi
    ensures m == 0 ==> Turns(pi, m) == 0.0
    decreases if m < 0 then -m else m
  {
    if m > 1 {
      Multiple(pi, m - 1);
    } else if m < -1 {
      Multiple(pi, m + 1);
    }
  }

  lemma {:induction false} TurnsSum(pi: real, a: int, b: int)
    ensures Turns(pi, a) + Turns(pi, b) == Turns(pi, a + b)
    decreases if b < 0 then -b else b
  {
    if b > 0 {
      TurnsSum(pi, a, b - 1);
    } else if b < 0 {
      TurnsSum(pi, a, b + 1);
    }
  }

  /** How many turns a step is counted wrong. */
  function Slip(pi: real, reading: real, nextReading: real, turned: int): int {
    (if Abs(nextReading - reading) > pi then (if nextReading < reading then 1 else -1) else 0) - turned
  }

  lemma StepIsOffBySlip(pi: real, angle: real, next: real, reading: real, nextReading: real, turned: int)
    requires pi > 0.0 && nextReading - reading == next - angle - Turns(pi, turned)
    ensures Unwrap(pi, reading, nextReading) ==
              next - angle + Turns(pi, Slip(pi, reading, nextReading, turned))
  {
    var s := Slip(pi, reading, nextReading, turned);
    TurnsSum(pi, s, turned);
  }

  /** Wrapped steps come out shorter than half a turn. */
  lemma UnwrapIsShort(pi: real, reading: real, nextReading: real)
    requires pi > 0.0 && Abs(nextReading - reading) <= 2.0 * pi
    ensures Abs(Unwrap(pi, reading, nextReading)) <= pi
    ensures Abs(Unwrap(pi, reading, nextReading)) == pi ==> Unwrap(pi, reading, nextReading) == nextReading - reading
    ensures Abs(nextReading - reading) <= pi ==> Unwrap(pi, reading, nextReading) == nextReading - reading
  {
  }

  lemma StepIsRightIff(pi: real, angle: real, next: real, reading: real, nextReading: real, turned: int)
    requires pi > 0.0 && nextReading - reading == next - angle - Turns(pi, turned)
    requires Abs(nextReading - reading) <= 2.0 * pi
    ensures Unwrap(pi, reading, nextReading) == next - angle <==> Resolved(pi, angle, next, reading, nextReading)
    ensures Slip(pi, reading, nextReading, turned) == 0 <==> Resolved(pi, angle, next, reading, nextReading)
  {
    hide Unwrap, Slip, Turns;
    var s := Slip(pi, reading, nextReading, turned);
    var u := Unwrap(pi, reading, nextReading);
    StepIsOffBySlip(pi, angle, next, reading, nextReading, turned);
    UnwrapIsShort(pi, reading, nextReading);
    Multiple(pi, s);
    var off := Turns(pi, s);
    assert u == next - angle + off;
    RightIff(pi, next - angle, off, u, nextReading - reading, s);
  }

  lemma RightIff(pi: real, d: real, off: real, u: real, read: real, s: int)
    requires pi > 0.0 && u == d + off && Abs(u) <= pi && (Abs(u) == pi ==> u == read)
    requires Abs(read) <= pi ==> u == read
    requires s >= 1 ==> off >= 2.0 * pi
    requires s <= -1 ==> off <= 0.0 - 2.0 * pi
    requires s == 0 ==> off == 0.0
    ensures s == 0 <==> u == d
    ensures s == 0 <==> Abs(d) < pi || (Abs(d) == pi && d == read)
  {
  }

  // ----- Whole runs.

  function Slips(pi: real, readings: seq<real>, turns: seq<int>): int
    requires |readings| == |turns|
  {
    var n := |readings|;
    if n < 2 then 0
    else Slips(pi, readings[..n - 1], turns[..n - 1]) +
         Slip(pi, readings[n - 2], readings[n - 1], turns[n - 1] - turns[n - 2])
  }

  predicate ResolvedAt(pi: real, angles: seq<real>, readings: seq<real>, k: nat)
    requires 0 < k < |angles| == |readings|
  {
    Resolved(pi, angles[k - 1], angles[k], readings[k - 1], readings[k])
  }

  /** The sum after `k` + 1 samples is how far the shaft has turned since the first one. */
  predicate RightAt(pi: real, angles: seq<real>, readings: seq<real>, k: nat)
    requires k < |angles| == |readings|
  {
    Accumulated(pi, readings[..k + 1]) == angles[k] - angles[0]
  }

  lemma TurnsAdd(pi: real, a: int, b: int)
    ensures Turns(pi, a) + Turns(pi, b) == Turns(pi, a + b) && Turns(pi, a) - Turns(pi, b) == Turns(pi, a - b)
  {
    TurnsSum(pi, a, b);
    TurnsSum(pi, a - b, b);
  }

  lemma ReadsBefore(pi: real, angles: seq<real>, readings: seq<real>, turns: seq<int>)
    requires Reads(pi, angles, readings, turns) && angles != []
    ensures var n := |angles| - 1; Reads(pi, angles[..n], readings[..n], turns[..n])
  {
    hide Turns, Abs;
    var n := |angles| - 1;
    forall k | 0 <= k < n ensures ReadsAt(pi, angles[..n], readings[..n], turns[..n], k) {
      assert ReadsAt(pi, angles, readings, turns, k);
    }
    forall j, k | 0 <= j < n && 0 <= k < n ensures WithinATurn(pi, readings[..n], j, k) {
      assert WithinATurn(pi, readings, j, k);
    }
  }

  /** However the shaft moves, the sum is off by a whole number of turns. */
  lemma {:induction false} OffByWholeTurns(pi: real, angles: seq<real>, readings: seq<real>, turns: seq<int>)
    requires pi > 0.0 && Reads(pi, angles, readings, turns) && angles != []
    ensures Accumulated(pi, readings) == angles[|angles| - 1] - angles[0] + Turns(pi, Slips(pi, readings, turns))
  {
    hide Unwrap, Slip, Turns;
    var n := |angles|;
    if n == 1 {
      Multiple(pi, 0);
    } else {
      ReadsBefore(pi, angles, readings, turns);
      OffByWholeTurns(pi, angles[..n - 1], readings[..n - 1], turns[..n - 1]);
      assert ReadsAt(pi, angles, readings, turns, n - 1) && ReadsAt(pi, angles, readings, turns, n - 2);
      var turned := turns[n - 1] - turns[n - 2];
      TurnsAdd(pi, turns[n - 1], turns[n - 2]);
      StepIsOffBySlip(pi, angles[n - 2], angles[n - 1], readings[n - 2], readings[n - 1], turned);
      TurnsAdd(pi, Slips(pi, readings[..n - 1], turns[..n - 1]), Slip(pi, readings[n - 2], readings[n - 1], turned));
    }
  }

  lemma StepKeepsRightIff(pi: real, angles: seq<real>, readings: seq<real>, turns: seq<int>, k: nat)
    requires pi > 0.0 && Reads(pi, angles, readings, turns) && 0 < k < |angles|
    requires RightAt(pi, angles, readings, k - 1)
    ensures RightAt(pi, angles, readings, k) <==> ResolvedAt(pi, angles, readings, k)
  {
    hide Unwrap, Slip, Turns, Resolved;
    assert ReadsAt(pi, angles, readings, turns, k) && ReadsAt(pi, angles, readings, turns, k - 1);
    assert WithinATurn(pi, readings, k, k - 1);
    TurnsAdd(pi, turns[k], turns[k - 1]);
    StepIsRightIff(pi, angles[k - 1], angles[k], readings[k - 1], readings[k], turns[k] - turns[k - 1]);
    assert readings[..k + 1][..k] == readings[..k];
  }

  /** The sum is right after every sample if and only if every step was small enough to be resolved. */
  lemma {:induction false} TracksIff(pi: real, angles: seq<real>, readings: seq<real>, turns: seq<int>, n: nat)
    requires pi > 0.0 && n < |angles| == |readings| && Reads(pi, angles, readings, turns)
    ensures (forall k: nat | k <= n :: RightAt(pi, angles, readings, k)) <==>
              (forall k: nat | 0 < k <= n :: ResolvedAt(pi, angles, readings, k))
  {
    hide RightAt, ResolvedAt, Reads;
    if n == 0 {
      StartsRight(pi, angles, readings);
    } else {
      TracksIff(pi, angles, readings, turns, n - 1);
      if RightAt(pi, angles, readings, n - 1) {
        StepKeepsRightIff(pi, angles, readings, turns, n);
      }
    }
  }

  lemma StartsRight(pi: real, angles: seq<real>, readings: seq<real>)
    requires |angles| == |readings| && angles != []
    ensures RightAt(pi, angles, readings, 0)
  {
  }

  lemma SmallStepsAreTracked(pi: real, angles: seq<real>, readings: seq<real>, turns: seq<int>)
    requires pi > 0.0 && angles != [] && Reads(pi, angles, readings, turns)
    requires forall k | 0 < k < |angles| :: SmallStep(pi, angles, k)
    ensures Accumulated(pi, readings) == angles[|angles| - 1] - angles[0]
  {
    hide Accumulated;
    var n := |angles| - 1;
    TracksIff(pi, angles, readings, turns, n);
    assert forall k: nat | 0 < k <= n :: SmallStep(pi, angles, k) ==> ResolvedAt(pi, angles, readings, k);
    assert RightAt(pi, angles, readings, n);
    assert readings[..n + 1] == readings;
  }

  predicate SmallStep(pi: real, angles: seq<real>, k: nat)
    requires 0 < k < |angles|
  {
    Abs(angles[k] - angles[k - 1]) < pi
  }

  /** Shafts that turn by less than half a turn between samples are followed exactly, for every wheel and
      both encoders. */
  lemma MonitorTracks(m: Monitor, samples: seq<seq<Reading>>, i: nat, c: nat, angles: seq<real>, turns: seq<int>)
    requires m.pi > 0.0 && m.Holds(samples) && samples != [] && i < m.numWheels && c < 2
    requires Reads(m.pi, angles, ChannelOf(samples, i, c), turns)
    requires forall k | 0 < k < |angles| :: SmallStep(m.pi, angles, k)
    ensures angles != [] && m.sumEncoder[i, c] == angles[|angles| - 1] - angles[0]
  {
    SmallStepsAreTracked(m.pi, angles, ChannelOf(samples, i, c), turns);
  }
}

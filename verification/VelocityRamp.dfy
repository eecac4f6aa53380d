/** The velocity ramp of the platform: the commanded velocity follows its target with bounded
    acceleration. */
module VelocityRamp {
  import opened Basics

  datatype Limits = Limits(maxVelLinear: real, maxVelAngular: real, maxAccLinear: real, maxAccAngular: real,
                           maxDecLinear: real, maxDecAngular: real)
  {
    predicate Valid() {
      maxVelLinear >= 0.0 && maxVelAngular >= 0.0 && maxAccLinear >= 0.0 && maxAccAngular >= 0.0 &&
      maxDecLinear >= 0.0 && maxDecAngular >= 0.0
    }

    /** Components 0 and 1 are linear, component 2 is angular. */
    function Vel(c: nat): real {
      if c < 2 then maxVelLinear else maxVelAngular
    }

    function Acc(c: nat): real {
      if c < 2 then maxAccLinear else maxAccAngular
    }

    function Dec(c: nat): real {
      if c < 2 then maxDecLinear else maxDecAngular
    }
  }

  function Max(x: real, y: real): real {
    if x < y then y else x
  }

  function Clip(value: real, maximum: real, minimum: real): real {
    var v := if value < minimum then minimum else value;
    if maximum < v then maximum else v
  }

  // ----- One component.

  function Ramp(v: real, target: real, dt: real, acc: real, dec: real): real {
    if v >= 0.0 then Clip(target, v + dt * acc, v - dt * dec) else Clip(target, v + dt * dec, v - dt * acc)
  }

  lemma RampOf(v: real, target: real, dt: real, acc: real, dec: real, up: real, down: real)
    requires up == dt * acc && down == dt * dec
    ensures Ramp(v, target, dt, acc, dec) ==
              if v >= 0.0 then Clip(target, v + up, v - down) else Clip(target, v + down, v - up)
  {
  }

  function Step(v: real, target: real, dt: real, acc: real, dec: real, maxVel: real): real {
    Clip(Ramp(v, target, dt, acc, dec), maxVel, 0.0 - maxVel)
  }

  predicate Between(x: real, a: real, b: real) {
    a <= x <= b || b <= x <= a
  }

  lemma Products(dt: real, acc: real, dec: real)
    requires dt >= 0.0 && acc >= 0.0 && dec >= 0.0
    ensures 0.0 <= dt * acc <= dt * Max(acc, dec) && 0.0 <= dt * dec <= dt * Max(acc, dec)
  {
    assert dt * (Max(acc, dec) - acc) >= 0.0;
    assert dt * (Max(acc, dec) - dec) >= 0.0;
  }

  lemma RampIsBounded(v: real, target: real, dt: real, acc: real, dec: real)
    requires dt >= 0.0 && acc >= 0.0 && dec >= 0.0
    ensures var next := Ramp(v, target, dt, acc, dec);
            Abs(next - v) <= dt * Max(acc, dec) && Between(next, v, target)
  {
    Products(dt, acc, dec);
  }

  /** A step changes the velocity by no more than the limits allow if and only if the velocity itself was
      within reach of its limit, which it always is unless the limit was lowered. */
  lemma StepIsBoundedIff(v: real, target: real, dt: real, acc: real, dec: real, maxVel: real)
    requires dt >= 0.0 && acc >= 0.0 && dec >= 0.0 && maxVel >= 0.0
    ensures Abs(Step(v, target, dt, acc, dec, maxVel) - v) <= dt * Max(acc, dec) <==>
              Abs(v) <= maxVel + dt * Max(acc, dec)
  {
    Products(dt, acc, dec);
    RampIsBounded(v, target, dt, acc, dec);
  }

  /** A step never overshoots its target, and ends within the velocity limit. */
  lemma StepStaysBetween(v: real, target: real, dt: real, acc: real, dec: real, maxVel: real)
    requires dt >= 0.0 && acc >= 0.0 && dec >= 0.0 && maxVel >= 0.0
    ensures var next := Step(v, target, dt, acc, dec, maxVel);
            Abs(next) <= maxVel && (Abs(v) <= maxVel ==> Between(next, v, target))
  {
    RampIsBounded(v, target, dt, acc, dec);
  }

  /** A step that does not reach its target uses the full acceleration or deceleration. */
  lemma StepIsFast(v: real, target: real, dt: real, acc: real, dec: real, maxVel: real)
    requires dt >= 0.0 && acc >= 0.0 && dec >= 0.0 && Abs(v) <= maxVel && Abs(target) <= maxVel
    ensures var next := Step(v, target, dt, acc, dec, maxVel);
            var faster := (target > v) == (v >= 0.0);
            next == target || Abs(next - v) == dt * (if faster then acc else dec)
  {
    Products(dt, acc, dec);
  }

  // ----- Braking.

  /** The velocity after braking for a time `t` with deceleration `dec`. */
  function Braked(v: real, t: real, dec: real): real {
    if v >= 0.0 then Max(0.0, v - t * dec) else 0.0 - Max(0.0, 0.0 - v - t * dec)
  }

  lemma BrakingStep(v: real, dt: real, acc: real, dec: real, maxVel: real)
    requires dt >= 0.0 && acc >= 0.0 && dec >= 0.0 && Abs(v) <= maxVel
    ensures Step(v, 0.0, dt, acc, dec, maxVel) == Braked(v, dt, dec)
  {
    Products(dt, acc, dec);
  }

  /** Braking does not depend on how time is cut into steps. */
  lemma BrakingComposes(v: real, s: real, t: real, dec: real)
    requires s >= 0.0 && t >= 0.0 && dec >= 0.0
    ensures Braked(Braked(v, s, dec), t, dec) == Braked(v, s + t, dec)
    ensures Abs(Braked(v, s, dec)) <= Abs(v)
  {
    assert (s + t) * dec == s * dec + t * dec;
    assert s * dec >= 0.0 && t * dec >= 0.0;
  }

  lemma StandsIff(v: real, t: real, dec: real)
    requires t >= 0.0 && dec >= 0.0
    ensures Braked(v, t, dec) == 0.0 <==> Abs(v) <= t * dec
  {
    assert t * dec >= 0.0;
  }

  function Min(x: real, y: real): real {
    if x < y then x else y
  }

  /** One step with the distances that can be covered at the acceleration and at the deceleration. */
  function Moved(v: real, target: real, up: real, down: real, maxVel: real): real {
    Clip(if v >= 0.0 then Clip(target, v + up, v - down) else Clip(target, v + down, v - up), maxVel, 0.0 - maxVel)
  }

  /** Two steps equal one over the same time if and only if the first one does not pass zero, or the
      second one covers the same distance at either rate, or what is left for it is within reach at either
      rate: the roles of acceleration and deceleration change at zero, but only from one step to the next. */
  lemma StepsComposeIff(v: real, target: real, s: real, t: real, acc: real, dec: real, maxVel: real)
    requires s >= 0.0 && t >= 0.0 && acc >= 0.0 && dec >= 0.0 && Abs(v) <= maxVel
    ensures var next := Step(v, target, s, acc, dec, maxVel);
            Step(next, target, t, acc, dec, maxVel) == Step(v, target, s + t, acc, dec, maxVel) <==>
              (next >= 0.0 <==> v >= 0.0) || t * acc == t * dec ||
              Abs(Clip(target, maxVel, 0.0 - maxVel) - next) <= t * Min(acc, dec)
  {
    hide Step, Moved, Times, Clip;
    var next := Step(v, target, s, acc, dec, maxVel);
    var up, up2, up3 := Distributes(s, t, acc);
    var down, down2, down3 := Distributes(s, t, dec);
    StepIsMoved(v, target, s, acc, dec, maxVel, up, down);
    StepIsMoved(next, target, t, acc, dec, maxVel, up2, down2);
    StepIsMoved(v, target, s + t, acc, dec, maxVel, up3, down3);
    MovesComposeIff(v, target, up, down, up2, down2, maxVel);
    TimesOf(t, acc);
    TimesOf(t, dec);
    TimesMin(t, acc, dec);
  }

  lemma TimesOf(t: real, a: real)
    ensures Times(t, a) == t * a
  {
  }

  lemma TimesMin(t: real, a: real, b: real)
    requires t >= 0.0
    ensures t * Min(a, b) == Min(t * a, t * b)
  {
    if a < b {
      assert t * (b - a) >= 0.0;
    } else {
      assert t * (a - b) >= 0.0;
    }
  }

  lemma Distributes(s: real, t: real, a: real) returns (x: real, y: real, z: real)
    requires s >= 0.0 && t >= 0.0 && a >= 0.0
    ensures x == Times(s, a) >= 0.0 && y == Times(t, a) >= 0.0 && z == Times(s + t, a) == x + y
  {
    x, y, z := s * a, t * a, (s + t) * a;
  }

  function Times(s: real, a: real): real {
    s * a
  }

  lemma StepIsMoved(v: real, target: real, dt: real, acc: real, dec: real, maxVel: real, up: real, down: real)
    requires up == Times(dt, acc) && down == Times(dt, dec)
    ensures Step(v, target, dt, acc, dec, maxVel) == Moved(v, target, up, down, maxVel)
  {
    hide Clip;
  }

  lemma MovesComposeIff(v: real, target: real, up: real, down: real, up2: real, down2: real, maxVel: real)
    requires up >= 0.0 && down >= 0.0 && up2 >= 0.0 && down2 >= 0.0 && Abs(v) <= maxVel
    ensures var next := Moved(v, target, up, down, maxVel);
            Moved(next, target, up2, down2, maxVel) == Moved(v, target, up + up2, down + down2, maxVel) <==>
              (next >= 0.0 <==> v >= 0.0) || up2 == down2 ||
              Abs(Clip(target, maxVel, 0.0 - maxVel) - next) <= Min(up2, down2)
  {
    hide Moved, Slid, Min;
    var goal := Clip(target, maxVel, 0.0 - maxVel);
    var next := Moved(v, target, up, down, maxVel);
    MovedIsSlid(v, target, up, down, maxVel);
    MovedIsSlid(next, target, up2, down2, maxVel);
    MovedIsSlid(v, target, up + up2, down + down2, maxVel);
    SlidesComposeIff(v, goal, up, down, up2, down2);
  }

  function Slid(v: real, goal: real, up: real, down: real): real {
    if v >= 0.0 then Clip(goal, v + up, v - down) else Clip(goal, v + down, v - up)
  }

  lemma MovedIsSlid(v: real, target: real, up: real, down: real, maxVel: real)
    requires up >= 0.0 && down >= 0.0 && Abs(v) <= maxVel
    ensures Moved(v, target, up, down, maxVel) == Slid(v, Clip(target, maxVel, 0.0 - maxVel), up, down)
    ensures Abs(Moved(v, target, up, down, maxVel)) <= maxVel
  {
  }

  lemma SlidesComposeIff(v: real, goal: real, up: real, down: real, up2: real, down2: real)
    requires up >= 0.0 && down >= 0.0 && up2 >= 0.0 && down2 >= 0.0
    ensures var next := Slid(v, goal, up, down);
            Slid(next, goal, up2, down2) == Slid(v, goal, up + up2, down + down2) <==>
              (next >= 0.0 <==> v >= 0.0) || up2 == down2 || Abs(goal - next) <= Min(up2, down2)
  {
  }

  /** In particular a ramp that does not pass zero does not depend on how time is cut into steps. */
  lemma RampComposes(v: real, target: real, s: real, t: real, acc: real, dec: real, maxVel: real)
    requires s >= 0.0 && t >= 0.0 && acc >= 0.0 && dec >= 0.0 && Abs(v) <= maxVel
    requires (v >= 0.0 && target >= 0.0) || (v < 0.0 && target <= 0.0)
    ensures Step(Step(v, target, s, acc, dec, maxVel), target, t, acc, dec, maxVel) ==
              Step(v, target, s + t, acc, dec, maxVel)
  {
    StepsComposeIff(v, target, s, t, acc, dec, maxVel);
    StepStaysBetween(v, target, s, acc, dec, maxVel);
    hide Step;
    assert t * Min(acc, dec) >= 0.0;
  }

  /** A ramp through zero that does depend on it. */
  lemma CrossingDependsOnSteps()
    ensures Step(1.0, -1.0, 2.0, 0.0, 1.0, 1.0) == -1.0
    ensures Step(Step(1.0, -1.0, 1.5, 0.0, 1.0, 1.0), -1.0, 0.5, 0.0, 1.0, 1.0) == -0.5
  {
  }

  // ----- The controller.

  /** The state of the controller as a value. Vectors have three components. */
  datatype Control = Control(target: seq<real>, ramped: seq<real>, limits: Limits, last: Option<real>)
  {
    ghost predicate Valid() {
      |target| == |ramped| == 3 && limits.Valid()
    }

    function Elapsed(now: real): real {
      if last.Some? then now - last.value else 0.0
    }

    /** One step of the ramp. */
    function Ramped(now: real): (c: Control)
      requires |target| == |ramped| == 3
      ensures |c.target| == |c.ramped| == 3
    {
      var next := seq(3, c requires 0 <= c < 3 && |target| == |ramped| == 3 =>
        Step(ramped[c], target[c], Elapsed(now), limits.Acc(c), limits.Dec(c), limits.Vel(c)));
      this.(ramped := next, last := Some(now))
    }

    predicate Standing()
      requires |ramped| == 3
    {
      ramped[0] == 0.0 && ramped[1] == 0.0 && ramped[2] == 0.0
    }
  }

  class Controller {
    const targetVel: array<real>
    const rampedVel: array<real>
    var limits: Limits
    var timeLastRamping: Option<real>
    var onlyAlignDrives: bool

    ghost predicate Valid() {
      targetVel.Length == rampedVel.Length == 3 && targetVel != rampedVel
    }

    ghost function View(): (c: Control)
      requires Valid()
      reads this, targetVel, rampedVel
      ensures |c.target| == |c.ramped| == 3
    {
      Control(targetVel[..], rampedVel[..], limits, timeLastRamping)
    }

    constructor ()
      ensures Valid() && fresh(targetVel) && fresh(rampedVel)
      ensures View() == Control([0.0, 0.0, 0.0], [0.0, 0.0, 0.0], Limits(1.0, 1.0, 0.5, 0.8, 0.5, 0.8), None)
    {
      targetVel, rampedVel := new real[3](_ => 0.0), new real[3](_ => 0.0);
      limits, timeLastRamping, onlyAlignDrives := Limits(1.0, 1.0, 0.5, 0.8, 0.5, 0.8), None, false;
      new;
      assert targetVel[..] == [0.0, 0.0, 0.0] && rampedVel[..] == [0.0, 0.0, 0.0];
    }

    /** Tiny velocities count as zero. */
    static function Cleaned(v: real): real {
      if Abs(v) < 0.0000001 then 0.0 else v
    }

    method SetPlatformVelocityTarget(velX: real, velY: real, velA: real, onlyAlign: bool)
      requires Valid()
      modifies this`onlyAlignDrives, targetVel
      ensures View() == old(View()).(target := [Cleaned(velX), Cleaned(velY), Cleaned(velA)])
      ensures onlyAlignDrives == onlyAlign
    {
      targetVel[0] := Cleaned(velX);
      targetVel[1] := Cleaned(velY);
      targetVel[2] := Cleaned(velA);
      onlyAlignDrives := onlyAlign;
      assert targetVel[..] == [Cleaned(velX), Cleaned(velY), Cleaned(velA)];
    }

    method RampComponent(c: nat, timeDelta: real, acc: real, dec: real)
      requires Valid() && c < 3
      modifies rampedVel
      ensures rampedVel[c] == Ramp(old(rampedVel[c]), targetVel[c], timeDelta, acc, dec)
      ensures forall d | 0 <= d < 3 && d != c :: rampedVel[d] == old(rampedVel[d])
    {
      hide Abs, Clip, Ramp;
      var up, down := timeDelta * acc, timeDelta * dec;
      RampOf(rampedVel[c], targetVel[c], timeDelta, acc, dec, up, down);
      if rampedVel[c] >= 0.0 {
        rampedVel[c] := Clip(targetVel[c], rampedVel[c] + up, rampedVel[c] - down);
      } else {
        rampedVel[c] := Clip(targetVel[c], rampedVel[c] + down, rampedVel[c] - up);
      }
    }

    method CalculatePlatformRampedVelocities(now: real)
      requires Valid()
      modifies this`timeLastRamping, rampedVel
      ensures View() == old(View()).Ramped(now)
      ensures var dt := if old(timeLastRamping).Some? then now - old(timeLastRamping).value else 0.0;
              var l := limits;
              (forall c | 0 <= c < 2 ::
                 rampedVel[c] ==
                   Step(old(rampedVel[c]), targetVel[c], dt, l.maxAccLinear, l.maxDecLinear, l.maxVelLinear)) &&
              rampedVel[2] ==
                Step(old(rampedVel[2]), targetVel[2], dt, l.maxAccAngular, l.maxDecAngular, l.maxVelAngular)
    {
      hide Ramp, Clip;
      if timeLastRamping.None? {
        timeLastRamping := Some(now);
      }
      var timeDelta := now - timeLastRamping.value;
      RampComponent(0, timeDelta, limits.maxAccLinear, limits.maxDecLinear);
      RampComponent(1, timeDelta, limits.maxAccLinear, limits.maxDecLinear);
      RampComponent(2, timeDelta, limits.maxAccAngular, limits.maxDecAngular);
      rampedVel[0] := Clip(rampedVel[0], limits.maxVelLinear, 0.0 - limits.maxVelLinear);
      rampedVel[1] := Clip(rampedVel[1], limits.maxVelLinear, 0.0 - limits.maxVelLinear);
      rampedVel[2] := Clip(rampedVel[2], limits.maxVelAngular, 0.0 - limits.maxVelAngular);
      timeLastRamping := Some(now);
      assert rampedVel[..] == old(View()).Ramped(now).ramped;
    }

    /** Whether all pivots point in the right direction. If not, the ramp has to start anew. */
    method AreDrivesAligned(pivotErrors: seq<real>, maxPivotError: real) returns (aligned: bool)
      requires Valid()
      modifies this`timeLastRamping
      ensures aligned <==> forall e | e in pivotErrors :: Abs(e) <= maxPivotError
      ensures View() == if aligned then old(View()) else old(View()).(last := None)
    {
      for i := 0 to |pivotErrors|
        invariant forall e | e in pivotErrors[..i] :: Abs(e) <= maxPivotError
        invariant View() == old(View())
      {
        if Abs(pivotErrors[i]) > maxPivotError {
          timeLastRamping := None;
          return false;
        }
        assert pivotErrors[..i + 1] == pivotErrors[..i] + [pivotErrors[i]];
      }
      assert pivotErrors[..|pivotErrors|] == pivotErrors;
      return true;
    }
  }

  // ----- Runs of the ramp.

  /** A ramp step, or a query that found the drives not aligned. */
  datatype Event = Tick(now: real) | Misaligned

  function After(c: Control, e: Event): (r: Control)
    requires |c.target| == |c.ramped| == 3
    ensures |r.target| == |r.ramped| == 3 && r.target == c.target && r.limits == c.limits
  {
    if e.Tick? then c.Ramped(e.now) else c.(last := None)
  }

  function RampRun(c: Control, events: seq<Event>): (r: Control)
    requires |c.target| == |c.ramped| == 3
    ensures |r.target| == |r.ramped| == 3 && r.target == c.target && r.limits == c.limits
  {
    if events == [] then c else After(RampRun(c, events[..|events| - 1]), events[|events| - 1])
  }

  /** The time of the last step, unless a query made the ramp forget it. */
  function LastAfter(last: Option<real>, events: seq<Event>): Option<real> {
    if events == [] then last
    else if events[|events| - 1].Tick? then Some(events[|events| - 1].now) else None
  }

  function Gap(last: Option<real>, e: Event): real {
    if e.Tick? && last.Some? then e.now - last.value else 0.0
  }

  /** The time between steps that follow each other without such a query. */
  function Counted(last: Option<real>, events: seq<Event>): real {
    if events == [] then 0.0
    else
      var front := events[..|events| - 1];
      Counted(last, front) + Gap(LastAfter(last, front), events[|events| - 1])
  }

  /** The clock does not go back. */
  ghost predicate Ordered(last: Option<real>, events: seq<Event>) {
    events != [] ==>
      Ordered(last, events[..|events| - 1]) &&
      Gap(LastAfter(last, events[..|events| - 1]), events[|events| - 1]) >= 0.0
  }

  /** No component is faster than its limit. */
  ghost predicate Within(c: Control) {
    c.Valid() && forall i | 0 <= i < 3 :: Abs(c.ramped[i]) <= c.limits.Vel(i)
  }

  lemma LimitsAreValid(l: Limits, i: nat)
    requires l.Valid()
    ensures l.Vel(i) >= 0.0 && l.Acc(i) >= 0.0 && l.Dec(i) >= 0.0
  {
  }

  /** One event changes a component by at most the time counted times the larger limit, without
      overshooting the target, and keeps it within its limit. */
  lemma EventIsBounded(c: Control, e: Event, i: nat)
    requires Within(c) && i < 3 && Gap(c.last, e) >= 0.0
    ensures var next := After(c, e).ramped[i];
            Abs(next - c.ramped[i]) <= Gap(c.last, e) * Max(c.limits.Acc(i), c.limits.Dec(i)) &&
            Between(next, c.ramped[i], c.target[i]) && Abs(next) <= c.limits.Vel(i)
  {
    hide Step, Limits.Acc, Limits.Dec, Limits.Vel;
    LimitsAreValid(c.limits, i);
    var dt, acc, dec, vel := Gap(c.last, e), c.limits.Acc(i), c.limits.Dec(i), c.limits.Vel(i);
    Products(dt, acc, dec);
    if e.Tick? {
      StepIsBoundedIff(c.ramped[i], c.target[i], dt, acc, dec, vel);
      StepStaysBetween(c.ramped[i], c.target[i], dt, acc, dec, vel);
    }
  }

  lemma StaysWithin(c: Control, e: Event)
    requires Within(c) && Gap(c.last, e) >= 0.0
    ensures Within(After(c, e))
  {
    hide After, Limits.Acc, Limits.Dec, Limits.Vel;
    forall i | 0 <= i < 3 ensures Abs(After(c, e).ramped[i]) <= c.limits.Vel(i) {
      EventIsBounded(c, e, i);
    }
  }

  lemma LastOfRun(c: Control, events: seq<Event>)
    requires |c.target| == |c.ramped| == 3
    ensures RampRun(c, events).last == LastAfter(c.last, events)
  {
  }

  lemma {:induction false} RunStaysWithin(c: Control, events: seq<Event>)
    requires Within(c) && Ordered(c.last, events)
    ensures Within(RampRun(c, events))
  {
    hide Within, After;
    if events != [] {
      var front := events[..|events| - 1];
      RunStaysWithin(c, front);
      RunKeepsShape(c, front);
      StaysWithin(RampRun(c, front), events[|events| - 1]);
    }
  }

  lemma RunKeepsShape(c: Control, events: seq<Event>)
    requires Within(c)
    ensures |c.target| == |c.ramped| == 3 && RampRun(c, events).last == LastAfter(c.last, events)
  {
    LastOfRun(c, events);
  }

  lemma {:induction false} CountedIsPositive(last: Option<real>, events: seq<Event>)
    requires Ordered(last, events)
    ensures Counted(last, events) >= 0.0
  {
    if events != [] {
      CountedIsPositive(last, events[..|events| - 1]);
    }
  }

  lemma EventBrakes(c: Control, e: Event, i: nat)
    requires Within(c) && i < 3 && Gap(c.last, e) >= 0.0 && c.target[i] == 0.0
    ensures After(c, e).ramped[i] == Braked(c.ramped[i], Gap(c.last, e), c.limits.Dec(i))
  {
    hide Step, Braked, Limits.Acc, Limits.Dec, Limits.Vel;
    LimitsAreValid(c.limits, i);
    if e.Tick? {
      BrakingStep(c.ramped[i], Gap(c.last, e), c.limits.Acc(i), c.limits.Dec(i), c.limits.Vel(i));
    } else {
      BrakingForNoTime(c.ramped[i], c.limits.Dec(i));
    }
  }

  lemma BrakingForNoTime(v: real, dec: real)
    ensures Braked(v, 0.0, dec) == v
  {
  }

  /** With target zero, any run brakes every component for exactly the time that counts. */
  lemma {:induction false} RunBrakes(c: Control, events: seq<Event>, i: nat)
    requires Within(c) && Ordered(c.last, events) && i < 3 && c.target[i] == 0.0
    ensures RampRun(c, events).ramped[i] == Braked(c.ramped[i], Counted(c.last, events), c.limits.Dec(i))
  {
    hide After, Braked, Within, Limits.Acc, Limits.Dec, Limits.Vel;
    RunKeepsShape(c, []);
    if events == [] {
      BrakingForNoTime(c.ramped[i], c.limits.Dec(i));
    } else {
      var front := events[..|events| - 1];
      RunBrakes(c, front, i);
      RunStaysWithin(c, front);
      RunKeepsShape(c, front);
      var gap := Gap(LastAfter(c.last, front), events[|events| - 1]);
      EventBrakes(RampRun(c, front), events[|events| - 1], i);
      CountedIsPositive(c.last, front);
      WithinMeansLimits(c, i);
      BrakingComposes(c.ramped[i], Counted(c.last, front), gap, c.limits.Dec(i));
    }
  }

  lemma WithinMeansLimits(c: Control, i: nat)
    requires Within(c)
    ensures c.limits.Dec(i) >= 0.0
  {
  }

  /** The platform stands if and only if the counted time is enough for every component to brake. */
  lemma RunStandsIff(c: Control, events: seq<Event>)
    requires Within(c) && Ordered(c.last, events) && c.target == [0.0, 0.0, 0.0]
    ensures RampRun(c, events).Standing() <==>
              forall i | 0 <= i < 3 :: Abs(c.ramped[i]) <= Counted(c.last, events) * c.limits.Dec(i)
  {
    hide Braked, RampRun, Counted, Limits.Dec, Abs, Ordered;
    var t := Counted(c.last, events);
    CountedIsPositive(c.last, events);
    forall i | 0 <= i < 3
      ensures RampRun(c, events).ramped[i] == 0.0 <==> Abs(c.ramped[i]) <= t * c.limits.Dec(i)
    {
      RunBrakes(c, events, i);
      WithinMeansLimits(c, i);
      StandsIff(c.ramped[i], t, c.limits.Dec(i));
    }
  }

  /** Acceleration and deceleration are the same, or the component does not pass zero on its way. */
  predicate Steady(c: Control, i: nat)
    requires |c.target| == |c.ramped| == 3 && i < 3
  {
    c.limits.Acc(i) == c.limits.Dec(i) ||
    (c.ramped[i] >= 0.0 && c.target[i] >= 0.0) || (c.ramped[i] < 0.0 && c.target[i] <= 0.0)
  }

  /** One step of component `i` over time `dt`. */
  function Stepped(c: Control, i: nat, dt: real): real
    requires |c.target| == |c.ramped| == 3 && i < 3
  {
    Step(c.ramped[i], c.target[i], dt, c.limits.Acc(i), c.limits.Dec(i), c.limits.Vel(i))
  }

  lemma NoTimeNoStep(c: Control, i: nat)
    requires Within(c) && i < 3
    ensures Stepped(c, i, 0.0) == c.ramped[i]
  {
  }

  lemma SteadyComposes(c: Control, i: nat, s: real, t: real)
    requires Within(c) && i < 3 && Steady(c, i) && s >= 0.0 && t >= 0.0
    ensures Step(Stepped(c, i, s), c.target[i], t, c.limits.Acc(i), c.limits.Dec(i), c.limits.Vel(i)) ==
              Stepped(c, i, s + t)
  {
    hide Step, Limits.Acc, Limits.Dec, Limits.Vel;
    LimitsAreValid(c.limits, i);
    var acc, dec, vel := c.limits.Acc(i), c.limits.Dec(i), c.limits.Vel(i);
    if acc == dec {
      StepsComposeIff(c.ramped[i], c.target[i], s, t, acc, dec, vel);
    } else {
      RampComposes(c.ramped[i], c.target[i], s, t, acc, dec, vel);
    }
  }

  /** A whole run takes a steady component where one step over all the counted time would. */
  lemma {:induction false} RunIsOneStep(c: Control, events: seq<Event>, i: nat)
    requires Within(c) && Ordered(c.last, events) && i < 3 && Steady(c, i)
    ensures RampRun(c, events).ramped[i] == Stepped(c, i, Counted(c.last, events))
  {
    hide Step, Limits.Acc, Limits.Dec, Limits.Vel, Within, Steady;
    RunKeepsShape(c, []);
    if events == [] {
      NoTimeNoStep(c, i);
    } else {
      var front, e := events[..|events| - 1], events[|events| - 1];
      RunIsOneStep(c, front, i);
      RunStaysWithin(c, front);
      RunKeepsShape(c, front);
      CountedIsPositive(c.last, front);
      NoTimeNoStep(RampRun(c, front), i);
      SteadyComposes(c, i, Counted(c.last, front), Gap(LastAfter(c.last, front), e));
    }
  }

  /** Without such queries all time counts. */
  lemma {:induction false} AllTimeCounts(start: real, events: seq<Event>)
    requires forall e | e in events :: e.Tick?
    ensures LastAfter(Some(start), events).Some?
    ensures Counted(Some(start), events) == LastAfter(Some(start), events).value - start
  {
    if events != [] {
      AllTimeCounts(start, events[..|events| - 1]);
    }
  }

  ghost predicate AlternatesWithQueries(events: seq<Event>) {
    forall k | 0 <= k < |events| :: events[k].Misaligned? <==> k % 2 == 0
  }

  /** A query before every step keeps the platform from ever slowing down. */
  lemma {:induction false} QueriesPreventBraking(last: Option<real>, events: seq<Event>)
    requires AlternatesWithQueries(events)
    ensures Counted(last, events) == 0.0
  {
    if events != [] {
      QueriesPreventBraking(last, events[..|events| - 1]);
    }
  }
}

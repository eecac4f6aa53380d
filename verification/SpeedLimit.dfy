/** The speed of the platform, that is the length of its linear velocity. A command may not ask for more
    than 0.5 m/s; the ramp moves each component on its own. */
module SpeedLimit {
  import opened Basics
  import opened VelocityRamp
  import opened PlatformControl

  predicate InDisc(x: real, y: real) {
    x * x + y * y <= MAX_LINEAR * MAX_LINEAR
  }

  /** `v` moved by `m` in the direction of `goal`, but not beyond. */
  function Toward(v: real, goal: real, m: real): real {
    if goal >= v then Min(goal, v + m) else Max(goal, v - m)
  }

  /** How far one component moves while the other one, at rate `r`, moves by `d`. */
  function Share(d: real, rate: real, r: real): real
    requires r > 0.0
  {
    d * rate / r
  }

  /** Where the ramp is when the first component reaches its goal; the components move at rates `rx` and
      `ry`. From there on only the other one moves. */
  function Corner(vx: real, vy: real, gx: real, gy: real, rx: real, ry: real): (c: (real, real))
    requires rx >= 0.0 && ry >= 0.0
  {
    var dx, dy := Abs(gx - vx), Abs(gy - vy);
    if rx > 0.0 && dx * ry <= dy * rx then (gx, Toward(vy, gy, Share(dx, ry, rx)))
    else if ry > 0.0 then (Toward(vx, gx, Share(dy, rx, ry)), gy)
    else (vx, vy)
  }

  // ----- One piece after the other.

  function Mix(a: real, b: real, l: real): real {
    a + l * (b - a)
  }

  lemma Square(x: real)
    ensures x * x >= 0.0
  {
    if x < 0.0 {
      assert (0.0 - x) * (0.0 - x) >= 0.0;
    }
  }

  lemma Product(x: real, y: real)
    requires x >= 0.0 && y >= 0.0
    ensures x * y >= 0.0
  {
  }

  lemma MixSquare(a: real, b: real, l: real)
    requires 0.0 <= l <= 1.0
    ensures Mix(a, b, l) * Mix(a, b, l) <= (1.0 - l) * (a * a) + l * (b * b)
  {
    var d := b - a;
    Square(d);
    Product(l, 1.0 - l);
    Product(l * (1.0 - l), d * d);
    var p := l * d;
    assert Mix(a, b, l) * Mix(a, b, l) == a * a + 2.0 * (a * p) + p * p;
    assert b * b == a * a + 2.0 * (a * d) + d * d;
    assert p * p == l * (l * (d * d));
    assert a * p == l * (a * d);
  }

  lemma MixBelow(a: real, b: real, c: real, d: real, l: real, r: real)
    requires 0.0 <= l <= 1.0 && a + b <= r && c + d <= r
    ensures ((1.0 - l) * a + l * c) + ((1.0 - l) * b + l * d) <= r
  {
    Product(1.0 - l, r - (a + b));
    Product(l, r - (c + d));
  }

  /** A straight line between two points of the disc stays inside. */
  lemma Convex(ax: real, ay: real, bx: real, by_: real, l: real)
    requires InDisc(ax, ay) && InDisc(bx, by_) && 0.0 <= l <= 1.0
    ensures InDisc(Mix(ax, bx, l), Mix(ay, by_, l))
  {
    MixSquare(ax, bx, l);
    MixSquare(ay, by_, l);
    MixBelow(ax * ax, ay * ay, bx * bx, by_ * by_, l, MAX_LINEAR * MAX_LINEAR);
  }

  lemma SquareBetween(y: real, a: real, b: real)
    requires Between(y, a, b)
    ensures y * y <= a * a || y * y <= b * b
  {
    if y >= 0.0 {
      var m := if a < b then b else a;
      assert (m - y) * (m + y) >= 0.0;
    } else {
      var m := if a < b then a else b;
      assert (y - m) * (0.0 - m - y) >= 0.0;
    }
  }

  lemma TowardIsMix(v: real, goal: real, m: real, l: real, part: real)
    requires 0.0 <= l <= 1.0 && 0.0 <= m <= Abs(goal - v) && part == l * m
    ensures Toward(v, goal, part) == Mix(v, Toward(v, goal, m), l)
  {
    Product(l, m);
    Product(1.0 - l, m);
    assert l * (0.0 - m) == 0.0 - part;
  }

  lemma TowardPasses(v: real, goal: real, m: real, n: real)
    requires 0.0 <= m <= n
    ensures Between(Toward(v, goal, n), Toward(v, goal, m), goal)
  {
  }

  /** The first component reaches its goal when `t` has passed, and the second one has moved by `m` then. */
  lemma PathToCorner(vx: real, vy: real, gx: real, gy: real, rx: real, ry: real, t: real, m: real, dt: real,
        px: real, py: real)
    requires rx > 0.0 && ry >= 0.0 && t >= 0.0 && dt >= 0.0
    requires t * rx == Abs(gx - vx) && t * ry == m <= Abs(gy - vy)
    requires InDisc(vx, vy) && InDisc(gx, gy) && InDisc(gx, Toward(vy, gy, m))
    requires px == dt * rx && py == dt * ry
    ensures InDisc(Toward(vx, gx, px), Toward(vy, gy, py))
  {
    hide InDisc, Toward;
    if dt <= t {
      BeforeCorner(vx, vy, gx, gy, rx, ry, t, m, dt, px, py);
    } else {
      AfterCorner(vx, vy, gx, gy, rx, ry, t, m, dt, px, py);
    }
  }

  lemma BeforeCorner(vx: real, vy: real, gx: real, gy: real, rx: real, ry: real, t: real, m: real, dt: real,
        px: real, py: real)
    requires rx > 0.0 && ry >= 0.0 && 0.0 <= dt <= t
    requires t * rx == Abs(gx - vx) && t * ry == m <= Abs(gy - vy)
    requires InDisc(vx, vy) && InDisc(gx, Toward(vy, gy, m))
    requires px == dt * rx && py == dt * ry
    ensures InDisc(Toward(vx, gx, px), Toward(vy, gy, py))
  {
    hide InDisc, Toward, Mix;
    var l := Ratio(dt, t);
    var dx := Abs(gx - vx);
    Scaled(dt, t, l, rx, dx);
    Scaled(dt, t, l, ry, m);
    Product(t, ry);
    ReachesGoal(vx, gx, dx);
    TowardIsMix(vx, gx, dx, l, px);
    TowardIsMix(vy, gy, m, l, py);
    Convex(vx, vy, gx, Toward(vy, gy, m), l);
  }

  lemma Ratio(dt: real, t: real) returns (l: real)
    requires 0.0 <= dt <= t
    ensures 0.0 <= l <= 1.0 && l * t == dt
  {
    l := if t == 0.0 then 0.0 else dt / t;
  }

  lemma Scaled(dt: real, t: real, l: real, r: real, d: real)
    requires l * t == dt && t * r == d
    ensures dt * r == l * d
  {
    assert (l * t) * r == l * (t * r);
  }

  lemma AfterCorner(vx: real, vy: real, gx: real, gy: real, rx: real, ry: real, t: real, m: real, dt: real,
        px: real, py: real)
    requires rx > 0.0 && ry >= 0.0 && 0.0 <= t <= dt
    requires t * rx == Abs(gx - vx) && t * ry == m
    requires InDisc(gx, gy) && InDisc(gx, Toward(vy, gy, m))
    requires px == dt * rx && py == dt * ry
    ensures InDisc(Toward(vx, gx, px), Toward(vy, gy, py))
  {
    hide Toward;
    Longer(t, dt, rx);
    Longer(t, dt, ry);
    StaysAtGoal(vx, gx, px);
    TowardPasses(vy, gy, m, py);
    SquareBetween(Toward(vy, gy, py), Toward(vy, gy, m), gy);
  }

  lemma Longer(t: real, dt: real, r: real)
    requires r >= 0.0 && 0.0 <= t <= dt
    ensures 0.0 <= t * r <= dt * r
  {
    Product(t, r);
    Product(dt - t, r);
  }

  lemma StaysAtGoal(v: real, goal: real, m: real)
    requires m >= Abs(goal - v)
    ensures Toward(v, goal, m) == goal
  {
  }

  ghost predicate StaysInDisc(vx: real, vy: real, gx: real, gy: real, rx: real, ry: real) {
    forall dt: real | dt >= 0.0 :: AtInDisc(vx, vy, gx, gy, rx, ry, dt)
  }

  predicate AtInDisc(vx: real, vy: real, gx: real, gy: real, rx: real, ry: real, dt: real) {
    InDisc(Toward(vx, gx, Times(dt, rx)), Toward(vy, gy, Times(dt, ry)))
  }

  lemma ReachesIff(vx: real, vy: real, gx: real, gy: real, rx: real, ry: real, t: real, m: real)
    requires rx > 0.0 && ry >= 0.0 && t >= 0.0
    requires t * rx == Abs(gx - vx) && t * ry == m <= Abs(gy - vy)
    requires InDisc(vx, vy) && InDisc(gx, gy)
    ensures StaysInDisc(vx, vy, gx, gy, rx, ry) <==> InDisc(gx, Toward(vy, gy, m))
  {
    hide InDisc, Toward;
    if StaysInDisc(vx, vy, gx, gy, rx, ry) {
      assert AtInDisc(vx, vy, gx, gy, rx, ry, t);
      TimesOf(t, rx);
      TimesOf(t, ry);
      ReachesGoal(vx, gx, Times(t, rx));
    }
    if InDisc(gx, Toward(vy, gy, m)) {
      forall dt: real | dt >= 0.0 ensures AtInDisc(vx, vy, gx, gy, rx, ry, dt) {
        TimesOf(dt, rx);
        TimesOf(dt, ry);
        PathToCorner(vx, vy, gx, gy, rx, ry, t, m, dt, Times(dt, rx), Times(dt, ry));
      }
    }
  }

  lemma FirstReachesIff(vx: real, vy: real, gx: real, gy: real, rx: real, ry: real)
    requires rx > 0.0 && ry >= 0.0 && Abs(gx - vx) * ry <= Abs(gy - vy) * rx
    requires InDisc(vx, vy) && InDisc(gx, gy)
    ensures StaysInDisc(vx, vy, gx, gy, rx, ry) <==> InDisc(gx, Toward(vy, gy, Share(Abs(gx - vx), ry, rx)))
  {
    hide InDisc, Toward, StaysInDisc, Share;
    var t := CornerTime(Abs(gx - vx), Abs(gy - vy), rx, ry, Share(Abs(gx - vx), ry, rx));
    ReachesIff(vx, vy, gx, gy, rx, ry, t, Share(Abs(gx - vx), ry, rx));
  }

  lemma CornerTime(dx: real, dy: real, rx: real, ry: real, m: real) returns (t: real)
    requires rx > 0.0 && ry >= 0.0 && dx >= 0.0 && dx * ry <= dy * rx && m == Share(dx, ry, rx)
    ensures t >= 0.0 && t * rx == dx && t * ry == m <= dy
  {
    t := dx / rx;
    assert (dy - m) * rx >= 0.0;
  }

  lemma ReachesGoal(v: real, goal: real, m: real)
    requires m == Abs(goal - v)
    ensures Toward(v, goal, m) == goal
  {
  }

  lemma Swapped(vx: real, vy: real, gx: real, gy: real, rx: real, ry: real)
    ensures StaysInDisc(vx, vy, gx, gy, rx, ry) ==> StaysInDisc(vy, vx, gy, gx, ry, rx)
  {
    if StaysInDisc(vx, vy, gx, gy, rx, ry) {
      hide AtInDisc;
      forall dt: real | dt >= 0.0 ensures AtInDisc(vy, vx, gy, gx, ry, rx, dt) {
        assert AtInDisc(vx, vy, gx, gy, rx, ry, dt);
        SwappedAt(vx, vy, gx, gy, rx, ry, dt);
      }
    }
  }

  lemma SwappedAt(vx: real, vy: real, gx: real, gy: real, rx: real, ry: real, dt: real)
    requires AtInDisc(vx, vy, gx, gy, rx, ry, dt)
    ensures AtInDisc(vy, vx, gy, gx, ry, rx, dt)
  {
    hide Toward, InDisc;
    SwappedDisc(Toward(vx, gx, Times(dt, rx)), Toward(vy, gy, Times(dt, ry)));
  }

  lemma SwappedDisc(x: real, y: real)
    ensures InDisc(x, y) <==> InDisc(y, x)
  {
  }

  lemma SecondIsFirst(dx: real, dy: real, rx: real, ry: real)
    requires dx >= 0.0 && rx >= 0.0 && ry > 0.0 && !(rx > 0.0 && dx * ry <= dy * rx)
    ensures dy * rx <= dx * ry
  {
    Product(dx, ry);
    if rx == 0.0 {
      assert dy * rx == 0.0;
    }
  }

  lemma NothingMoves(vx: real, vy: real, gx: real, gy: real, rx: real, ry: real, dx: real, dy: real)
    requires dy >= 0.0 && rx >= 0.0 && ry == 0.0 && !(rx > 0.0 && dx * ry <= dy * rx) && InDisc(vx, vy)
    ensures StaysInDisc(vx, vy, gx, gy, rx, ry)
  {
    Product(dy, rx);
    assert rx == 0.0;
    forall dt: real | dt >= 0.0 ensures AtInDisc(vx, vy, gx, gy, rx, ry, dt) {
      assert Times(dt, rx) == 0.0 && Times(dt, ry) == 0.0;
    }
  }

  /** Two components on their way to their goals leave the disc on no account if and only if their corner
      lies in it. */
  lemma StaysInDiscIff(vx: real, vy: real, gx: real, gy: real, rx: real, ry: real)
    requires rx >= 0.0 && ry >= 0.0 && InDisc(vx, vy) && InDisc(gx, gy)
    ensures var c := Corner(vx, vy, gx, gy, rx, ry);
            StaysInDisc(vx, vy, gx, gy, rx, ry) <==> InDisc(c.0, c.1)
  {
    hide InDisc, Toward, StaysInDisc, Share;
    var dx, dy := Abs(gx - vx), Abs(gy - vy);
    if rx > 0.0 && dx * ry <= dy * rx {
      FirstReachesIff(vx, vy, gx, gy, rx, ry);
    } else if ry > 0.0 {
      SecondIsFirst(dx, dy, rx, ry);
      SwappedDisc(vx, vy);
      SwappedDisc(gx, gy);
      FirstReachesIff(vy, vx, gy, gx, ry, rx);
      Swapped(vx, vy, gx, gy, rx, ry);
      Swapped(vy, vx, gy, gx, ry, rx);
      SwappedDisc(Toward(vx, gx, Share(dy, rx, ry)), gy);
    } else {
      NothingMoves(vx, vy, gx, gy, rx, ry, dx, dy);
    }
  }

  // ----- The ramp.

  /** The target of a component, as far as its velocity limit allows. */
  function Goal(c: Control, i: nat): real
    requires i < |c.target|
  {
    Clip(c.target[i], c.limits.Vel(i), 0.0 - c.limits.Vel(i))
  }

  /** The rate at which the next step moves a component. */
  function Rate(c: Control, i: nat): real
    requires i < |c.target| && i < |c.ramped|
  {
    if (Goal(c, i) > c.ramped[i]) == (c.ramped[i] >= 0.0) then c.limits.Acc(i) else c.limits.Dec(i)
  }

  predicate SlowEnough(c: Control)
    requires |c.ramped| == 3
  {
    InDisc(c.ramped[0], c.ramped[1])
  }

  lemma StepIsToward(v: real, target: real, dt: real, acc: real, dec: real, maxVel: real, rate: real)
    requires dt >= 0.0 && acc >= 0.0 && dec >= 0.0 && Abs(v) <= maxVel
    requires rate == if (Clip(target, maxVel, 0.0 - maxVel) > v) == (v >= 0.0) then acc else dec
    ensures Step(v, target, dt, acc, dec, maxVel) == Toward(v, Clip(target, maxVel, 0.0 - maxVel), Times(dt, rate))
  {
    hide Step, Toward, Times, Moved;
    var up, down := Times(dt, acc), Times(dt, dec);
    TimesOf(dt, acc);
    TimesOf(dt, dec);
    Product(dt, acc);
    Product(dt, dec);
    StepIsMoved(v, target, dt, acc, dec, maxVel, up, down);
    MovedIsSlid(v, target, up, down, maxVel);
    SlidIsToward(v, Clip(target, maxVel, 0.0 - maxVel), up, down, Times(dt, rate));
  }

  lemma SlidIsToward(v: real, goal: real, up: real, down: real, m: real)
    requires up >= 0.0 && down >= 0.0 && m == if (goal > v) == (v >= 0.0) then up else down
    ensures Slid(v, goal, up, down) == Toward(v, goal, m)
  {
  }

  lemma SteppedIsToward(c: Control, i: nat, dt: real)
    requires Within(c) && dt >= 0.0 && i < 3
    ensures Stepped(c, i, dt) == Toward(c.ramped[i], Goal(c, i), Times(dt, Rate(c, i)))
  {
    hide Step, Toward, Clip, Times, Limits.Acc, Limits.Dec, Limits.Vel;
    LimitsAreValid(c.limits, i);
    StepIsToward(c.ramped[i], c.target[i], dt, c.limits.Acc(i), c.limits.Dec(i), c.limits.Vel(i), Rate(c, i));
  }

  /** Whatever steps and queries follow, the speed stays within the limit for a command. */
  ghost predicate AlwaysSlowEnough(c: Control)
    requires |c.target| == |c.ramped| == 3
  {
    forall events | Ordered(c.last, events) :: SlowEnough(RampRun(c, events))
  }

  lemma AlwaysIsStays(c: Control)
    requires Within(c) && Steady(c, 0) && Steady(c, 1)
    ensures AlwaysSlowEnough(c) <==>
              StaysInDisc(c.ramped[0], c.ramped[1], Goal(c, 0), Goal(c, 1), Rate(c, 0), Rate(c, 1))
  {
    hide InDisc, Toward, Goal, Rate, Within, SlowEnough, AtInDisc, RampRun, Ordered, Counted, Steady;
    WithinHasShape(c);
    if AlwaysSlowEnough(c) {
      forall dt: real | dt >= 0.0
        ensures AtInDisc(c.ramped[0], c.ramped[1], Goal(c, 0), Goal(c, 1), Rate(c, 0), Rate(c, 1), dt)
      {
        var events := StepsFor(c.last, dt);
        assert SlowEnough(RampRun(c, events));
        SlowIsIn(c, events, dt);
      }
    }
    if StaysInDisc(c.ramped[0], c.ramped[1], Goal(c, 0), Goal(c, 1), Rate(c, 0), Rate(c, 1)) {
      forall events | Ordered(c.last, events) ensures SlowEnough(RampRun(c, events)) {
        CountedIsPositive(c.last, events);
        var dt := Counted(c.last, events);
        assert AtInDisc(c.ramped[0], c.ramped[1], Goal(c, 0), Goal(c, 1), Rate(c, 0), Rate(c, 1), dt);
        SlowIsIn(c, events, dt);
      }
    }
  }

  /** Steps that take the time `dt` together. */
  lemma StepsFor(last: Option<real>, dt: real) returns (events: seq<Event>)
    requires dt >= 0.0
    ensures Ordered(last, events) && Counted(last, events) == dt
  {
    var start := if last.Some? then last.value else 0.0;
    events := [] + [Tick(start)] + [Tick(start + dt)];
    NothingIsOrdered(last);
    OrderedNext(last, [], Tick(start));
    CountedNext(last, [], Tick(start));
    OrderedNext(last, [] + [Tick(start)], Tick(start + dt));
    CountedNext(last, [] + [Tick(start)], Tick(start + dt));
  }

  lemma CountedNext(last: Option<real>, events: seq<Event>, e: Event)
    ensures Counted(last, events + [e]) == Counted(last, events) + Gap(LastAfter(last, events), e)
  {
    assert (events + [e])[..|events|] == events;
  }

  lemma SlowIsIn(c: Control, events: seq<Event>, dt: real)
    requires Within(c) && Steady(c, 0) && Steady(c, 1) && Ordered(c.last, events)
    requires dt == Counted(c.last, events) >= 0.0
    ensures SlowEnough(RampRun(c, events)) <==>
              AtInDisc(c.ramped[0], c.ramped[1], Goal(c, 0), Goal(c, 1), Rate(c, 0), Rate(c, 1), dt)
  {
    hide InDisc, Toward, Goal, Rate, RampRun, Within, Times, Steady, Stepped, Counted, Ordered;
    WithinHasShape(c);
    RunIsOneStep(c, events, 0);
    RunIsOneStep(c, events, 1);
    SteppedIsToward(c, 0, dt);
    SteppedIsToward(c, 1, dt);
  }

  lemma GoalInDisc(c: Control)
    requires Within(c) && InDisc(c.target[0], c.target[1])
    ensures InDisc(Goal(c, 0), Goal(c, 1)) && Rate(c, 0) >= 0.0 && Rate(c, 1) >= 0.0
  {
    hide InDisc, Limits.Acc, Limits.Dec, Limits.Vel;
    LimitsAreValid(c.limits, 0);
    LimitsAreValid(c.limits, 1);
    ClippedInDisc(c.target[0], c.target[1], Goal(c, 0), Goal(c, 1));
  }

  lemma ClippedInDisc(x: real, y: real, gx: real, gy: real)
    requires InDisc(x, y) && Between(gx, 0.0, x) && Between(gy, 0.0, y)
    ensures InDisc(gx, gy)
  {
    SquareBetween(gx, 0.0, x);
    SquareBetween(gy, 0.0, y);
    Square(x);
    Square(y);
  }

  /** Where the ramp turns on its way to the target. */
  function Turn(c: Control): (real, real)
    requires Within(c)
  {
    RatesArePositive(c);
    Corner(c.ramped[0], c.ramped[1], Goal(c, 0), Goal(c, 1), Rate(c, 0), Rate(c, 1))
  }

  lemma RatesArePositive(c: Control)
    requires Within(c)
    ensures Rate(c, 0) >= 0.0 && Rate(c, 1) >= 0.0
  {
    LimitsAreValid(c.limits, 0);
    LimitsAreValid(c.limits, 1);
  }

  /** From a velocity and with a target within the limit for a command, no run of the ramp leaves it, if and
      only if the corner lies within it at which the first component reaches its target. */
  lemma SpeedStaysIff(c: Control)
    requires Within(c) && SlowEnough(c) && InDisc(c.target[0], c.target[1]) && Steady(c, 0) && Steady(c, 1)
    ensures AlwaysSlowEnough(c) <==> InDisc(Turn(c).0, Turn(c).1)
  {
    hide InDisc, Within, Goal, Rate, Corner, StaysInDisc, AlwaysSlowEnough, Steady;
    WithinHasShape(c);
    GoalInDisc(c);
    AlwaysIsStays(c);
    StaysInDiscIff(c.ramped[0], c.ramped[1], Goal(c, 0), Goal(c, 1), Rate(c, 0), Rate(c, 1));
  }

  lemma WithinHasShape(c: Control)
    requires Within(c)
    ensures |c.target| == |c.ramped| == 3
  {
  }

  /** However long the next step takes, the speed stays within the limit for a command. */
  ghost predicate NextIsSlow(c: Control)
    requires |c.target| == |c.ramped| == 3 && c.last.Some?
  {
    forall now: real | now >= c.last.value :: SlowEnough(c.Ramped(now))
  }

  lemma NextIsIn(c: Control, now: real, dt: real)
    requires Within(c) && c.last.Some? && dt >= 0.0 && now - c.last.value == dt
    ensures SlowEnough(c.Ramped(now)) <==>
              AtInDisc(c.ramped[0], c.ramped[1], Goal(c, 0), Goal(c, 1), Rate(c, 0), Rate(c, 1), dt)
  {
    hide InDisc, Toward, Goal, Rate, Times, Step;
    SteppedIsToward(c, 0, dt);
    SteppedIsToward(c, 1, dt);
  }

  /** For a single step, whatever the rates, the corner decides as well. */
  lemma StepStaysIff(c: Control)
    requires Within(c) && c.last.Some? && SlowEnough(c) && InDisc(c.target[0], c.target[1])
    ensures NextIsSlow(c) <==> InDisc(Turn(c).0, Turn(c).1)
  {
    hide InDisc, Within, Goal, Rate, Corner, SlowEnough, AtInDisc, Control.Ramped;
    WithinHasShape(c);
    SlowIsInDisc(c);
    GoalInDisc(c);
    StaysInDiscIff(c.ramped[0], c.ramped[1], Goal(c, 0), Goal(c, 1), Rate(c, 0), Rate(c, 1));
    if NextIsSlow(c) {
      forall dt: real | dt >= 0.0
        ensures AtInDisc(c.ramped[0], c.ramped[1], Goal(c, 0), Goal(c, 1), Rate(c, 0), Rate(c, 1), dt)
      {
        assert SlowEnough(c.Ramped(c.last.value + dt));
        NextIsIn(c, c.last.value + dt, dt);
      }
    }
    if StaysInDisc(c.ramped[0], c.ramped[1], Goal(c, 0), Goal(c, 1), Rate(c, 0), Rate(c, 1)) {
      forall now: real | now >= c.last.value ensures SlowEnough(c.Ramped(now)) {
        NextIsIn(c, now, now - c.last.value);
      }
    }
  }

  lemma SlowIsInDisc(c: Control)
    requires |c.ramped| == 3
    ensures SlowEnough(c) <==> InDisc(c.ramped[0], c.ramped[1])
  {
  }

  /** With different rates for acceleration and deceleration, and a component that passes zero, the corner
      does not decide: here it lies within the limit, but two steps lead out of it. */
  lemma CornerDecidesOnlyIfSteady()
    ensures var c := Control([0.0, 0.5, 0.0], [0.48, -0.1, 0.0], Limits(1.0, 1.0, 10.0, 1.0, 1.0, 1.0), Some(0.0));
            Within(c) && SlowEnough(c) && InDisc(c.target[0], c.target[1]) && Steady(c, 0) && !Steady(c, 1) &&
            InDisc(Turn(c).0, Turn(c).1) && !SlowEnough(c.Ramped(0.1).Ramped(0.17))
  {
    hide Control.Ramped;
    var limits := Limits(1.0, 1.0, 10.0, 1.0, 1.0, 1.0);
    var c := Control([0.0, 0.5, 0.0], [0.48, -0.1, 0.0], limits, Some(0.0));
    CrossingSteps(limits);
    assert Turn(c) == (0.0, 0.38);
  }

  lemma CrossingSteps(limits: Limits)
    requires limits == Limits(1.0, 1.0, 10.0, 1.0, 1.0, 1.0)
    ensures Control([0.0, 0.5, 0.0], [0.48, -0.1, 0.0], limits, Some(0.0)).Ramped(0.1) ==
              Control([0.0, 0.5, 0.0], [0.38, 0.0, 0.0], limits, Some(0.1))
    ensures Control([0.0, 0.5, 0.0], [0.38, 0.0, 0.0], limits, Some(0.1)).Ramped(0.17) ==
              Control([0.0, 0.5, 0.0], [0.31, 0.5, 0.0], limits, Some(0.17))
  {
  }

  // ----- Runs of the driver.

  /** Until the next command, the speed of the driver stays within the limit for one. */
  ghost predicate StaysSlow(d: Driver, pi: real)
    requires d.Valid()
  {
    forall ops | NoCommands(ops) && Timely(d, pi, ops) :: SlowEnough(Run(d, pi, ops).ctl)
  }

  /** What the ramp has done in a driver since `d`: it is on its way to the target, or the command has timed
      out and it brakes. */
  ghost predicate OnTheWay(d: Driver, r: Driver, events: seq<Event>)
    requires d.Valid() && r.Valid()
  {
    r.state == Active && r.timeout == d.timeout && Within(r.ctl) &&
    ((Ordered(d.ctl.last, events) && r.ctl == RampRun(d.ctl, events)) ||
     (r.ctl.target == [0.0, 0.0, 0.0] && SlowEnough(r.ctl)))
  }

  lemma BrakingStaysSlow(c: Control, now: real)
    requires Within(c) && c.target == [0.0, 0.0, 0.0] && SlowEnough(c) && c.Elapsed(now) >= 0.0
    ensures c.Ramped(now).target == c.target && Within(c.Ramped(now)) && SlowEnough(c.Ramped(now))
  {
    hide Control.Ramped, Between, SlowEnough, Limits.Acc, Limits.Dec, Limits.Vel, Max;
    RampedTarget(c, now);
    StaysWithin(c, Tick(now));
    EventIsBounded(c, Tick(now), 0);
    EventIsBounded(c, Tick(now), 1);
    BothNoFaster(c, c.Ramped(now));
  }

  lemma BothNoFaster(c: Control, r: Control)
    requires |c.target| == |c.ramped| == |r.target| == |r.ramped| == 3 && SlowEnough(c)
    requires Between(r.ramped[0], c.ramped[0], 0.0) && Between(r.ramped[1], c.ramped[1], 0.0)
    ensures SlowEnough(r)
  {
    hide Between;
    NoFaster(r.ramped[0], c.ramped[0]);
    NoFaster(r.ramped[1], c.ramped[1]);
  }

  lemma NoFaster(next: real, v: real)
    requires Between(next, v, 0.0)
    ensures next * next <= v * v
  {
    SquareBetween(next, v, 0.0);
    Square(v);
  }

  lemma StepOnTheWay(d: Driver, r: Driver, events: seq<Event>, input: Input)
    requires d.Valid() && r.Valid() && AlwaysSlowEnough(d.ctl) && OnTheWay(d, r, events)
    requires r.ctl.Elapsed(input.now) >= 0.0
    ensures OnTheWay(d, AfterStep(r, input), events + [Tick(input.now)])
  {
    hide Within, SlowEnough, Control.Ramped, RampRun, Ordered, AllReady;
    var c := r.(stepCount := r.stepCount + 1).Checked(input.checked).ctl;
    StepKeepsWithin(r, input);
    SlowOnTheWay(d, r, events);
    if c.target == [0.0, 0.0, 0.0] {
      ChecksKeepWithin(r, input.checked);
      SameSpeed(r.ctl, c);
      BrakingStaysSlow(c, input.now);
    } else {
      RunNext(d.ctl, events, Tick(input.now));
      LastOfRun(d.ctl, events);
      OrderedNext(d.ctl.last, events, Tick(input.now));
    }
  }

  lemma SameSpeed(a: Control, b: Control)
    requires |a.ramped| == 3 && a.ramped == b.ramped && SlowEnough(a)
    ensures SlowEnough(b)
  {
  }

  lemma SlowOnTheWay(d: Driver, r: Driver, events: seq<Event>)
    requires d.Valid() && r.Valid() && AlwaysSlowEnough(d.ctl) && OnTheWay(d, r, events)
    ensures SlowEnough(r.ctl)
  {
    hide SlowEnough, Ordered, RampRun;
  }

  lemma QueryOnTheWay(d: Driver, r: Driver, events: seq<Event>, errors: seq<real>)
    requires d.Valid() && r.Valid() && OnTheWay(d, r, events)
    ensures OnTheWay(d, AfterQuery(r, errors), events) || OnTheWay(d, AfterQuery(r, errors), events + [Misaligned])
  {
    hide Within, SlowEnough, RampRun, Ordered;
    QueryKeepsWithin(r, errors);
    RunNext(d.ctl, events, Misaligned);
    if Ordered(d.ctl.last, events) {
      OrderedNext(d.ctl.last, events, Misaligned);
    }
    SlowEnoughForgets(r.ctl);
  }

  lemma SlowEnoughForgets(c: Control)
    requires |c.ramped| == 3
    ensures SlowEnough(c.(last := None)) <==> SlowEnough(c)
  {
  }

  lemma {:induction false} RunIsOnTheWay(d: Driver, pi: real, ops: seq<Op>) returns (events: seq<Event>)
    requires d.Valid() && d.state == Active && Within(d.ctl) && AlwaysSlowEnough(d.ctl)
    requires NoCommands(ops) && Timely(d, pi, ops)
    ensures OnTheWay(d, Run(d, pi, ops), events)
  {
    hide OnTheWay, AlwaysSlowEnough, Within, AfterStep, AfterQuery;
    if ops == [] {
      events := [];
      StartsOnTheWay(d);
    } else {
      var front, op := ops[..|ops| - 1], ops[|ops| - 1];
      events := RunIsOnTheWay(d, pi, front);
      if op.DoStep? {
        StepOnTheWay(d, Run(d, pi, front), events, op.input);
        events := events + [Tick(op.input.now)];
      } else {
        QueryOnTheWay(d, Run(d, pi, front), events, op.pivotErrors);
        if !OnTheWay(d, Run(d, pi, ops), events) {
          events := events + [Misaligned];
        }
      }
    }
  }

  lemma StartsOnTheWay(d: Driver)
    requires d.Valid() && d.state == Active && Within(d.ctl)
    ensures OnTheWay(d, d, [])
  {
    hide Within;
    NothingIsOrdered(d.ctl.last);
    NothingHappens(d.ctl);
  }

  /** Operations of a driver that do to its ramp what `events` say. */
  function OpsFor(events: seq<Event>, timeout: real): seq<Op> {
    if events == [] then [] else
      var e := events[|events| - 1];
      OpsFor(events[..|events| - 1], timeout) +
      [if e.Tick? then DoStep(Input(timeout, e.now, [], (i: nat, v: real) => 0.0)) else DoQuery([1.0])]
  }

  lemma {:induction false} OpsRun(d: Driver, pi: real, events: seq<Event>)
    requires d.Valid() && d.state == Active && Ordered(d.ctl.last, events)
    ensures var ops := OpsFor(events, d.timeout);
            var r := Run(d, pi, ops);
            NoCommands(ops) && Timely(d, pi, ops) && r.ctl == RampRun(d.ctl, events) && r.state == Active &&
            r.timeout == d.timeout
  {
    hide RampRun, Control.Ramped, Run, Timely;
    if events == [] {
      NothingHappens(d.ctl);
      Begins(d, pi);
    } else {
      var front, e := events[..|events| - 1], events[|events| - 1];
      OpsRun(d, pi, front);
      var ops := OpsFor(events, d.timeout);
      Append(d, pi, OpsFor(front, d.timeout), ops[|ops| - 1]);
      LastOfRun(d.ctl, front);
      RunNext(d.ctl, front, e);
      assert events == front + [e];
      if !e.Tick? {
        assert Abs([1.0][0]) > 0.25;
      }
    }
  }

  /** The driver stays within the limit until the next command if and only if its ramp does, also if the
      command times out before. */
  lemma StaysSlowIff(d: Driver, pi: real)
    requires d.Valid() && d.state == Active && Within(d.ctl)
    ensures StaysSlow(d, pi) <==> AlwaysSlowEnough(d.ctl)
  {
    hide SlowEnough, Within, Run, Timely, NoCommands, OnTheWay, Ordered, RampRun;
    if StaysSlow(d, pi) {
      forall events | Ordered(d.ctl.last, events) ensures SlowEnough(RampRun(d.ctl, events)) {
        OpsRun(d, pi, events);
      }
    }
    if AlwaysSlowEnough(d.ctl) {
      forall ops | NoCommands(ops) && Timely(d, pi, ops) ensures SlowEnough(Run(d, pi, ops).ctl) {
        var events := RunIsOnTheWay(d, pi, ops);
        SlowOnTheWay(d, Run(d, pi, ops), events);
      }
    }
  }

  /** The target is one that a command may ask for, and limits are never changed. */
  lemma {:induction false} RunKeepsDisc(d: Driver, pi: real, ops: seq<Op>)
    requires d.Valid() && InDisc(d.ctl.target[0], d.ctl.target[1])
    ensures var r := Run(d, pi, ops);
            InDisc(r.ctl.target[0], r.ctl.target[1]) && r.ctl.limits == d.ctl.limits
  {
    hide InDisc, Apply;
    if ops != [] {
      RunKeepsDisc(d, pi, ops[..|ops| - 1]);
      ApplyKeepsDisc(Run(d, pi, ops[..|ops| - 1]), pi, ops[|ops| - 1]);
    }
  }

  lemma ApplyKeepsDisc(d: Driver, pi: real, op: Op)
    requires d.Valid() && InDisc(d.ctl.target[0], d.ctl.target[1])
    ensures var r := Apply(d, pi, op);
            InDisc(r.ctl.target[0], r.ctl.target[1]) && r.ctl.limits == d.ctl.limits
  {
    hide InDisc, AllReady, Control.Ramped;
    match op
    case DoStep(input) =>
      var c := d.(stepCount := d.stepCount + 1).Checked(input.checked).ctl;
      NoSpeed();
      RampedTarget(c, input.now);
    case DoCommand(now, c) => CommandKeepsDisc(d, pi, now, c);
    case DoQuery(errors) =>
  }

  lemma NoSpeed()
    ensures InDisc(0.0, 0.0)
  {
  }

  lemma CommandKeepsDisc(d: Driver, pi: real, now: real, c: Command)
    requires d.Valid() && InDisc(d.ctl.target[0], d.ctl.target[1])
    ensures var r := AfterCommand(d, pi, now, c);
            InDisc(r.ctl.target[0], r.ctl.target[1]) && r.ctl.limits == d.ctl.limits
  {
    if c.Accepted(pi) {
      ClippedInDisc(c.velX, c.velY, Controller.Cleaned(c.velX), Controller.Cleaned(c.velY));
    }
  }

  /** From the start of the driver, after any commands, steps and queries: until the next command the speed
      stays within the limit for one, if and only if the corner on the way to the target does. */
  lemma SpeedStaysInEveryRunIff(d: Driver, pi: real, before: seq<Op>)
    requires IsFresh(d) && d.ctl.target == [0.0, 0.0, 0.0] && d.ctl.limits.maxAccLinear == d.ctl.limits.maxDecLinear
    requires Timely(d, pi, before) && Run(d, pi, before).state == Active && SlowEnough(Run(d, pi, before).ctl)
    ensures var r := Run(d, pi, before);
            Within(r.ctl) && (StaysSlow(r, pi) <==> InDisc(Turn(r.ctl).0, Turn(r.ctl).1))
  {
    hide InDisc, Within, Run, Timely, SlowEnough, StaysSlow, AlwaysSlowEnough, Turn, IsFresh;
    FreshIsWithin(d);
    WithinHasShape(d.ctl);
    var r := Run(d, pi, before);
    NoSpeed();
    RunKeepsWithin(d, pi, before);
    WithinHasShape(r.ctl);
    RunKeepsDisc(d, pi, before);
    StaysSlowIff(r, pi);
    SpeedStaysIff(r.ctl);
  }

  // ----- The limit is exceeded in a run of the driver.

  /** A step at time `t` of a driver with one drive that is ready. */
  function StepAt(t: real): Op {
    DoStep(Input(t, t, [Wheel(3, 2051, 0, 0.0)], (i: nat, v: real) => 0.0))
  }

  function FirstOps(): seq<Op> {
    [StepAt(1.0), StepAt(1.0), DoCommand(1.0, Command(0.3, 0.4, 0.0, 10.0, false)), StepAt(1.0)]
  }

  function LastOps(): seq<Op> {
    [StepAt(1.8), DoCommand(1.8, Command(0.5, 0.0, 0.0, 10.0, false)), StepAt(2.2)]
  }

  function Start(): Driver {
    Driver(Init, 0, 0.0, Velocity,
           Control([0.0, 0.0, 0.0], [0.0, 0.0, 0.0], Limits(1.0, 1.0, 0.5, 0.8, 0.5, 0.8), None), false)
  }

  lemma Append(d: Driver, pi: real, ops: seq<Op>, op: Op)
    requires d.Valid()
    ensures Run(d, pi, ops + [op]) == Apply(Run(d, pi, ops), pi, op)
    ensures Timely(d, pi, ops + [op]) <==>
              Timely(d, pi, ops) && (op.DoStep? ==> Run(d, pi, ops).ctl.Elapsed(op.input.now) >= 0.0)
  {
    assert (ops + [op])[..|ops|] == ops;
  }

  lemma Begins(d: Driver, pi: real)
    requires d.Valid()
    ensures Run(d, pi, []) == d && Timely(d, pi, [])
  {
  }

  lemma ReadyStep(d: Driver, pi: real, t: real)
    requires d.Valid() && |d.ctl.target| == |d.ctl.ramped| == 3
    ensures var c := d.(stepCount := d.stepCount + 1).Checked(t);
            Apply(d, pi, StepAt(t)) ==
              if d.state == Init then c.(state := Ready)
              else if d.state == Ready then c.(state := Active)
              else if d.state == Active then c.(ctl := c.ctl.Ramped(t))
              else c
  {
  }

  /** A driver that follows a first command has this state when it has reached its velocity. */
  lemma AfterFirst(pi: real)
    requires pi >= 0.0
    ensures Timely(Start(), pi, FirstOps())
    ensures Run(Start(), pi, FirstOps()) ==
              Driver(Active, 3, 11.0, Velocity,
                     Control([0.3, 0.4, 0.0], [0.0, 0.0, 0.0], Limits(1.0, 1.0, 0.5, 0.8, 0.5, 0.8), Some(1.0)), false)
  {
    hide Run, Timely, Apply, Control.Ramped;
    var d, ops := Start(), FirstOps();
    assert ops[..1] == [] + [ops[0]] && ops[..2] == ops[..1] + [ops[1]] && ops[..3] == ops[..2] + [ops[2]];
    assert ops == ops[..3] + [ops[3]];
    Begins(d, pi);
    Append(d, pi, [], ops[0]);
    ReadyStep(d, pi, 1.0);
    Append(d, pi, ops[..1], ops[1]);
    ReadyStep(Run(d, pi, ops[..1]), pi, 1.0);
    Append(d, pi, ops[..2], ops[2]);
    CommandGiven(Run(d, pi, ops[..2]), pi, 1.0, 0.3, 0.4);
    Append(d, pi, ops[..3], ops[3]);
    ReadyStep(Run(d, pi, ops[..3]), pi, 1.0);
    FirstRamp([0.3, 0.4, 0.0]);
  }

  lemma CommandGiven(d: Driver, pi: real, now: real, x: real, y: real)
    requires pi >= 0.0 && InDisc(x, y) && (x == 0.0 || Abs(x) > 0.1) && (y == 0.0 || Abs(y) > 0.1) && d.Valid()
    ensures Apply(d, pi, DoCommand(now, Command(x, y, 0.0, 10.0, false))) ==
              d.(ctl := d.ctl.(target := [x, y, 0.0]), onlyAlign := false, timeout := now + 10.0)
  {
  }

  lemma FirstRamp(target: seq<real>)
    requires |target| == 3
    ensures var limits := Limits(1.0, 1.0, 0.5, 0.8, 0.5, 0.8);
            Control(target, [0.0, 0.0, 0.0], limits, None).Ramped(1.0) ==
              Control(target, [0.0, 0.0, 0.0], limits, Some(1.0))
  {
  }

  lemma SecondRamp()
    ensures var limits := Limits(1.0, 1.0, 0.5, 0.8, 0.5, 0.8);
            Control([0.3, 0.4, 0.0], [0.0, 0.0, 0.0], limits, Some(1.0)).Ramped(1.8) ==
              Control([0.3, 0.4, 0.0], [0.3, 0.4, 0.0], limits, Some(1.8))
  {
  }

  lemma ThirdRamp()
    ensures var limits := Limits(1.0, 1.0, 0.5, 0.8, 0.5, 0.8);
            Control([0.5, 0.0, 0.0], [0.3, 0.4, 0.0], limits, Some(1.8)).Ramped(2.2) ==
              Control([0.5, 0.0, 0.0], [0.5, 0.2, 0.0], limits, Some(2.2))
  {
  }

  /** Two accepted commands, one after the other, take a driver from its start to a speed above the limit
      for either. */
  lemma LimitIsExceededInARun(pi: real)
    requires pi >= 0.0
    ensures IsFresh(Start()) && Timely(Start(), pi, FirstOps() + LastOps())
    ensures !SlowEnough(Run(Start(), pi, FirstOps() + LastOps()).ctl)
  {
    hide Run, Timely, Apply, Control.Ramped;
    var d, first, last := Start(), FirstOps(), LastOps();
    AfterFirst(pi);
    var one, two := first + [last[0]], first + [last[0]] + [last[1]];
    assert first + last == two + [last[2]];
    Append(d, pi, first, last[0]);
    ReadyStep(Run(d, pi, first), pi, 1.8);
    SecondRamp();
    Append(d, pi, one, last[1]);
    CommandGiven(Run(d, pi, one), pi, 1.8, 0.5, 0.0);
    Append(d, pi, two, last[2]);
    ReadyStep(Run(d, pi, two), pi, 2.2);
    ThirdRamp();
  }
}

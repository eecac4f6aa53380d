/** The platform driver: its state machine, the timeout of commands, and the setpoints it sends to the
    drives. `kin` stands for the wheel kinematics. */
module PlatformControl {
  import opened Basics
  import opened VelocityRamp

  datatype DriverType = Velocity | CompliantWeak | CompliantModerate | CompliantStrong

  datatype State = Undefined | Init | Ready | Active | Error

  /** What a drive reports. */
  datatype Wheel = Wheel(status1: nat, status2: nat, sensorTs: nat, encoderPivot: real)
  {
    predicate Enabled() {
      status1 % 2 == 1 && status1 / 2 % 2 == 1
    }

    predicate HasError() {
      (status1 != 3 && status1 != 63 && status1 != 60) || status2 != 2051
    }
  }

  /** What is sent to a drive. */
  datatype Output = Output(velocityMode: bool, limit: real, setpoint1: real, setpoint2: real, timestamp: nat)

  const CURRENT_STOP: real := 1.0
  const CURRENT_DRIVE: real := 20.0
  const SETPOINT_MIN: real := 0.01
  const SETPOINT_MAX: real := 35.0
  const MAX_LINEAR: real := 0.5
  const DELAY: nat := 100000

  /** Ramped velocity, drive, pivot angle and whether to align only, to right and left wheel velocity. */
  type Kinematics = (seq<real>, nat, real, bool) -> (real, real)

  /** One step: the time when the timeout is checked, the time of the ramp, what the drives report, and
      what the torque controller of each motor answers to a target velocity. */
  datatype Input = Input(checked: real, now: real, wheels: seq<Wheel>, torque: (nat, real) -> real)

  datatype Driver = Driver(state: State, stepCount: nat, timeout: real, kind: DriverType, ctl: Control, onlyAlign: bool)
  {
    ghost predicate Valid() {
      |ctl.target| == |ctl.ramped| == 3
    }

    /** A timed-out command is replaced by standing still. */
    function Checked(checked: real): Driver {
      if timeout < checked then this.(ctl := ctl.(target := [0.0, 0.0, 0.0]), onlyAlign := false) else this
    }
  }

  predicate AllReady(wheels: seq<Wheel>) {
    forall w | w in wheels :: w.Enabled() && !w.HasError()
  }

  // ----- Setpoints.

  function WheelTarget(c: Control, kin: Kinematics, i: nat, pivot: real, onlyAlign: bool): (real, real)
    requires |c.ramped| == 3
  {
    if c.Standing() then (0.0, 0.0) else kin(c.ramped, i, pivot, onlyAlign)
  }

  function Setpoint(kind: DriverType, target: real, torque: real): (r: real)
    ensures Abs(r) <= SETPOINT_MAX
    ensures kind == Velocity ==> r == 0.0 || Abs(r) >= SETPOINT_MIN
    ensures kind == Velocity && SETPOINT_MIN <= Abs(target) <= SETPOINT_MAX ==> r == target
  {
    var s := if kind == Velocity then (if Abs(target) < SETPOINT_MIN then 0.0 else target) else torque;
    Clip(s, SETPOINT_MAX, 0.0 - SETPOINT_MAX)
  }

  function ControlOutput(d: Driver, kin: Kinematics, input: Input, i: nat): Output
    requires |d.ctl.ramped| == 3 && i < |input.wheels|
  {
    var (right, left) := WheelTarget(d.ctl, kin, i, input.wheels[i].encoderPivot, d.onlyAlign);
    var t1, t2 := 0.0 - right, left;
    Output(d.kind == Velocity, CURRENT_DRIVE, Setpoint(d.kind, t1, input.torque(2 * i, t1)),
           Setpoint(d.kind, t2, input.torque(2 * i + 1, t2)), input.wheels[0].sensorTs + DELAY)
  }

  function StopOutput(input: Input): Output
    requires input.wheels != []
  {
    Output(true, CURRENT_STOP, 0.0, 0.0, input.wheels[0].sensorTs + DELAY)
  }

  /** What a step sends to drive `i`. */
  function Sent(d: Driver, kin: Kinematics, input: Input, i: nat): Output
    requires d.Valid() && i < |input.wheels|
  {
    if d.state == Active then ControlOutput(AfterStep(d, input), kin, input, i) else StopOutput(input)
  }

  // ----- What a motor and a drive get.

  /** In velocity mode a motor gets its target, but nothing if that is tiny, and otherwise the torque, neither
      more than 35 either way. */
  predicate MotorGets(setpoint: real, velocity: bool, target: real, torque: real) {
    var wanted := if velocity then target else torque;
    (-35.0 <= wanted <= 35.0 && (velocity ==> Abs(target) >= 0.01) ==> setpoint == wanted) &&
    (velocity && Abs(target) < 0.01 ==> setpoint == 0.0) &&
    (wanted > 35.0 ==> setpoint == 35.0) && (wanted < -35.0 ==> setpoint == -35.0)
  }

  /** Motor 1 of drive `i` turns its wheel, the right one, the other way round; motor 2 turns the left one.
      `sensorTs` is the time stamp of the first drive. */
  predicate DriveGets(o: Output, velocity: bool, right: real, left: real, torque: (nat, real) -> real, i: nat,
                      sensorTs: nat)
  {
    o.velocityMode == velocity && o.limit == 20.0 && o.timestamp == sensorTs + 100000 &&
    MotorGets(o.setpoint1, velocity, 0.0 - right, torque(2 * i, 0.0 - right)) &&
    MotorGets(o.setpoint2, velocity, left, torque(2 * i + 1, left))
  }

  lemma ActiveDriveGets(d: Driver, kin: Kinematics, input: Input, i: nat)
    requires |d.ctl.ramped| == 3 && i < |input.wheels|
    ensures var standing := d.ctl.ramped == [0.0, 0.0, 0.0];
            var (right, left) :=
              if standing then (0.0, 0.0) else kin(d.ctl.ramped, i, input.wheels[i].encoderPivot, d.onlyAlign);
            DriveGets(ControlOutput(d, kin, input, i), d.kind == Velocity, right, left, input.torque, i,
                      input.wheels[0].sensorTs)
  {
    assert d.ctl.Standing() <==> d.ctl.ramped == [0.0, 0.0, 0.0];
  }

  /** Enabled and free of errors means one of two statuses: the code of a disabled wheel is no error, but it is not
      enabled either. */
  lemma ReadyStatus(w: Wheel)
    ensures w.Enabled() && !w.HasError() <==> (w.status1 == 3 || w.status1 == 63) && w.status2 == 2051
  {
  }

  // ----- Steps.

  function AfterStep(d0: Driver, input: Input): (d: Driver)
    requires d0.Valid()
    ensures d.Valid()
  {
    var d := d0.(stepCount := d0.stepCount + 1).Checked(input.checked);
    match d.state
    case Init => if AllReady(input.wheels) then d.(state := Ready) else d
    case Ready => d.(state := Active)
    case Active => d.(ctl := d.ctl.Ramped(input.now))
    case Error => d
    case Undefined => d
  }

  /** What a step leaves alone, and what it changes. */
  lemma StepChanges(d: Driver, input: Input)
    requires d.Valid()
    ensures var r := AfterStep(d, input);
            r.ctl.target == (if d.timeout < input.checked then [0.0, 0.0, 0.0] else d.ctl.target) &&
            (r.onlyAlign <==> d.onlyAlign && d.timeout >= input.checked) &&
            r.state == (match d.state
                        case Init => if AllReady(input.wheels) then Ready else Init
                        case Ready => Active
                        case _ => d.state) &&
            (d.state != Active ==> r.ctl.ramped == d.ctl.ramped && r.ctl.last == d.ctl.last) &&
            r.stepCount == d.stepCount + 1 && r.timeout == d.timeout && r.kind == d.kind
  {
    hide AllReady;
  }

  /** The step reports failure: the wheels do not become ready. */
  predicate GivesUp(d: Driver, input: Input) {
    d.state == Init && d.stepCount >= 500 && !AllReady(input.wheels)
  }

  /** A new command, and what the driver refuses. */
  datatype Command = Command(velX: real, velY: real, velA: real, duration: real, onlyAlign: bool)
  {
    predicate Accepted(pi: real) {
      velX * velX + velY * velY <= MAX_LINEAR * MAX_LINEAR && Abs(velA) <= pi / 4.0 && duration >= 0.0
    }
  }

  function AfterCommand(d: Driver, pi: real, now: real, c: Command): Driver {
    if c.Accepted(pi) then
      d.(ctl := d.ctl.(target := [Controller.Cleaned(c.velX), Controller.Cleaned(c.velY), Controller.Cleaned(c.velA)]),
         onlyAlign := c.onlyAlign, timeout := now + c.duration)
    else d
  }

  function AfterQuery(d: Driver, pivotErrors: seq<real>): Driver {
    if forall e | e in pivotErrors :: Abs(e) <= 0.25 then d else d.(ctl := d.ctl.(last := None))
  }

  /** Tiny components of a command count as zero. */
  predicate TargetIs(target: seq<real>, x: real, y: real, a: real) {
    |target| == 3 && ComponentIs(target[0], x) && ComponentIs(target[1], y) && ComponentIs(target[2], a)
  }

  predicate ComponentIs(v: real, asked: real) {
    if -0.0000001 < asked < 0.0000001 then v == 0.0 else v == asked
  }

  class PlatformDriver {
    const pi: real
    const numWheels: nat
    const vpc: Controller
    const outputs: array<Output>
    var state: State
    var stepCount: nat
    var timeout: real
    var driverType: DriverType

    ghost predicate Valid()
      reads this
    {
      vpc.Valid() && outputs.Length == numWheels > 0
    }

    ghost function View(): (d: Driver)
      requires Valid()
      reads this, vpc, vpc.targetVel, vpc.rampedVel
      ensures d.Valid()
    {
      Driver(state, stepCount, timeout, driverType, vpc.View(), vpc.onlyAlignDrives)
    }

    constructor (pi: real, numWheels: nat, driverType: DriverType)
      requires numWheels > 0
      ensures Valid() && this.pi == pi && this.numWheels == numWheels
      ensures fresh(vpc) && fresh(vpc.targetVel) && fresh(vpc.rampedVel) && fresh(outputs)
      ensures View().state == Init && View().stepCount == 0 && View().timeout == 0.0 && View().kind == driverType
      ensures View().ctl == Control([0.0, 0.0, 0.0], [0.0, 0.0, 0.0], Limits(1.0, 1.0, 0.5, 0.8, 0.5, 0.8), None)
      ensures driverType == Velocity ==> IsFresh(View())
    {
      this.pi, this.numWheels, this.driverType := pi, numWheels, driverType;
      state, stepCount, timeout := Init, 0, 0.0;
      vpc := new Controller();
      outputs := new Output[numWheels](_ => Output(true, CURRENT_STOP, 0.0, 0.0, 0));
    }

    /** Sets zero setpoints for all drives. */
    method DoStop(input: Input)
      requires Valid() && |input.wheels| == numWheels
      modifies outputs
      ensures forall i | 0 <= i < numWheels :: outputs[i] == StopOutput(input)
    {
      var data := Output(true, CURRENT_STOP, 0.0, 0.0, input.wheels[0].sensorTs + DELAY);
      for i := 0 to numWheels
        invariant data == StopOutput(input) && forall j | 0 <= j < i :: outputs[j] == data
      {
        data := data.(velocityMode := true);
        outputs[i] := data;
      }
    }

    method CalculateWheelTargetVelocity(kin: Kinematics, i: nat, pivot: real) returns (right: real, left: real)
      requires Valid()
      ensures (right, left) == WheelTarget(vpc.View(), kin, i, pivot, vpc.onlyAlignDrives)
    {
      if vpc.rampedVel[0] == 0.0 && vpc.rampedVel[1] == 0.0 && vpc.rampedVel[2] == 0.0 {
        return 0.0, 0.0;
      }
      var r := kin(vpc.rampedVel[..], i, pivot, vpc.onlyAlignDrives);
      return r.0, r.1;
    }

    /** The last corrections to a setpoint. */
    method Corrected(target: real, torque: real) returns (setpoint: real)
      ensures setpoint == Setpoint(driverType, target, torque)
    {
      setpoint := if driverType == Velocity then target else torque;
      if driverType == Velocity {
        if Abs(setpoint) < SETPOINT_MIN {
          setpoint := 0.0;
        }
      }
      setpoint := Clip(setpoint, SETPOINT_MAX, 0.0 - SETPOINT_MAX);
    }

    /** Sets the setpoints of all drives for the ramped velocity. */
    method DoControl(kin: Kinematics, input: Input)
      requires Valid() && |input.wheels| == numWheels
      modifies vpc`timeLastRamping, vpc.rampedVel, outputs
      ensures View() == old(View()).(ctl := old(View()).ctl.Ramped(input.now))
      ensures forall i | 0 <= i < numWheels :: outputs[i] == ControlOutput(View(), kin, input, i)
    {
      hide Setpoint, WheelTarget, Control.Ramped;
      var data := Output(true, CURRENT_DRIVE, 0.0, 0.0, input.wheels[0].sensorTs + DELAY);
      vpc.CalculatePlatformRampedVelocities(input.now);
      for i := 0 to numWheels
        invariant data.limit == CURRENT_DRIVE && data.timestamp == input.wheels[0].sensorTs + DELAY
        invariant forall j | 0 <= j < i :: outputs[j] == ControlOutput(View(), kin, input, j)
        invariant View() == old(View()).(ctl := old(View()).ctl.Ramped(input.now))
      {
        data := data.(velocityMode := driverType == Velocity);
        var target1, target2 := CalculateWheelTargetVelocity(kin, i, input.wheels[i].encoderPivot);
        target1 := 0.0 - target1;
        var setpoint1 := Corrected(target1, input.torque(i * 2, target1));
        var setpoint2 := Corrected(target2, input.torque(i * 2 + 1, target2));
        data := data.(setpoint1 := setpoint1, setpoint2 := setpoint2);
        outputs[i] := data;
      }
    }

    method StepInit(input: Input) returns (ok: bool)
      requires Valid() && |input.wheels| == numWheels && state == Init
      modifies this`state, outputs
      ensures state == if AllReady(input.wheels) then Ready else Init
      ensures ok <==> !(stepCount > 500 && !AllReady(input.wheels))
      ensures forall i | 0 <= i < numWheels :: outputs[i] == StopOutput(input)
    {
      DoStop(input);
      var ready := true;
      for i := 0 to numWheels
        invariant ready <==> AllReady(input.wheels[..i])
      {
        assert input.wheels[..i + 1] == input.wheels[..i] + [input.wheels[i]];
        if !input.wheels[i].Enabled() || input.wheels[i].HasError() {
          ready := false;
        }
      }
      assert input.wheels[..numWheels] == input.wheels;
      if ready {
        state := Ready;
      }
      ok := !(stepCount > 500 && !ready);
    }

    method Step(kin: Kinematics, input: Input) returns (ok: bool)
      requires Valid() && |input.wheels| == numWheels
      modifies this, vpc, vpc.targetVel, vpc.rampedVel, outputs
      ensures Valid() && View() == AfterStep(old(View()), input)
      ensures ok <==> !(old(state) == Init && old(stepCount) >= 500 &&
                        exists w | w in input.wheels :: !(w.Enabled() && !w.HasError()))
      ensures forall i | 0 <= i < numWheels :: outputs[i] == Sent(old(View()), kin, input, i)
      ensures old(state) == Active ==>
                forall i | 0 <= i < numWheels ::
                  var ramped := vpc.View().ramped;
                  var (right, left) :=
                    if ramped == [0.0, 0.0, 0.0] then (0.0, 0.0)
                    else kin(ramped, i, input.wheels[i].encoderPivot, vpc.onlyAlignDrives);
                  DriveGets(outputs[i], driverType == Velocity, right, left, input.torque, i, input.wheels[0].sensorTs)
      ensures old(state) != Active ==>
                forall i | 0 <= i < numWheels ::
                  outputs[i] == Output(true, 1.0, 0.0, 0.0, input.wheels[0].sensorTs + 100000)
      ensures if old(timeout) < input.checked
              then vpc.View().target == [0.0, 0.0, 0.0] && !vpc.onlyAlignDrives
              else vpc.View().target == old(vpc.View().target) && vpc.onlyAlignDrives == old(vpc.onlyAlignDrives)
      ensures match old(state)
              case Init =>
                state == (if forall w | w in input.wheels :: w.Enabled() && !w.HasError() then Ready else Init)
              case Ready => state == Active
              case _ => state == old(state)
      ensures old(state) != Active ==>
                vpc.View().ramped == old(vpc.View().ramped) && vpc.timeLastRamping == old(vpc.timeLastRamping)
      ensures stepCount == old(stepCount) + 1 && timeout == old(timeout) && driverType == old(driverType)
    {
      hide ControlOutput, Control.Ramped, DriveGets, AfterStep;
      ok := MakeStep(kin, input);
      StepChanges(old(View()), input);
      if old(state) == Active {
        forall i | 0 <= i < numWheels {
          ActiveDriveGets(View(), kin, input, i);
        }
      }
    }

    method MakeStep(kin: Kinematics, input: Input) returns (ok: bool)
      requires Valid() && |input.wheels| == numWheels
      modifies this, vpc, vpc.targetVel, vpc.rampedVel, outputs
      ensures Valid() && View() == AfterStep(old(View()), input)
      ensures ok <==> !GivesUp(old(View()), input)
      ensures forall i | 0 <= i < numWheels :: outputs[i] == Sent(old(View()), kin, input, i)
    {
      hide ControlOutput, Control.Ramped, AllReady;
      stepCount := stepCount + 1;
      if timeout < input.checked {
        vpc.SetPlatformVelocityTarget(0.0, 0.0, 0.0, false);
      }
      assert View() == old(View()).(stepCount := old(stepCount) + 1).Checked(input.checked);
      ok := true;
      if state == Init {
        ok := StepInit(input);
      } else if state == Ready {
        DoStop(input);
        state := Active;
      } else if state == Active {
        DoControl(kin, input);
      } else {
        DoStop(input);
      }
    }

    method SetPlatformVelocityTarget(now: real, c: Command) returns (accepted: bool)
      requires Valid()
      modifies this`timeout, vpc`onlyAlignDrives, vpc.targetVel
      ensures Valid() && View() == AfterCommand(old(View()), pi, now, c)
      ensures accepted <==> c.velX * c.velX + c.velY * c.velY <= 0.25 && Abs(c.velA) <= pi / 4.0 && c.duration >= 0.0
      ensures accepted ==> timeout == now + c.duration && TargetIs(vpc.View().target, c.velX, c.velY, c.velA) &&
                           vpc.onlyAlignDrives == c.onlyAlign
      ensures !accepted ==> View() == old(View())
    {
      if c.velX * c.velX + c.velY * c.velY > MAX_LINEAR * MAX_LINEAR {
        return false;
      }
      if Abs(c.velA) > pi / 4.0 {
        return false;
      }
      if c.duration < 0.0 {
        return false;
      }
      vpc.SetPlatformVelocityTarget(c.velX, c.velY, c.velA, c.onlyAlign);
      timeout := now + c.duration;
      return true;
    }

    method AreDrivesAligned(pivotErrors: seq<real>) returns (aligned: bool)
      requires Valid()
      modifies vpc`timeLastRamping
      ensures Valid() && View() == AfterQuery(old(View()), pivotErrors)
      ensures aligned <==> forall e | e in pivotErrors :: Abs(e) <= 0.25
      ensures aligned ==> View() == old(View())
      ensures !aligned ==> vpc.timeLastRamping == None
    {
      aligned := vpc.AreDrivesAligned(pivotErrors, 0.25);
    }
  }

  // ----- Runs.

  datatype Op = DoStep(input: Input) | DoCommand(now: real, command: Command) | DoQuery(pivotErrors: seq<real>)

  function Apply(d: Driver, pi: real, op: Op): (r: Driver)
    requires d.Valid()
    ensures r.Valid()
  {
    match op
    case DoStep(input) => AfterStep(d, input)
    case DoCommand(now, c) => AfterCommand(d, pi, now, c)
    case DoQuery(errors) => AfterQuery(d, errors)
  }

  function Run(d: Driver, pi: real, ops: seq<Op>): (r: Driver)
    requires d.Valid()
    ensures r.Valid()
  {
    if ops == [] then d else Apply(Run(d, pi, ops[..|ops| - 1]), pi, ops[|ops| - 1])
  }

  // ----- The state machine.

  ghost predicate HadReadyWheels(ops: seq<Op>) {
    exists op | op in ops :: op.DoStep? && AllReady(op.input.wheels)
  }

  function Steps(ops: seq<Op>): nat {
    if ops == [] then 0 else Steps(ops[..|ops| - 1]) + if ops[|ops| - 1].DoStep? then 1 else 0
  }

  /** A driver that starts in INIT becomes active only after two steps, in one of which all wheels were
      ready, and is never in another state than INIT, READY or ACTIVE. */
  lemma {:induction false} ActiveNeedsReadyWheels(d: Driver, pi: real, ops: seq<Op>)
    requires d.Valid() && d.state == Init
    ensures var r := Run(d, pi, ops);
            (r.state == Init || (HadReadyWheels(ops) && Steps(ops) >= if r.state == Ready then 1 else 2)) &&
            (r.state == Init || r.state == Ready || r.state == Active)
  {
    if ops != [] {
      var front, op := ops[..|ops| - 1], ops[|ops| - 1];
      ActiveNeedsReadyWheels(d, pi, front);
      assert op in ops && forall o | o in front :: o in ops;
    }
  }

  /** Once active, always active: nothing ever leads to the error state. */
  lemma {:induction false} StaysActive(d: Driver, pi: real, ops: seq<Op>)
    requires d.Valid() && d.state == Active
    ensures Run(d, pi, ops).state == Active
  {
    if ops != [] {
      StaysActive(d, pi, ops[..|ops| - 1]);
    }
  }

  /** Before it is active a driver only sends zero setpoints; afterwards no setpoint is too large, and in
      velocity mode none is tiny without being zero. */
  lemma SetpointsAreSafe(d: Driver, kin: Kinematics, input: Input, i: nat)
    requires d.Valid() && i < |input.wheels|
    ensures var o := Sent(d, kin, input, i);
            Abs(o.setpoint1) <= SETPOINT_MAX && Abs(o.setpoint2) <= SETPOINT_MAX &&
            (d.state != Active ==> o.setpoint1 == o.setpoint2 == 0.0 && o.velocityMode && o.limit == CURRENT_STOP) &&
            (o.velocityMode ==> (o.setpoint1 == 0.0 || Abs(o.setpoint1) >= SETPOINT_MIN) &&
                                (o.setpoint2 == 0.0 || Abs(o.setpoint2) >= SETPOINT_MIN))
  {
    hide WheelTarget, AfterStep, Clip;
  }

  // ----- Speed.

  function MaxSpeed(pi: real, c: nat): real {
    if c < 2 then MAX_LINEAR else pi / 4.0
  }

  /** Neither the target nor the ramped velocity is faster than commands may ask for. */
  ghost predicate SpeedKept(c: Control, pi: real) {
    c.Valid() && forall i | 0 <= i < 3 :: Abs(c.target[i]) <= MaxSpeed(pi, i) && Abs(c.ramped[i]) <= MaxSpeed(pi, i)
  }

  /** The clock never goes back between steps. */
  ghost predicate Timely(d: Driver, pi: real, ops: seq<Op>)
    requires d.Valid()
  {
    ops != [] ==>
      var front, op := ops[..|ops| - 1], ops[|ops| - 1];
      Timely(d, pi, front) && (op.DoStep? ==> Run(d, pi, front).ctl.Elapsed(op.input.now) >= 0.0)
  }

  lemma StepIsNoFaster(v: real, target: real, dt: real, acc: real, dec: real, maxVel: real)
    requires dt >= 0.0 && acc >= 0.0 && dec >= 0.0 && maxVel >= 0.0
    ensures Abs(VelocityRamp.Step(v, target, dt, acc, dec, maxVel)) <= Max(Abs(v), Abs(target))
  {
    hide Ramp;
    RampIsBounded(v, target, dt, acc, dec);
  }

  lemma RampKeepsSpeed(c: Control, pi: real, now: real)
    requires SpeedKept(c, pi) && c.Elapsed(now) >= 0.0
    ensures SpeedKept(c.Ramped(now), pi)
  {
    hide VelocityRamp.Step, Limits.Acc, Limits.Dec, Limits.Vel, Abs;
    forall i | 0 <= i < 3 ensures Abs(c.Ramped(now).ramped[i]) <= MaxSpeed(pi, i) {
      LimitsAreValid(c.limits, i);
      StepIsNoFaster(c.ramped[i], c.target[i], c.Elapsed(now), c.limits.Acc(i), c.limits.Dec(i), c.limits.Vel(i));
    }
  }

  lemma LargerSquare(x: real, r: real)
    requires r >= 0.0 && Abs(x) > r
    ensures x * x > r * r
  {
    var a := Abs(x);
    assert a * a == x * x;
    assert a * (a - r) > 0.0 && r * (a - r) >= 0.0;
    assert a * (a - r) == a * a - a * r;
    assert r * (a - r) == r * a - r * r;
  }

  lemma InsideDisc(x: real, y: real, r: real)
    requires x * x + y * y <= r * r && r >= 0.0
    ensures Abs(x) <= r && Abs(y) <= r
  {
    assert x * x >= 0.0 && y * y >= 0.0;
    if Abs(x) > r {
      LargerSquare(x, r);
    }
    if Abs(y) > r {
      LargerSquare(y, r);
    }
  }

  lemma CommandKeepsSpeed(d: Driver, pi: real, now: real, c: Command)
    requires d.Valid() && SpeedKept(d.ctl, pi) && pi >= 0.0
    ensures SpeedKept(AfterCommand(d, pi, now, c).ctl, pi)
  {
    if c.Accepted(pi) {
      InsideDisc(c.velX, c.velY, MAX_LINEAR);
    }
  }

  lemma CheckKeepsSpeed(d: Driver, pi: real, checked: real)
    requires SpeedKept(d.ctl, pi) && pi >= 0.0
    ensures SpeedKept(d.Checked(checked).ctl, pi)
  {
  }

  lemma ApplyKeepsSpeed(d: Driver, pi: real, op: Op)
    requires d.Valid() && SpeedKept(d.ctl, pi) && pi >= 0.0
    requires op.DoStep? ==> d.ctl.Elapsed(op.input.now) >= 0.0
    ensures SpeedKept(Apply(d, pi, op).ctl, pi)
  {
    hide SpeedKept, AllReady, Control.Ramped;
    match op
    case DoStep(input) =>
      var next := d.(stepCount := d.stepCount + 1);
      CheckKeepsSpeed(next, pi, input.checked);
      RampKeepsSpeed(next.Checked(input.checked).ctl, pi, input.now);
    case DoCommand(now, c) => CommandKeepsSpeed(d, pi, now, c);
    case DoQuery(errors) => QueryKeepsSpeed(d, pi, errors);
  }

  lemma QueryKeepsSpeed(d: Driver, pi: real, errors: seq<real>)
    requires d.Valid() && SpeedKept(d.ctl, pi)
    ensures SpeedKept(AfterQuery(d, errors).ctl, pi)
  {
  }

  /** Over every run, each velocity component stays within what a command may ask for. */
  lemma {:induction false} SpeedIsKept(d: Driver, pi: real, ops: seq<Op>)
    requires d.Valid() && SpeedKept(d.ctl, pi) && pi >= 0.0 && Timely(d, pi, ops)
    ensures SpeedKept(Run(d, pi, ops).ctl, pi)
  {
    hide SpeedKept, Apply;
    if ops != [] {
      SpeedIsKept(d, pi, ops[..|ops| - 1]);
      ApplyKeepsSpeed(Run(d, pi, ops[..|ops| - 1]), pi, ops[|ops| - 1]);
    }
  }

  /** Only each component, though: between two accepted targets the speed may exceed the limit for a
      single command. */
  lemma SpeedMayExceedLimitInBetween()
    ensures var limits := Limits(1.0, 1.0, 0.5, 0.8, 0.5, 0.8);
            var c := Control([0.5, 0.0, 0.0], [0.3, 0.4, 0.0], limits, Some(0.0)).Ramped(0.4);
            c.ramped[0] * c.ramped[0] + c.ramped[1] * c.ramped[1] > MAX_LINEAR * MAX_LINEAR
  {
  }

  // ----- Stopping after a timeout.

  /** No commands, and every step finds that the last one has timed out. */
  ghost predicate TimedOut(timeout: real, ops: seq<Op>) {
    forall k | 0 <= k < |ops| :: !ops[k].DoCommand? && (ops[k].DoStep? ==> timeout < ops[k].input.checked)
  }

  /** What the operations mean to the ramp of an active driver. */
  function EventsOf(ops: seq<Op>): seq<Event> {
    if ops == [] then [] else
      var front := EventsOf(ops[..|ops| - 1]);
      match ops[|ops| - 1]
      case DoStep(input) => front + [Tick(input.now)]
      case DoCommand(_, _) => front
      case DoQuery(errors) => if forall e | e in errors :: Abs(e) <= 0.25 then front else front + [Misaligned]
  }

  /** The controller of a driver whose target is zero. */
  function Halted(d: Driver): Control {
    d.ctl.(target := [0.0, 0.0, 0.0])
  }

  lemma RunNext(c: Control, events: seq<Event>, e: Event)
    requires |c.target| == |c.ramped| == 3
    ensures RampRun(c, events + [e]) == After(RampRun(c, events), e)
  {
    assert (events + [e])[..|events|] == events;
  }

  lemma TimedOutOp(d: Driver, pi: real, op: Op)
    requires d.Valid() && d.state == Active && TimedOut(d.timeout, [op])
    ensures var r := Apply(d, pi, op);
            r.state == Active && r.timeout == d.timeout && r.kind == d.kind &&
            (op.DoStep? ==> r.ctl == Halted(d).Ramped(op.input.now)) &&
            (op.DoQuery? ==> r == AfterQuery(d, op.pivotErrors))
  {
    hide Control.Ramped;
    assert [op][0] == op;
  }

  /** After a timeout the driver runs the ramp with target zero. */
  lemma {:induction false} TimedOutRun(d: Driver, pi: real, ops: seq<Op>)
    requires d.Valid() && d.state == Active && TimedOut(d.timeout, ops)
    ensures var r := Run(d, pi, ops);
            r.state == Active && r.timeout == d.timeout && r.kind == d.kind &&
            Halted(r) == RampRun(Halted(d), EventsOf(ops)) &&
            (Steps(ops) > 0 ==> r.ctl.target == [0.0, 0.0, 0.0])
  {
    hide Apply, Control.Ramped, RampRun;
    if ops == [] {
      NothingHappens(Halted(d));
    } else {
      var front, op := ops[..|ops| - 1], ops[|ops| - 1];
      TimedOutRun(d, pi, front);
      var r := Run(d, pi, front);
      assert TimedOut(d.timeout, [op]);
      TimedOutOp(r, pi, op);
      RampedKeepsTarget(Halted(r), op);
      if op.DoStep? {
        RunNext(Halted(d), EventsOf(front), Tick(op.input.now));
      } else {
        RunNext(Halted(d), EventsOf(front), Misaligned);
      }
    }
  }

  lemma NothingHappens(c: Control)
    requires |c.target| == |c.ramped| == 3
    ensures RampRun(c, []) == c
  {
  }

  lemma RampedKeepsTarget(c: Control, op: Op)
    requires |c.target| == |c.ramped| == 3
    ensures op.DoStep? ==> c.Ramped(op.input.now).target == c.target
  {
  }

  /** After a timeout, the platform stands if and only if the time counted since is long enough for every
      component to brake. */
  lemma StandsAfterTimeoutIff(d: Driver, pi: real, ops: seq<Op>)
    requires d.Valid() && d.state == Active && TimedOut(d.timeout, ops)
    requires Within(d.ctl) && Ordered(d.ctl.last, EventsOf(ops))
    ensures Run(d, pi, ops).ctl.Standing() <==>
              forall c | 0 <= c < 3 :: Abs(d.ctl.ramped[c]) <= Counted(d.ctl.last, EventsOf(ops)) * d.ctl.limits.Dec(c)
  {
    hide Run, RampRun, EventsOf, Counted, Ordered, TimedOut, Abs, Limits.Dec, Limits.Vel;
    TimedOutRun(d, pi, ops);
    HaltedIsWithin(d);
    RunStandsIff(Halted(d), EventsOf(ops));
  }

  lemma HaltedIsWithin(d: Driver)
    requires Within(d.ctl)
    ensures Within(Halted(d))
  {
  }

  /** Standing with a timed-out command sends zero setpoints. */
  lemma StandingSendsZero(d: Driver, kin: Kinematics, input: Input, i: nat)
    requires d.Valid() && d.state == Active && d.kind == Velocity && i < |input.wheels|
    requires AfterStep(d, input).ctl.Standing()
    ensures Sent(d, kin, input, i).setpoint1 == Sent(d, kin, input, i).setpoint2 == 0.0
  {
    hide Control.Ramped, Control.Standing;
  }

  /** Once the time counted since a timeout reaches speed over deceleration for every component, every
      step sends zero setpoints to every drive. */
  lemma StopsAfterTimeout(d: Driver, pi: real, kin: Kinematics, ops: seq<Op>, input: Input, i: nat)
    requires d.Valid() && d.state == Active && d.kind == Velocity && i < |input.wheels|
    requires TimedOut(d.timeout, ops + [DoStep(input)])
    requires Within(d.ctl) && Ordered(d.ctl.last, EventsOf(ops + [DoStep(input)]))
    requires forall c | 0 <= c < 3 ::
               Abs(d.ctl.ramped[c]) <= Counted(d.ctl.last, EventsOf(ops + [DoStep(input)])) * d.ctl.limits.Dec(c)
    ensures var o := Sent(Run(d, pi, ops), kin, input, i);
            o.setpoint1 == o.setpoint2 == 0.0
  {
    hide EventsOf, Counted, Ordered, Abs, Limits.Dec, Limits.Vel, Sent, AfterStep, Control.Standing, Within;
    var all := ops + [DoStep(input)];
    assert all[..|ops|] == ops;
    StandsAfterTimeoutIff(d, pi, all);
    forall k | 0 <= k < |ops| ensures ops[k] == all[k] {
    }
    TimedOutRun(d, pi, ops);
    assert Run(d, pi, all) == AfterStep(Run(d, pi, ops), input);
    StandingSendsZero(Run(d, pi, ops), kin, input, i);
  }

  /** The counted time never shrinks, so a platform that has stopped stays so. */
  lemma {:induction false} CountedGrows(last: Option<real>, events: seq<Event>, n: nat)
    requires Ordered(last, events) && n <= |events|
    ensures Counted(last, events[..n]) <= Counted(last, events)
    decreases |events|
  {
    if n < |events| {
      var front := events[..|events| - 1];
      CountedGrows(last, front, n);
      assert front[..n] == events[..n];
    } else {
      assert events[..n] == events;
    }
  }

  /** With steps only, the counted time is the time since the last step before. */
  lemma {:induction false} StepsAreTicks(ops: seq<Op>)
    requires forall k | 0 <= k < |ops| :: ops[k].DoStep?
    ensures |EventsOf(ops)| == |ops| && forall k | 0 <= k < |ops| :: EventsOf(ops)[k] == Tick(ops[k].input.now)
  {
    if ops != [] {
      StepsAreTicks(ops[..|ops| - 1]);
    }
  }

  lemma StepsCountAllTime(start: real, ops: seq<Op>)
    requires ops != [] && forall k | 0 <= k < |ops| :: ops[k].DoStep?
    ensures Counted(Some(start), EventsOf(ops)) == ops[|ops| - 1].input.now - start
  {
    hide Counted, EventsOf;
    StepsAreTicks(ops);
    AllTimeCounts(start, EventsOf(ops));
  }

  // ----- Whole runs of the driver.

  lemma ChecksKeepWithin(d: Driver, checked: real)
    requires Within(d.ctl)
    ensures Within(d.Checked(checked).ctl) && d.Checked(checked).ctl.last == d.ctl.last
    ensures d.Checked(checked).ctl.ramped == d.ctl.ramped && d.Checked(checked).ctl.limits == d.ctl.limits
  {
  }

  lemma StepKeepsWithin(d: Driver, input: Input)
    requires d.Valid() && Within(d.ctl) && d.ctl.Elapsed(input.now) >= 0.0
    ensures Within(AfterStep(d, input).ctl)
  {
    hide Within, AllReady, Control.Ramped;
    var next := d.(stepCount := d.stepCount + 1);
    ChecksKeepWithin(next, input.checked);
    StaysWithin(next.Checked(input.checked).ctl, Tick(input.now));
  }

  lemma CommandKeepsWithin(d: Driver, pi: real, now: real, c: Command)
    requires d.Valid() && Within(d.ctl)
    ensures Within(AfterCommand(d, pi, now, c).ctl)
  {
    hide Command.Accepted;
  }

  lemma QueryKeepsWithin(d: Driver, errors: seq<real>)
    requires d.Valid() && Within(d.ctl)
    ensures Within(AfterQuery(d, errors).ctl)
  {
  }

  /** Over every run of commands, steps and queries, no velocity component exceeds its limit. */
  lemma {:induction false} RunKeepsWithin(d: Driver, pi: real, ops: seq<Op>)
    requires d.Valid() && Within(d.ctl) && Timely(d, pi, ops)
    ensures Within(Run(d, pi, ops).ctl)
  {
    hide Within, AfterStep, AfterCommand, AfterQuery;
    if ops != [] {
      RunKeepsWithin(d, pi, ops[..|ops| - 1]);
      var r := Run(d, pi, ops[..|ops| - 1]);
      match ops[|ops| - 1]
      case DoStep(input) => StepKeepsWithin(r, input);
      case DoCommand(now, c) => CommandKeepsWithin(r, pi, now, c);
      case DoQuery(errors) => QueryKeepsWithin(r, errors);
    }
  }

  /** A step from `r` to `next` changes velocity component `i` by at most the time since the last ramp step
      times the larger limit, does not overshoot the target in force, and keeps the velocity limit. */
  ghost predicate StepBounded(r: Driver, next: Driver, input: Input, i: nat)
    requires r.Valid() && next.Valid() && i < 3
  {
    var limits := r.ctl.limits;
    Abs(next.ctl.ramped[i] - r.ctl.ramped[i]) <= r.ctl.Elapsed(input.now) * Max(limits.Acc(i), limits.Dec(i)) &&
    next.ctl.target == (if r.timeout < input.checked then [0.0, 0.0, 0.0] else r.ctl.target) &&
    Between(next.ctl.ramped[i], r.ctl.ramped[i], next.ctl.target[i]) && Abs(next.ctl.ramped[i]) <= limits.Vel(i)
  }

  /** So is every step of every run, whatever commands and queries came before. */
  lemma EveryStepIsBounded(d: Driver, pi: real, ops: seq<Op>, input: Input, i: nat)
    requires d.Valid() && Within(d.ctl) && Timely(d, pi, ops + [DoStep(input)]) && i < 3
    ensures StepBounded(Run(d, pi, ops), Run(d, pi, ops + [DoStep(input)]), input, i)
  {
    hide Within, StepBounded, AfterStep;
    var all := ops + [DoStep(input)];
    assert all[..|ops|] == ops;
    RunKeepsWithin(d, pi, ops);
    StepIsBounded(Run(d, pi, ops), input, i);
  }

  lemma StepIsBounded(r: Driver, input: Input, i: nat)
    requires r.Valid() && Within(r.ctl) && r.ctl.Elapsed(input.now) >= 0.0 && i < 3
    ensures StepBounded(r, AfterStep(r, input), input, i)
  {
    hide Within, Limits.Acc, Limits.Dec, Limits.Vel, AllReady, Control.Ramped, Abs, Between, Max;
    var checked := r.(stepCount := r.stepCount + 1).Checked(input.checked);
    ChecksKeepWithin(r.(stepCount := r.stepCount + 1), input.checked);
    EventIsBounded(checked.ctl, Tick(input.now), i);
    StandingStillIsBounded(r.ctl, r.ctl.Elapsed(input.now), checked.ctl.target[i], i);
    RampedTarget(checked.ctl, input.now);
  }

  lemma RampedTarget(c: Control, now: real)
    requires |c.target| == |c.ramped| == 3
    ensures c.Ramped(now).target == c.target && c.Ramped(now) == After(c, Tick(now))
  {
  }

  lemma StandingStillIsBounded(c: Control, dt: real, target: real, i: nat)
    requires Within(c) && dt >= 0.0 && i < 3
    ensures Abs(c.ramped[i] - c.ramped[i]) <= dt * Max(c.limits.Acc(i), c.limits.Dec(i))
    ensures Between(c.ramped[i], c.ramped[i], target) && Abs(c.ramped[i]) <= c.limits.Vel(i)
  {
    LimitsAreValid(c.limits, i);
    Products(dt, c.limits.Acc(i), c.limits.Dec(i));
  }

  lemma {:induction false} RunJoins(d: Driver, pi: real, a: seq<Op>, b: seq<Op>)
    requires d.Valid()
    ensures Run(d, pi, a + b) == Run(Run(d, pi, a), pi, b)
    ensures Timely(d, pi, a + b) ==> Timely(d, pi, a) && Timely(Run(d, pi, a), pi, b)
  {
    hide Apply;
    if b == [] {
      assert a + b == a;
    } else {
      var front := b[..|b| - 1];
      RunJoins(d, pi, a, front);
      assert (a + b)[..|a + b| - 1] == a + front && (a + b)[|a + b| - 1] == b[|b| - 1];
    }
  }

  lemma OrderedNext(last: Option<real>, events: seq<Event>, e: Event)
    requires Ordered(last, events) && Gap(LastAfter(last, events), e) >= 0.0
    ensures Ordered(last, events + [e])
  {
    assert (events + [e])[..|events|] == events;
  }

  /** A clock that never goes back between steps does not go back between the steps of the ramp. */
  lemma {:induction false} TimelyIsOrdered(d: Driver, pi: real, ops: seq<Op>)
    requires d.Valid() && d.state == Active && TimedOut(d.timeout, ops) && Timely(d, pi, ops)
    ensures Ordered(d.ctl.last, EventsOf(ops))
  {
    hide Run, Ordered, LastAfter, TimedOut;
    if ops == [] {
      NothingIsOrdered(d.ctl.last);
    } else {
      var front, op := ops[..|ops| - 1], ops[|ops| - 1];
      TimedOutFront(d.timeout, ops);
      TimelyIsOrdered(d, pi, front);
      TimedOutRun(d, pi, front);
      LastOfRun(Halted(d), EventsOf(front));
      if op.DoStep? {
        OrderedNext(d.ctl.last, EventsOf(front), Tick(op.input.now));
      } else {
        OrderedNext(d.ctl.last, EventsOf(front), Misaligned);
      }
    }
  }

  lemma NothingIsOrdered(last: Option<real>)
    ensures Ordered(last, [])
  {
  }

  lemma TimedOutFront(timeout: real, ops: seq<Op>)
    requires TimedOut(timeout, ops) && ops != []
    ensures TimedOut(timeout, ops[..|ops| - 1]) && !ops[|ops| - 1].DoCommand?
  {
  }

  /** A driver as it is constructed, in velocity mode. */
  ghost predicate IsFresh(d: Driver) {
    d.Valid() && d.state == Init && d.kind == Velocity && d.ctl.limits.Valid() && d.ctl.ramped == [0.0, 0.0, 0.0]
  }

  /** From the start of the driver: whatever happens, once it is active and its last command has timed out,
      it sends zero setpoints as soon as the time counted since then is enough to brake, and from then on. */
  lemma StopsInEveryRun(d: Driver, pi: real, kin: Kinematics, before: seq<Op>, ops: seq<Op>, input: Input, i: nat)
    requires IsFresh(d) && i < |input.wheels|
    requires Timely(d, pi, before + (ops + [DoStep(input)]))
    requires var r := Run(d, pi, before);
             r.state == Active && TimedOut(r.timeout, ops + [DoStep(input)]) &&
             forall c | 0 <= c < 3 ::
               Abs(r.ctl.ramped[c]) <= Counted(r.ctl.last, EventsOf(ops + [DoStep(input)])) * r.ctl.limits.Dec(c)
    ensures var o := Sent(Run(d, pi, before + ops), kin, input, i);
            o.setpoint1 == o.setpoint2 == 0.0
  {
    hide Run, Timely, TimedOut, EventsOf, Counted, Sent, Limits.Dec, Abs, Within, Ordered;
    var r := Run(d, pi, before);
    RunJoins(d, pi, before, ops + [DoStep(input)]);
    RunJoins(d, pi, before, ops);
    FreshIsWithin(d);
    RunKeepsWithin(d, pi, before);
    KindIsKept(d, pi, before);
    TimelyIsOrdered(r, pi, ops + [DoStep(input)]);
    StopsAfterTimeout(r, pi, kin, ops, input, i);
  }

  /** In every run, once the driver is active and its last command has timed out, the platform stands if and
      only if the time counted since then is enough to brake. */
  lemma StandsInEveryRunIff(d: Driver, pi: real, before: seq<Op>, ops: seq<Op>)
    requires IsFresh(d) && Timely(d, pi, before + ops)
    requires Run(d, pi, before).state == Active && TimedOut(Run(d, pi, before).timeout, ops)
    ensures var r := Run(d, pi, before);
            Run(d, pi, before + ops).ctl.Standing() <==>
              forall c | 0 <= c < 3 ::
                Abs(r.ctl.ramped[c]) <= Counted(r.ctl.last, EventsOf(ops)) * r.ctl.limits.Dec(c)
  {
    hide Run, Timely, TimedOut, EventsOf, Counted, Limits.Dec, Abs, Within, Ordered;
    RunJoins(d, pi, before, ops);
    FreshIsWithin(d);
    RunKeepsWithin(d, pi, before);
    TimelyIsOrdered(Run(d, pi, before), pi, ops);
    StandsAfterTimeoutIff(Run(d, pi, before), pi, ops);
  }

  // ----- From a command to its timeout.

  ghost predicate NoCommands(ops: seq<Op>) {
    forall k | 0 <= k < |ops| :: !ops[k].DoCommand?
  }

  /** No step finds that `timeout` is over. */
  ghost predicate BeforeTimeout(timeout: real, ops: seq<Op>) {
    forall k | 0 <= k < |ops| && ops[k].DoStep? :: ops[k].input.checked <= timeout
  }

  /** Without another command the timeout stays, and until it is over the target does, too. */
  lemma {:induction false} TargetIsKept(d: Driver, pi: real, ops: seq<Op>)
    requires d.Valid() && NoCommands(ops)
    ensures Run(d, pi, ops).timeout == d.timeout
    ensures BeforeTimeout(d.timeout, ops) ==>
              Run(d, pi, ops).ctl.target == d.ctl.target && Run(d, pi, ops).onlyAlign == d.onlyAlign
  {
    hide AllReady, Control.Ramped;
    if ops != [] {
      TargetIsKept(d, pi, ops[..|ops| - 1]);
      var r := Run(d, pi, ops[..|ops| - 1]);
      if ops[|ops| - 1].DoStep? && r.Valid() {
        RampedTarget(r.ctl, ops[|ops| - 1].input.now);
        RampedTarget(Halted(r), ops[|ops| - 1].input.now);
      }
    }
  }

  /** A command is in force for its duration: until then the driver has its target. */
  lemma CommandIsInForce(d: Driver, pi: real, now: real, c: Command, ops: seq<Op>)
    requires d.Valid() && NoCommands(ops)
    requires c.velX * c.velX + c.velY * c.velY <= 0.25 && Abs(c.velA) <= pi / 4.0 && c.duration >= 0.0
    ensures var r := Run(d, pi, [DoCommand(now, c)] + ops);
            r.timeout == now + c.duration &&
            (BeforeTimeout(now + c.duration, ops) ==>
               TargetIs(r.ctl.target, c.velX, c.velY, c.velA) && r.onlyAlign == c.onlyAlign)
  {
    hide Run;
    RunJoins(d, pi, [DoCommand(now, c)], ops);
    OneOp(d, pi, DoCommand(now, c));
    TargetIsKept(AfterCommand(d, pi, now, c), pi, ops);
  }

  lemma OneOp(d: Driver, pi: real, op: Op)
    requires d.Valid()
    ensures Run(d, pi, [op]) == Apply(d, pi, op)
  {
    hide Apply;
    assert [op][..0] == [];
  }

  /** A command stops at the end of its duration: whatever came before it and whatever steps and queries came
      since, all further steps that come later than that brake the platform, and send zero setpoints to every
      drive as soon as the time counted since is enough. */
  lemma StopsAfterCommand(d: Driver, pi: real, kin: Kinematics, before: seq<Op>, now: real, c: Command, since: seq<Op>,
                          ops: seq<Op>, input: Input, i: nat)
    requires IsFresh(d) && i < |input.wheels| && NoCommands(since) && NoCommands(ops)
    requires c.velX * c.velX + c.velY * c.velY <= 0.25 && Abs(c.velA) <= pi / 4.0 && c.duration >= 0.0
    requires Timely(d, pi, before + [DoCommand(now, c)] + since + (ops + [DoStep(input)]))
    requires forall k | 0 <= k < |ops| && ops[k].DoStep? :: now + c.duration < ops[k].input.checked
    requires now + c.duration < input.checked
    requires var r := Run(d, pi, before + [DoCommand(now, c)] + since);
             r.state == Active &&
             forall v | 0 <= v < 3 ::
               Abs(r.ctl.ramped[v]) <= Counted(r.ctl.last, EventsOf(ops + [DoStep(input)])) * r.ctl.limits.Dec(v)
    ensures var o := Sent(Run(d, pi, before + [DoCommand(now, c)] + since + ops), kin, input, i);
            o.setpoint1 == o.setpoint2 == 0.0
  {
    hide Run, Timely, EventsOf, Counted, Sent, Limits.Dec, IsFresh, AfterCommand;
    var all := before + [DoCommand(now, c)] + since;
    assert all == before + ([DoCommand(now, c)] + since);
    FreshIsWithin(d);
    RunJoins(d, pi, before, [DoCommand(now, c)] + since);
    CommandIsInForce(Run(d, pi, before), pi, now, c, since);
    StopsInEveryRun(d, pi, kin, all, ops, input, i);
  }

  lemma FreshIsWithin(d: Driver)
    requires IsFresh(d)
    ensures Within(d.ctl)
  {
    forall i | 0 <= i < 3 ensures Abs(d.ctl.ramped[i]) <= d.ctl.limits.Vel(i) {
      LimitsAreValid(d.ctl.limits, i);
    }
  }

  lemma {:induction false} KindIsKept(d: Driver, pi: real, ops: seq<Op>)
    requires d.Valid()
    ensures Run(d, pi, ops).kind == d.kind
  {
    hide AllReady, Control.Ramped, Command.Accepted;
    if ops != [] {
      KindIsKept(d, pi, ops[..|ops| - 1]);
    }
  }
}

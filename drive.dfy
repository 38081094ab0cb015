/** The drive program: curvature-drive inverse kinematics from the joystick
    axes to two wheel commands, the speed multiplier chosen by the mode
    buttons, and one pass of the control loop, which scales the wheel
    commands and sends one directive to each wheel's motor. */
module Drive {
  import opened MathUtils
  import opened MotorControllers

  /** Deadzone applied to the speed axis before shaping. */
  const IkDeadzone: real := 0.05

  /** Multipliers chosen by the mode buttons. */
  const SlowSpeed: real := 0.3
  const MediumSpeed: real := 0.5
  const MaxSpeed: real := 1.0

  /** A pair of normalized wheel commands. */
  datatype WheelSpeeds = WheelSpeeds(left: real, right: real)

  /** The larger of the two wheel magnitudes. */
  function MaxMagnitude(w: WheelSpeeds): real {
    Max(Abs(w.left), Abs(w.right))
  }

  /** The same command with the two wheels exchanged. */
  function Mirrored(w: WheelSpeeds): WheelSpeeds {
    WheelSpeeds(w.right, w.left)
  }

  /** The command driven backwards: wheels exchanged and negated. */
  function Reversed(w: WheelSpeeds): WheelSpeeds {
    WheelSpeeds(-w.right, -w.left)
  }

  /** The wheel speeds before desaturation. The speed axis goes through the
      deadzone and the signed square; the rotation axis through the signed
      square. Their mean is the shaped speed and their half-difference is
      the shaped speed's magnitude times the shaped rotation. */
  function Undesaturated(speed: real, rotation: real): (w: WheelSpeeds)
    ensures w.left + w.right == 2.0 * Square(Deadzone(speed, IkDeadzone))
    ensures w.left - w.right == 2.0 * (Abs(Square(Deadzone(speed, IkDeadzone))) * Square(rotation))
  {
    var s := Square(Deadzone(speed, IkDeadzone));
    var rot := Square(rotation);
    WheelSpeeds(s + Abs(s) * rot, s - Abs(s) * rot)
  }

  /** For a rotation axis within [-1, 1], neither wheel turns against the
      commanded direction, nor goes more than twice as fast as the shaped
      speed s: both wheels lie between 0 and 2 * s. */
  lemma UndesaturatedFollowsSpeed(speed: real, rotation: real)
    requires Abs(rotation) <= 1.0
    ensures var s := Square(Deadzone(speed, IkDeadzone));
      var w := Undesaturated(speed, rotation);
      && (s >= 0.0 ==> 0.0 <= w.left <= 2.0 * s && 0.0 <= w.right <= 2.0 * s)
      && (s <= 0.0 ==> 2.0 * s <= w.left <= 0.0 && 2.0 * s <= w.right <= 0.0)
  {
    var s := Square(Deadzone(speed, IkDeadzone));
    var rot := Square(rotation);
    SquareShrinks(rotation);
    assert Abs(rot) <= 1.0;
    TurnWithinSpeed(Abs(s), rot);
    WheelsBetween(s, Abs(s) * rot);
  }

  /** The turning term a * rot never exceeds the speed magnitude a. */
  lemma TurnWithinSpeed(a: real, rot: real)
    requires a >= 0.0 && Abs(rot) <= 1.0
    ensures -a <= a * rot <= a
  {
    MulMonotone(rot, 1.0, a);
    MulMonotone(-1.0, rot, a);
  }

  lemma WheelsBetween(s: real, p: real)
    requires -Abs(s) <= p <= Abs(s)
    ensures s >= 0.0 ==> 0.0 <= s + p <= 2.0 * s && 0.0 <= s - p <= 2.0 * s
    ensures s <= 0.0 ==> 2.0 * s <= s + p <= 0.0 && 2.0 * s <= s - p <= 0.0
  {
  }

  /** Dividing a value of magnitude at most m > 0 by m. */
  lemma DivideByMagnitude(a: real, m: real)
    requires m > 0.0 && Abs(a) <= m
    ensures Abs(a / m) <= 1.0
    ensures m >= 1.0 ==> Abs(a / m) <= Abs(a)
    ensures (a / m < 0.0 <==> a < 0.0) && (a / m == 0.0 <==> a == 0.0)
    ensures Abs(a) == m ==> Abs(a / m) == 1.0
  {
    var b := Abs(a);
    NegDiv(a, m);
    DivSign(a, m);
    assert Abs(a / m) == b / m;
    DivideMonotone(b, m, m);
    DivSelf(m);
    DivSign(b, m);
    if m >= 1.0 {
      MulMonotone(1.0, m, b / m);
      DivMulBack(b, m);
    }
  }

  /** `a / m * b == b / m * a`: both wheels divided by one factor keep their ratio. */
  lemma DivideKeepsRatio(a: real, b: real, m: real)
    requires m != 0.0
    ensures a / m * b == b / m * a
  {
    assert a / m * b == a * b / m;
    assert b / m * a == a * b / m;
  }

  /** Both wheels divided by the larger magnitude m > 1. */
  lemma ScaledDown(w: WheelSpeeds, m: real)
    requires m == MaxMagnitude(w) && m > 1.0
    ensures var d := WheelSpeeds(w.left / m, w.right / m);
      && MaxMagnitude(d) == 1.0
      && d.left * w.right == d.right * w.left
      && Abs(d.left) <= Abs(w.left) && Abs(d.right) <= Abs(w.right)
      && (d.left < 0.0 <==> w.left < 0.0) && (d.left == 0.0 <==> w.left == 0.0)
      && (d.right < 0.0 <==> w.right < 0.0) && (d.right == 0.0 <==> w.right == 0.0)
  {
    DivideByMagnitude(w.left, m);
    DivideByMagnitude(w.right, m);
    DivideKeepsRatio(w.left, w.right, m);
  }

  /** Desaturation: when either wheel exceeds 1 in magnitude, both are
      divided by the larger magnitude, so that the larger becomes exactly 1;
      otherwise nothing changes. */
  function Desaturate(w: WheelSpeeds): (d: WheelSpeeds)
    ensures MaxMagnitude(d) <= 1.0
    ensures MaxMagnitude(w) <= 1.0 ==> d == w
    ensures MaxMagnitude(w) > 1.0 ==> MaxMagnitude(d) == 1.0
  {
    var m := MaxMagnitude(w);
    if m > 1.0 then
      ScaledDown(w, m);
      WheelSpeeds(w.left / m, w.right / m)
    else
      w
  }

  /** Desaturation keeps the ratio between the wheels, changes the sign of
      neither and never makes either larger. */
  lemma DesaturateKeepsShape(w: WheelSpeeds)
    ensures var d := Desaturate(w);
      && d.left * w.right == d.right * w.left
      && Abs(d.left) <= Abs(w.left) && Abs(d.right) <= Abs(w.right)
      && (d.left < 0.0 <==> w.left < 0.0) && (d.left == 0.0 <==> w.left == 0.0)
      && (d.right < 0.0 <==> w.right < 0.0) && (d.right == 0.0 <==> w.right == 0.0)
  {
    var m := MaxMagnitude(w);
    if m > 1.0 {
      assert Desaturate(w) == WheelSpeeds(w.left / m, w.right / m);
      ScaledDown(w, m);
    } else {
      assert Desaturate(w) == w;
      assert w.left * w.right == w.right * w.left;
    }
  }

  /** `curvture_drive_ik`: curvature-drive inverse kinematics. Whatever the
      axes, neither wheel command exceeds 1 in magnitude. */
  function CurvatureDriveIk(speed: real, rotation: real): (w: WheelSpeeds)
    ensures MaxMagnitude(w) <= 1.0
  {
    Desaturate(Undesaturated(speed, rotation))
  }

  /** For a rotation axis within [-1, 1] the platform never drives a wheel
      against the commanded direction: forward speed gives two non-negative
      wheel commands, backward speed two non-positive ones. */
  lemma IkFollowsSpeed(speed: real, rotation: real)
    requires Abs(rotation) <= 1.0
    ensures var s := Square(Deadzone(speed, IkDeadzone));
      var w := CurvatureDriveIk(speed, rotation);
      && (s >= 0.0 ==> w.left >= 0.0 && w.right >= 0.0)
      && (s <= 0.0 ==> w.left <= 0.0 && w.right <= 0.0)
  {
    UndesaturatedFollowsSpeed(speed, rotation);
    DesaturateKeepsShape(Undesaturated(speed, rotation));
  }

  /** Inside the speed deadzone the platform does not move, whatever the rotation. */
  lemma IkStopsInDeadzone(speed: real, rotation: real)
    requires Abs(speed) < IkDeadzone
    ensures CurvatureDriveIk(speed, rotation) == WheelSpeeds(0.0, 0.0)
  {
    assert Square(Deadzone(speed, IkDeadzone)) == 0.0;
    assert Abs(0.0) * Square(rotation) == 0.0;
  }

  /** With no rotation both wheels get the same command, which for a speed
      axis within [-1, 1] is the shaped speed itself. */
  lemma IkStraight(speed: real)
    ensures CurvatureDriveIk(speed, 0.0).left == CurvatureDriveIk(speed, 0.0).right
    ensures Abs(speed) <= 1.0 ==>
      CurvatureDriveIk(speed, 0.0) == WheelSpeeds(Square(Deadzone(speed, IkDeadzone)), Square(Deadzone(speed, IkDeadzone)))
  {
    var s := Square(Deadzone(speed, IkDeadzone));
    SquareOdd(0.0);
    assert Abs(s) * Square(0.0) == 0.0;
    assert Undesaturated(speed, 0.0) == WheelSpeeds(s, s);
    if Abs(speed) <= 1.0 {
      SquareShrinks(Deadzone(speed, IkDeadzone));
    }
  }

  /** Desaturation commutes with exchanging the wheels. */
  lemma DesaturateMirrored(w: WheelSpeeds)
    ensures Desaturate(Mirrored(w)) == Mirrored(Desaturate(w))
  {
    assert MaxMagnitude(Mirrored(w)) == MaxMagnitude(w);
  }

  /** Desaturation commutes with driving backwards. */
  lemma DesaturateReversed(w: WheelSpeeds)
    ensures Desaturate(Reversed(w)) == Reversed(Desaturate(w))
  {
    var m := MaxMagnitude(w);
    assert MaxMagnitude(Reversed(w)) == m;
    if m > 1.0 {
      NegDiv(w.right, m);
      NegDiv(w.left, m);
    }
  }

  /** Mirror symmetry: turning the other way exchanges the wheels. */
  lemma IkMirror(speed: real, rotation: real)
    ensures CurvatureDriveIk(speed, -rotation) == Mirrored(CurvatureDriveIk(speed, rotation))
  {
    var s := Square(Deadzone(speed, IkDeadzone));
    SquareOdd(rotation);
    assert Square(-rotation) == -Square(rotation);
    assert Abs(s) * Square(-rotation) == -(Abs(s) * Square(rotation));
    assert Undesaturated(speed, -rotation) == Mirrored(Undesaturated(speed, rotation));
    DesaturateMirrored(Undesaturated(speed, rotation));
  }

  /** Reversal symmetry: reversing the speed axis drives the same curve
      backwards, wheels exchanged and negated. */
  lemma IkReversal(speed: real, rotation: real)
    ensures CurvatureDriveIk(-speed, rotation) == Reversed(CurvatureDriveIk(speed, rotation))
  {
    var s := Square(Deadzone(speed, IkDeadzone));
    DeadzoneOdd(speed, IkDeadzone);
    SquareOdd(Deadzone(speed, IkDeadzone));
    assert Square(Deadzone(-speed, IkDeadzone)) == -s;
    assert Undesaturated(-speed, rotation) == Reversed(Undesaturated(speed, rotation));
    DesaturateReversed(Undesaturated(speed, rotation));
  }

  /** `get_speed_multiplier`, as a function of the two mode buttons. */
  function SpeedMultiplier(modeA: bool, modeB: bool): (k: real)
    ensures 0.0 < k <= 1.0
  {
    if modeA then MediumSpeed
    else if modeB then MaxSpeed
    else SlowSpeed
  }

  /** MODEA takes priority over MODEB; MODEB alone selects full speed and
      no button the slow speed. */
  lemma SpeedMultiplierPriority(modeB: bool)
    ensures SpeedMultiplier(true, modeB) == SpeedMultiplier(true, !modeB) == 0.5
    ensures SpeedMultiplier(false, true) == 1.0
    ensures SpeedMultiplier(false, false) == 0.3
  {
  }

  /** The two mode buttons as sampled by one call of `get_speed_multiplier`. */
  datatype Buttons = Buttons(modeA: bool, modeB: bool)

  /** Scaling a command of magnitude at most 1 by a factor in (0, 1]. */
  lemma ScaleStaysInRange(a: real, k: real)
    requires Abs(a) <= 1.0 && 0.0 < k <= 1.0
    ensures Abs(a * k) <= Abs(a) <= 1.0
  {
    var p := a * k;
    if a < 0.0 {
      assert p <= 0.0;
      assert Abs(p) == -p;
      assert -p <= -a;
      assert Abs(a) == -a;
    } else {
      assert p >= 0.0;
      assert p <= a;
    }
  }

  /** The wheel commands of one pass of the loop: the inverse kinematics of
      (-Y, X), each wheel scaled by the multiplier read for it. The left and
      right multipliers come from two separate button reads. Both stay in
      [-1, 1]. */
  function WheelCommands(axisX: real, axisY: real, leftButtons: Buttons, rightButtons: Buttons): (c: WheelSpeeds)
    ensures MaxMagnitude(c) <= 1.0
  {
    var ik := CurvatureDriveIk(-axisY, axisX);
    var kLeft := SpeedMultiplier(leftButtons.modeA, leftButtons.modeB);
    var kRight := SpeedMultiplier(rightButtons.modeA, rightButtons.modeB);
    ScaledWithinRange(ik, kLeft, kRight);
    WheelSpeeds(ik.left * kLeft, ik.right * kRight)
  }

  /** Both wheels of a command within [-1, 1], each scaled by its own factor
      in (0, 1], stay within [-1, 1]. */
  lemma ScaledWithinRange(w: WheelSpeeds, kLeft: real, kRight: real)
    requires MaxMagnitude(w) <= 1.0 && 0.0 < kLeft <= 1.0 && 0.0 < kRight <= 1.0
    ensures MaxMagnitude(WheelSpeeds(w.left * kLeft, w.right * kRight)) <= 1.0
  {
    var l, r := w.left * kLeft, w.right * kRight;
    ScaleStaysInRange(w.left, kLeft);
    assert Abs(w.left * kLeft) <= Abs(w.left);
    assert Abs(w.left) <= 1.0;
    ScaleStaysInRange(w.right, kRight);
    assert Abs(w.right * kRight) <= Abs(w.right);
    assert Abs(w.right) <= 1.0;
    assert Abs(l) <= 1.0 && Abs(r) <= 1.0;
    assert WheelSpeeds(w.left * kLeft, w.right * kRight) == WheelSpeeds(l, r);
  }

  /** The outcome of one `get_rpm` call. */
  datatype RpmReading = Measured(rpm: int) | ReadFailed

  /** The RPM pair the loop works with. The left motor is read first; if
      either read fails (the right one is then never attempted when the left
      one failed) both RPM values fall back to 0. */
  function ReadRpms(left: RpmReading, right: RpmReading): (rpms: (int, int))
    ensures left.ReadFailed? || right.ReadFailed? ==> rpms == (0, 0)
    ensures left.Measured? && right.Measured? ==> rpms == (left.rpm, right.rpm)
  {
    match (left, right)
    case (Measured(l), Measured(r)) => (l, r)
    case _ => (0, 0)
  }

  /** The one directive sent to a wheel: a current command, except when the
      wheel is turning backwards and is asked to go backwards, in which case
      the wheel is told to hold 0 RPM. */
  function Dispatch(rpm: int, command: real): (d: Directive)
    ensures d == SetCurrent(command) || d == SetRpm(0)
    ensures d.SetRpm? <==> rpm < 0 && command < 0.0
  {
    if rpm >= 0 || command >= 0.0 then SetCurrent(command) else SetRpm(0)
  }

  /** The directives of one pass of the loop, one per wheel. */
  datatype WheelDirectives = WheelDirectives(left: Directive, right: Directive)

  function IterationDirectives(axisX: real, axisY: real, leftButtons: Buttons, rightButtons: Buttons,
                               leftRead: RpmReading, rightRead: RpmReading): (ds: WheelDirectives)
    ensures ds.left.SetCurrent? ==> Abs(ds.left.current) <= 1.0
    ensures ds.right.SetCurrent? ==> Abs(ds.right.current) <= 1.0
  {
    var c := WheelCommands(axisX, axisY, leftButtons, rightButtons);
    var rpms := ReadRpms(leftRead, rightRead);
    WheelDirectives(Dispatch(rpms.0, c.left), Dispatch(rpms.1, c.right))
  }

  /** A failed read always leads to current commands on both wheels. */
  lemma FailedReadDrivesCurrent(axisX: real, axisY: real, leftButtons: Buttons, rightButtons: Buttons,
                                leftRead: RpmReading, rightRead: RpmReading)
    requires leftRead.ReadFailed? || rightRead.ReadFailed?
    ensures var ds := IterationDirectives(axisX, axisY, leftButtons, rightButtons, leftRead, rightRead);
            var c := WheelCommands(axisX, axisY, leftButtons, rightButtons);
            ds == WheelDirectives(SetCurrent(c.left), SetCurrent(c.right))
  {
  }

  /** One pass of the control loop: compute the wheel commands, read both
      RPMs with the fallback, and send exactly one directive to each motor. */
  method ControlIteration(axisX: real, axisY: real, leftButtons: Buttons, rightButtons: Buttons,
                          leftRead: RpmReading, rightRead: RpmReading,
                          leftMotor: VescHandle, rightMotor: VescHandle)
    requires leftMotor != rightMotor
    modifies leftMotor, rightMotor
    ensures leftMotor.log == old(leftMotor.log)
      + [IterationDirectives(axisX, axisY, leftButtons, rightButtons, leftRead, rightRead).left]
    ensures rightMotor.log == old(rightMotor.log)
      + [IterationDirectives(axisX, axisY, leftButtons, rightButtons, leftRead, rightRead).right]
  {
    var commands := WheelCommands(axisX, axisY, leftButtons, rightButtons);
    var ikLeft, ikRight := commands.left, commands.right;

    var leftRpm, rightRpm;
    if leftRead.Measured? && rightRead.Measured? {
      leftRpm, rightRpm := leftRead.rpm, rightRead.rpm;
    } else {
      leftRpm, rightRpm := 0, 0;
    }
    ghost var rpms := ReadRpms(leftRead, rightRead);
    assert rpms == (leftRpm, rightRpm);
    ghost var ds := IterationDirectives(axisX, axisY, leftButtons, rightButtons, leftRead, rightRead);
    assert ds == WheelDirectives(Dispatch(leftRpm, ikLeft), Dispatch(rightRpm, ikRight));

    if leftRpm >= 0 || ikLeft >= 0.0 {
      leftMotor.SetCurrent(ikLeft);
    } else {
      leftMotor.SetRpm(0);
    }

    if rightRpm >= 0 || ikRight >= 0.0 {
      rightMotor.SetCurrent(ikRight);
    } else {
      rightMotor.SetRpm(0);
    }
  }
}

# Couch drive: motor-command arithmetic

A model of the motor-command pipeline of a joystick-driven differential-drive
couch. Two joystick axes go through curvature-drive inverse kinematics to a
left and a right wheel command. A mode button picks a speed multiplier. Each
pass of the control loop then sends one directive to each wheel's VESC motor
controller.

Three modules, one per source file:

- `MathUtils` (`mathutils.dfy`, from `mathutils.py`): the shaping primitives.
  These are `map_range`, `deadzone`, `apply_deadband`, `clamp` and the signed
  `square`. They are pure functions over `real`. Python's `//` is the floor of
  the exact quotient (`MulFloorDiv`). Python's `int()` on a float is truncation
  toward zero (`Trunc`).
- `MotorControllers` (`motor_controller.dfy`, from `motor_controller.py`):
  - the base controller, whose `set_speed` does nothing;
  - the VESC controller, which turns a command in [-1, 1] into an integer RPM
    and issues one `set_rpm`;
  - the virtual controller, which stores the last speed.

  The VESC device handle (`VescHandle`) is modelled as the log of directives
  written to it.
- `Drive` (`drive.dfy`, from `__main__.py`): the kinematics
  (`CurvatureDriveIk`, split into `Undesaturated` and `Desaturate`), the
  speed multiplier, and one pass of the control loop (`ControlIteration`).
  The loop is specified by the pure `IterationDirectives`.

Floats are modelled as exact reals, so rounding is not modelled. Joystick
axes, button states and the results of the RPM reads are parameters of the
loop pass.

The program has one kinematics transform, curvature drive, and it squares the rotation (`__main__.py:30`). It has one desaturation law, which divides both wheels by the larger magnitude (`__main__.py:36-39`). The VESC controller converts only to RPM, with MAX_RPM 10000 (`motor_controller.py:14`). The loop issues `set_current` or `set_rpm(0)` (`__main__.py:90-98`).

## Model

| member | source | states |
|---|---|---|
| MathUtils.MapRange | mathutils.py:3-9 | The result is the exact affine image of x rounded down onto the grid outMin + k, with k an integer, because `//` floors the quotient. |
| MathUtils.MapRangeEndpoints | mathutils.py:3-9 | in_min maps to out_min and in_max maps to out_max whenever out_max - out_min is an integer. |
| MathUtils.MapRangeIntegral | mathutils.py:9 | With an integral out_min the result is an integer. |
| MathUtils.MapRangeMonotone | mathutils.py:9 | For in_min < in_max and out_min <= out_max, a larger x never gives a smaller result. |
| MathUtils.MapRangeBounds | mathutils.py:9 | For in_min < in_max and out_min <= out_max, an x in [in_min, in_max] gives a result in [out_min, out_max]. |
| MathUtils.Deadzone | mathutils.py:12-16 | The output is 0 or x. A non-zero output has magnitude at least min_val. An input of magnitude at least min_val (the boundary included) passes unchanged. Together these give: the output is 0 exactly when the input is 0 or below the threshold. |
| MathUtils.DeadzoneOdd | mathutils.py:12-16 | The deadzone is odd: deadzone(-x) == -deadzone(x). |
| MathUtils.DeadzoneIdempotent | mathutils.py:12-16 | Applying the deadzone twice equals applying it once. |
| MathUtils.ApplyDeadband | mathutils.py:18-70 | Values with abs(value) <= deadband give 0; note this boundary is inclusive, unlike `deadzone`. Values above the band give a positive result and values below it a negative one. |
| MathUtils.ApplyDeadbandEndpoints | mathutils.py:35-68 | Outside the limiting form, value = max_magnitude maps to max_magnitude and value = -max_magnitude maps to -max_magnitude. |
| MathUtils.ApplyDeadbandLimit | mathutils.py:29-68 | When max_magnitude / deadband > 1e12 the limiting form stands in for the stretching formula. A value outside the band moves toward zero by exactly deadband. The stretching formula for the same value lies further from zero by at most 1 / (1e12 - 1) of the offset past the band. |
| MathUtils.ApplyDeadbandOdd | mathutils.py:29-70 | apply_deadband(-v) == -apply_deadband(v) in both the stretching form and the limiting form. |
| MathUtils.ApplyDeadbandShrinks | mathutils.py:29-70 | For abs(value) <= max_magnitude the output is never larger in magnitude than the input, so it stays within [-max_magnitude, max_magnitude]. |
| MathUtils.Clamp | mathutils.py:73-82 | When min <= max the result lies in [min, max]. It equals value when value is already in range, min below the range and max above it. When min > max the result is always min. |
| MathUtils.ClampIdempotent | mathutils.py:73-82 | Clamping a clamped value changes nothing. |
| MathUtils.Square | mathutils.py:85-91 | abs(square(x)) == x * x, and square(x) has the sign of x (0 for 0). |
| MathUtils.SquareOdd | mathutils.py:85-91 | square is odd and fixes 0, 1 and -1. |
| MathUtils.SquareShrinks | mathutils.py:85-91 | On [-1, 1], abs(square(x)) <= abs(x): small inputs are compressed. |
| MathUtils.SquareMonotone | mathutils.py:85-91 | square is monotone non-decreasing. |
| MotorControllers.RpmFor | motor_controller.py:14-21 | For speed in [-1, 1] the issued RPM is an integer in [-MAX_RPM, MAX_RPM] = [-10000, 10000]. |
| MotorControllers.RpmForIsFloor | motor_controller.py:20-21 | The issued RPM is floor(speed * MAX_RPM). map_range already returns an integer here, so `int()` loses nothing. |
| MotorControllers.RpmForEndpoints | motor_controller.py:19-21 | set_speed(0), set_speed(1) and set_speed(-1) issue set_rpm(0), set_rpm(10000) and set_rpm(-10000). |
| MotorControllers.RpmForMonotone | motor_controller.py:20 | The issued RPM is monotone non-decreasing in the speed. |
| MotorControllers.VescHandle.SetRpm | motor_controller.py:21 | A set_rpm call appends exactly one SetRpm directive to the handle's log. |
| MotorControllers.VescHandle.SetCurrent | __main__.py:91 | A set_current call appends exactly one SetCurrent directive to the handle's log. |
| MotorControllers.VescHandle.StopHeartbeat | motor_controller.py:25 | A stop_heartbeat call appends exactly one StopHeartbeat directive to the handle's log. |
| MotorControllers.MotorController.SetSpeed | motor_controller.py:9-10 | The base set_speed changes no state. |
| MotorControllers.VescMotorController.constructor | motor_controller.py:16-17 | The controller holds the given VESC handle. |
| MotorControllers.VescMotorController.SetSpeed | motor_controller.py:19-21 | Appends exactly one directive, SetRpm(RpmFor(speed)), to the handle's log and nothing else. |
| MotorControllers.VescMotorController.Release | motor_controller.py:23-25 | Teardown appends exactly one StopHeartbeat directive. |
| MotorControllers.VirtualMotorController.constructor | motor_controller.py:29-31 | A new virtual controller has speed 0 and the given name. |
| MotorControllers.VirtualMotorController.SetSpeed | motor_controller.py:34-36 | After set_speed(v) the stored speed is v and the name is unchanged. |
| MotorControllers.VirtualMotorController.GetSpeed | motor_controller.py:38-39 | get_speed returns the stored speed, so it returns v after set_speed(v). |
| Drive.UndesaturatedFollowsSpeed | __main__.py:26-33 | For a rotation in [-1, 1], with s = square(deadzone(speed, 0.05)), both wheels lie in [0, 2s] when s >= 0 and in [2s, 0] when s <= 0. So before desaturation neither wheel turns against the commanded direction or exceeds twice the shaped speed. |
| Drive.Desaturate | __main__.py:36-39 | Both outputs lie in [-1, 1]. If max(abs(left), abs(right)) <= 1 the pair is unchanged. Otherwise the larger output magnitude is exactly 1. |
| Drive.DesaturateKeepsShape | __main__.py:36-39 | Desaturation keeps the ratio left : right, changes the sign of neither wheel and never increases either magnitude. |
| Drive.CurvatureDriveIk | __main__.py:14-41 | For every (speed, rotation): max(abs(left), abs(right)) <= 1. |
| Drive.IkFollowsSpeed | __main__.py:14-41 | For a rotation in [-1, 1], forward speed gives two non-negative wheel commands and backward speed two non-positive ones. The platform turns by slowing one wheel, never by reversing it. |
| Drive.IkStopsInDeadzone | __main__.py:15-33 | If abs(speed) < 0.05 the result is (0, 0) whatever the rotation. |
| Drive.IkStraight | __main__.py:29-39 | With rotation 0, left == right. For abs(speed) <= 1 both equal square(deadzone(speed, 0.05)). |
| Drive.IkMirror | __main__.py:29-39 | ik(s, -r) is ik(s, r) with left and right exchanged. |
| Drive.IkReversal | __main__.py:26-39 | ik(-s, r) == (-right, -left) where (left, right) = ik(s, r). |
| Drive.SpeedMultiplier | __main__.py:44-50 | The multiplier always lies in (0, 1]. |
| Drive.SpeedMultiplierPriority | __main__.py:44-50 | MODEA gives 0.5 whether or not MODEB is pressed. MODEB alone gives 1. Neither gives 0.3. |
| Drive.WheelCommands | __main__.py:74-79 | The scaled wheel commands of a pass, each wheel's IK output times a multiplier in (0, 1], stay within [-1, 1]. |
| Drive.ReadRpms | __main__.py:81-86 | If either RPM read fails, both RPM values are 0. Otherwise they are the values read. |
| Drive.Dispatch | __main__.py:90-98 | Each wheel gets either set_current(ik) or set_rpm(0). It gets set_rpm(0) exactly when rpm < 0 and ik < 0. |
| Drive.IterationDirectives | __main__.py:74-98 | Any set_current issued by a pass carries a command within [-1, 1]. |
| Drive.FailedReadDrivesCurrent | __main__.py:81-98 | After a failed RPM read both wheels receive set_current with their scaled IK command. |
| Drive.ControlIteration | __main__.py:74-98 | One pass appends exactly one directive to each motor's log, the one IterationDirectives gives, and nothing else. |

## Left out

- Gamepad discovery, background polling, reconnection and the outer `while joystick.isConnected()` loop of `__main__.py`. Only one pass of the loop is modelled. Axes, buttons and RPM read outcomes are its parameters.
- `print` logging in `__main__.py` and in `VirtualMotorController`: output only.
- `get_rpm`, `set_current`, `set_rpm` and `stop_heartbeat` belong to the pyvesc library and to a `CanVESC` class. Neither is part of this model. Each is modelled only by its observable effect: a directive appended to a `VescHandle` log, or an RPM reading that may fail (`RpmReading`). The byte framing, the CAN relay and any request/response exchange with the device are not modelled.
- In `__main__.py` the two motors come from `get_motor_controllers` (`detect_motor_controllers.py`), which is not part of this model. The loop pass is modelled directly on two distinct `VescHandle`s. `VESCMotorController` in `motor_controller.py` defines no `get_rpm`, `set_current` or `set_rpm`, although the loop calls all three on it (`__main__.py:81-98`). As the files stand, the call at `__main__.py:91` would raise AttributeError outside the inner `try`. The loop is modelled as if the two motors were the VESC device handles themselves.
- Drive.ControlIteration: takes the wheel commands from `WheelCommands` instead of repeating the multiplication inline. `get_speed_multiplier` is called twice in the source, once per wheel. The model keeps this by taking two button samples.
- `__del__` runs `stop_heartbeat` when the Python finalizer fires. Here it is an explicit `Release` method, and when it runs is not modelled.
- `horn.py` (GPIO output) and the serial-port enumeration and retry loop of `detect_motor_controllers.py`: hardware and operating-system I/O.
- Floating-point rounding: floats are exact reals. The `1e12` guard in `apply_deadband` is kept as a plain branch condition, but the roundoff it protects against is not modelled. An infinite `max_magnitude` cannot be represented.
- MathUtils.ApplyDeadband: requires 0 < deadband < max_magnitude. A deadband of 0 divides by zero at `mathutils.py:30` for every value except 0, which returns 0.0 at `mathutils.py:70`, and the docstring defines the band as a range inside the maximum magnitude.
- MathUtils.MapRange: requires in_min != in_max, since Python raises ZeroDivisionError otherwise.

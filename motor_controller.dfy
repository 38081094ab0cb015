/** Motor controllers: a no-op base controller, a controller that drives a
    VESC speed controller in RPM mode, and a virtual controller that only
    remembers the last speed. The VESC device handle is observed only through
    the directives written to it. */
module MotorControllers {
  import opened MathUtils

  /** The largest RPM a VESC controller is ever asked for. */
  const MaxRpm: int := 10000

  /** A command written to a VESC device. */
  datatype Directive =
    | SetRpm(rpm: int)
    | SetCurrent(current: real)
    | StopHeartbeat

  /** A VESC device handle, seen as the log of directives issued to it.
      How each directive is framed and sent is not part of this model. */
  class VescHandle {
    var log: seq<Directive>

    constructor ()
      ensures log == []
    {
      log := [];
    }

    method SetRpm(rpm: int)
      modifies this
      ensures log == old(log) + [Directive.SetRpm(rpm)]
    {
      log := log + [Directive.SetRpm(rpm)];
    }

    method SetCurrent(current: real)
      modifies this
      ensures log == old(log) + [Directive.SetCurrent(current)]
    {
      log := log + [Directive.SetCurrent(current)];
    }

    method StopHeartbeat()
      modifies this
      ensures log == old(log) + [Directive.StopHeartbeat]
    {
      log := log + [Directive.StopHeartbeat];
    }
  }

  /** The base controller: setting a speed does nothing. */
  class MotorController {
    constructor ()
    {
    }

    method SetSpeed(speed: real)
      ensures unchanged(this)
    {
    }
  }

  /** The RPM a VESC controller is asked for when given `speed`: the speed
      mapped from [-1, 1] onto [-MaxRpm, MaxRpm] and converted to an integer. */
  function RpmFor(speed: real): (rpm: int)
    ensures -1.0 <= speed <= 1.0 ==> -MaxRpm <= rpm <= MaxRpm
  {
    var scaled := MapRange(speed, -1.0, 1.0, -MaxRpm as real, MaxRpm as real);
    MapRangeBoundsForRpm(speed);
    Trunc(scaled)
  }

  lemma MapRangeBoundsForRpm(speed: real)
    ensures -1.0 <= speed <= 1.0 ==>
      -MaxRpm as real <= MapRange(speed, -1.0, 1.0, -MaxRpm as real, MaxRpm as real) <= MaxRpm as real
  {
    if -1.0 <= speed <= 1.0 {
      MapRangeBounds(speed, -1.0, 1.0, -MaxRpm as real, MaxRpm as real);
    }
  }

  /** The RPM is the speed times MaxRpm, rounded down: map_range already lands
      on an integer, so the conversion to int loses nothing. */
  lemma RpmForIsFloor(speed: real)
    ensures RpmFor(speed) == (speed * MaxRpm as real).Floor
  {
    assert MaxRpm as real == 10000.0;
    var scaled := MapRange(speed, -1.0, 1.0, -10000.0, 10000.0);
    assert IsIntegral(scaled) by {
      assert IsIntegral(scaled - -10000.0);
    }
    TruncIntegral(scaled);
    assert (speed + 1.0) * 20000.0 / 2.0 == speed * 10000.0 + 10000.0;
    FloorShift(speed * 10000.0, 10000);
  }

  lemma FloorShift(x: real, k: int)
    ensures (x + k as real).Floor == x.Floor + k
  {
  }

  /** Stop, full forward and full reverse map to 0, MaxRpm and -MaxRpm. */
  lemma RpmForEndpoints()
    ensures RpmFor(0.0) == 0
    ensures RpmFor(1.0) == MaxRpm
    ensures RpmFor(-1.0) == -MaxRpm
  {
    RpmForIsFloor(0.0);
    RpmForIsFloor(1.0);
    RpmForIsFloor(-1.0);
  }

  /** A faster command never asks for fewer RPM. */
  lemma RpmForMonotone(speed: real, speed': real)
    requires speed <= speed'
    ensures RpmFor(speed) <= RpmFor(speed')
  {
    RpmForIsFloor(speed);
    RpmForIsFloor(speed');
    MulMonotone(speed, speed', MaxRpm as real);
    FloorMonotone(speed * MaxRpm as real, speed' * MaxRpm as real);
  }

  /** A controller driving one VESC device in RPM mode. */
  class VescMotorController {
    var motor: VescHandle

    constructor (motor: VescHandle)
      ensures this.motor == motor
    {
      this.motor := motor;
    }

    /** Issues exactly one SetRpm directive, for RpmFor(speed), and nothing else. */
    method SetSpeed(speed: real)
      modifies motor
      ensures motor.log == old(motor.log) + [SetRpm(RpmFor(speed))]
    {
      var scaledSpeed := MapRange(speed, -1.0, 1.0, -MaxRpm as real, MaxRpm as real);
      motor.SetRpm(Trunc(scaledSpeed));
    }

    /** Teardown: stops the device heartbeat so that the motor does not keep spinning. */
    method Release()
      modifies motor
      ensures motor.log == old(motor.log) + [StopHeartbeat]
    {
      motor.StopHeartbeat();
    }
  }

  /** A controller without hardware: it remembers the last speed it was given. */
  class VirtualMotorController {
    var speed: real
    var name: string

    constructor (name: string)
      ensures speed == 0.0 && this.name == name
    {
      speed := 0.0;
      this.name := name;
    }

    method SetSpeed(speed: real)
      modifies this`speed
      ensures this.speed == speed && name == old(name)
    {
      this.speed := speed;
    }

    method GetSpeed() returns (speed: real)
      ensures speed == this.speed
    {
      speed := this.speed;
    }
  }
}

/**
 * Fan actuation and the capability probe: `set_fan_speed`, `turn_off_fan`
 * and `check_control_registers_support` in argonone.py. A missing bus is a
 * null reference; an exception from the bus is an `ok` result of false. The
 * one-second sleeps are not modelled.
 */
module Fan {
  import opened Wrappers
  import opened Hardware

  /** `speed if speed in range(0, 101) else 100 if speed > 100 else 0`. */
  function Clamp(speed: int): (r: int)
    ensures 0 <= r <= 100
    ensures 0 <= speed <= 100 ==> r == speed
    ensures speed > 100 ==> r == 100
    ensures speed < 0 ==> r == 0
  {
    if 0 <= speed < 101 then speed else if speed > 100 then 100 else 0
  }

  /** The clamped speed is the value of [0, 100] nearest to the requested one. */
  lemma ClampNearest(speed: int, y: int)
    requires 0 <= y <= 100
    ensures Distance(Clamp(speed), speed) <= Distance(y, speed)
  {
  }

  function Distance(a: int, b: int): nat {
    if a >= b then a - b else b - a
  }

  /** The single write `set_fan_speed` issues for a speed under a protocol. */
  function Command(speed: int, registersSupport: bool): (w: Write)
    ensures w.addr == FAN_ADDR && 0 <= w.value <= 100
    ensures w.RegisterWrite? <==> registersSupport
    ensures w.RegisterWrite? ==> w.reg == FAN_DUTY_CYCLE
    ensures w.value == Clamp(speed)
    ensures 0 <= speed <= 100 ==> w.value == speed
    ensures speed > 100 ==> w.value == 100
    ensures speed < 0 ==> w.value == 0
  {
    if registersSupport then RegisterWrite(FAN_ADDR, FAN_DUTY_CYCLE, Clamp(speed))
    else ByteWrite(FAN_ADDR, Clamp(speed))
  }

  /** Whether the device takes the writes of the chosen protocol at all (as long as writes are left). */
  predicate Accepts(bus: SMBus, registersSupport: bool) {
    if registersSupport then bus.registerWritable else bus.byteWritable
  }

  /**
   * `set_fan_speed`: nothing without a bus; otherwise exactly one write of
   * the clamped speed, to the duty-cycle register or as a raw byte.
   */
  method SetFanSpeed(bus: SMBus?, speed: int, registersSupport: bool) returns (ok: bool)
    modifies bus
    ensures bus == null ==> ok
    ensures bus != null ==> ok == (Accepts(bus, registersSupport) && old(bus.writesLeft) > 0)
    ensures bus != null ==> bus.log == old(bus.log) + if ok then [Command(speed, registersSupport)] else []
    ensures bus != null ==> bus.writesLeft == if ok then old(bus.writesLeft) - 1 else old(bus.writesLeft)
    ensures bus != null ==>
              bus.dutyCycle == if ok && registersSupport && bus.registerLatches then Clamp(speed) else old(bus.dutyCycle)
  {
    if bus == null {
      return true;
    }
    var s := Clamp(speed);
    if registersSupport {
      ok := bus.WriteByteData(FAN_ADDR, FAN_DUTY_CYCLE, s);
    } else {
      ok := bus.WriteByte(FAN_ADDR, s);
    }
  }

  /** `turn_off_fan`: `set_fan_speed` with speed 0. */
  method TurnOffFan(bus: SMBus?, registersSupport: bool) returns (ok: bool)
    modifies bus
    ensures bus == null ==> ok
    ensures bus != null ==> ok == (Accepts(bus, registersSupport) && old(bus.writesLeft) > 0)
    ensures bus != null ==> bus.log == old(bus.log) + if ok then [Command(0, registersSupport)] else []
    ensures bus != null ==> bus.writesLeft == if ok then old(bus.writesLeft) - 1 else old(bus.writesLeft)
    ensures bus != null && ok ==> bus.log[|bus.log| - 1].value == 0
    ensures bus != null ==>
              bus.dutyCycle == if ok && registersSupport && bus.registerLatches then 0 else old(bus.dutyCycle)
  {
    ok := SetFanSpeed(bus, 0, registersSupport);
  }

  /** The value the probe writes: one more than the old one, or 98 from 100 up. */
  function ProbeValue(current: int): (r: int)
    ensures r != current
    ensures 0 <= current ==> 0 < r <= 100
  {
    if current < 100 then current + 1 else 98
  }

  /** The writes the probe leaves in the log of a device, given the register's value and the writes left before it. */
  function ProbeWrites(bus: SMBus, oldDuty: int, writesLeft: nat): seq<Write> {
    if bus.registerReadable && bus.registerWritable && writesLeft > 0
    then [RegisterWrite(FAN_ADDR, FAN_DUTY_CYCLE, ProbeValue(oldDuty))]
    else []
  }

  /** The verdict the probe reaches on a device in its current state. */
  predicate RegistersSupported(bus: SMBus?)
    reads bus
  {
    bus != null && bus.registerReadable && bus.registerWritable && bus.registerLatches && bus.writesLeft > 0
  }

  /**
   * `check_control_registers_support`: read the register, write the probe
   * value, read it back; supported exactly when the value read back differs
   * from the first one. Any exception gives false and goes no further.
   */
  method CheckControlRegistersSupport(bus: SMBus?) returns (supported: bool)
    modifies bus
    ensures bus == null ==> !supported
    ensures bus != null ==>
              supported == (bus.registerReadable && bus.log != old(bus.log) && bus.dutyCycle != old(bus.dutyCycle))
    ensures supported == old(RegistersSupported(bus))
    ensures bus != null ==> bus.log == old(bus.log) + ProbeWrites(bus, old(bus.dutyCycle), old(bus.writesLeft))
    ensures bus != null ==> bus.writesLeft == old(bus.writesLeft) - |ProbeWrites(bus, old(bus.dutyCycle), old(bus.writesLeft))|
    ensures bus != null ==> bus.dutyCycle == if supported then ProbeValue(old(bus.dutyCycle)) else old(bus.dutyCycle)
  {
    if bus == null {
      return false;
    }
    var before := bus.ReadByteData(FAN_ADDR, FAN_DUTY_CYCLE);
    if before.None? {
      return false;
    }
    var current := before.value;
    var probe := ProbeValue(current);
    var ok := bus.WriteByteData(FAN_ADDR, FAN_DUTY_CYCLE, probe);
    if !ok {
      return false;
    }
    var after := bus.ReadByteData(FAN_ADDR, FAN_DUTY_CYCLE);
    if after.None? {
      return false;
    }
    supported := after.value != current;
  }
}

/**
 * The SMBus device the program talks to: the fan controller at address
 * 0x1a, with its duty-cycle register 0x80. The bus library itself is not
 * part of this model; this class is the device as the program sees it, with
 * an explicit log of the writes it accepted.
 *
 * Which kinds of operation raise is fixed per device: a board revision
 * either answers register reads and writes or it does not. Beyond that the
 * device accepts only `writesLeft` more writes; once they are spent every
 * write raises, so a run can fail part-way, after earlier writes went
 * through. A register write either changes what a later read returns
 * (`registerLatches`) or is ignored. A raw byte write is taken not to change
 * what a read of the duty-cycle register returns.
 */
module Hardware {
  import opened Wrappers

  const FAN_ADDR: int := 0x1a
  const FAN_DUTY_CYCLE: int := 0x80

  /** A write the device accepted. */
  datatype Write =
    | RegisterWrite(addr: int, reg: int, value: int)
    | ByteWrite(addr: int, value: int)

  class SMBus {
    /** Every accepted write, oldest first. */
    var log: seq<Write>
    /** What a read of the duty-cycle register returns. */
    var dutyCycle: int
    /** How many more writes the device accepts before every write raises. */
    var writesLeft: nat
    const registerReadable: bool
    const registerWritable: bool
    const registerLatches: bool
    const byteWritable: bool

    constructor (dutyCycle: int, writesLeft: nat, registerReadable: bool, registerWritable: bool,
                 registerLatches: bool, byteWritable: bool)
      ensures log == [] && this.dutyCycle == dutyCycle && this.writesLeft == writesLeft
      ensures this.registerReadable == registerReadable && this.registerWritable == registerWritable
      ensures this.registerLatches == registerLatches && this.byteWritable == byteWritable
    {
      log := [];
      this.dutyCycle := dutyCycle;
      this.writesLeft := writesLeft;
      this.registerReadable := registerReadable;
      this.registerWritable := registerWritable;
      this.registerLatches := registerLatches;
      this.byteWritable := byteWritable;
    }

    /** `read_byte_data(addr, reg)`; None stands for the exception it raises. */
    method ReadByteData(addr: int, reg: int) returns (r: Option<int>)
      ensures r.Some? <==> addr == FAN_ADDR && reg == FAN_DUTY_CYCLE && registerReadable
      ensures r.Some? ==> r.value == dutyCycle
    {
      if addr == FAN_ADDR && reg == FAN_DUTY_CYCLE && registerReadable {
        r := Some(dutyCycle);
      } else {
        r := None;
      }
    }

    /** `write_byte_data(addr, reg, value)`; `ok` is false when it raises. */
    method WriteByteData(addr: int, reg: int, value: int) returns (ok: bool)
      modifies this
      ensures ok <==> addr == FAN_ADDR && reg == FAN_DUTY_CYCLE && registerWritable && old(writesLeft) > 0
      ensures log == old(log) + if ok then [RegisterWrite(addr, reg, value)] else []
      ensures writesLeft == if ok then old(writesLeft) - 1 else old(writesLeft)
      ensures dutyCycle == if ok && registerLatches then value else old(dutyCycle)
    {
      ok := addr == FAN_ADDR && reg == FAN_DUTY_CYCLE && registerWritable && writesLeft > 0;
      if ok {
        log := log + [RegisterWrite(addr, reg, value)];
        writesLeft := writesLeft - 1;
        if registerLatches {
          dutyCycle := value;
        }
      }
    }

    /** `write_byte(addr, value)`; `ok` is false when it raises. */
    method WriteByte(addr: int, value: int) returns (ok: bool)
      modifies this
      ensures ok <==> addr == FAN_ADDR && byteWritable && old(writesLeft) > 0
      ensures log == old(log) + if ok then [ByteWrite(addr, value)] else []
      ensures writesLeft == if ok then old(writesLeft) - 1 else old(writesLeft)
      ensures dutyCycle == old(dutyCycle)
    {
      ok := addr == FAN_ADDR && byteWritable && writesLeft > 0;
      if ok {
        log := log + [ByteWrite(addr, value)];
        writesLeft := writesLeft - 1;
      }
    }
  }
}

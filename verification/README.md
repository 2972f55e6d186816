# Argon One fan control in Dafny

This project models the fan-control engine of `argonone.py`, the daemon that
drives the fan of an Argon One case over the SMBus, and proves properties of
that model. It covers:

- **Threshold tables** (`thresholds.dfy`). `get_temp_values` builds each table
  by sorting the configured `(temperature, speed)` pairs in descending tuple
  order and then building a Python dict from them.
- **Speed evaluation** (`evaluation.dfy`). These are the two `for … break`
  scans of `control_fan` and the `max` of their results.
- **Configuration defaulting** (`config.dfy`). Lines 131-138 of `load_config`
  replace an unusable `cpu_temp` or `hdd_temp` section in place by
  `{enabled: False, fan_speed: {}}`.
- **The device** (`hardware.dfy`). The fan controller at address 0x1a, with its
  duty-cycle register 0x80, is a class with a log of the writes it accepted.
  Fixed per-device flags say which kinds of operation raise and whether a
  register write is seen by a later read. A count of writes left says when
  the device stops taking writes. A run can therefore fail part-way, for
  example on the target write right after a spin-up write that went through.
- **Actuation and the probe** (`fan.dfy`). This covers the clamp, `set_fan_speed`,
  `turn_off_fan` and `check_control_registers_support`.
- **The control loop** (`control.dfy`). This is `control_fan`, which keeps
  `prev_speed` (initially -1) as its state. It waits before a flat or falling
  target, skips actuation when the target is unchanged, and applies a change
  as a spin-up to 100 followed by the target. When stopped, it makes a final
  write of 0.

A missing bus is a null `SMBus?`. An exception raised by the bus is an `ok`
result of false. The sensors are inputs: the loop receives one `Sample` per
iteration and stops when the samples run out. Each `stop.wait(30)` is
recorded as a `Wait` event in the trace the loop returns. The trace is
specified by `Control.Run`, a function of the per-iteration targets, and the
bus log is the image of the trace's commands.

Some behaviour of the code is easy to misread; the model follows the code:

- **Duplicate temperatures.** Two configured keys can convert to the same
  integer. The later entry in the configuration does not win. After the
  descending sort, the pair that comes last for that key has the smallest
  speed, and the dict keeps it (`Thresholds.BuildTable`).
- **Non-table sections.** A section that is present but is not a table is
  not defaulted. `.get` on it raises, so `load_config` fails. It is modelled
  as the error result of `Config.Normalized`.
- **Storage source.** Whether the storage source is enabled depends on its
  `enabled` flag and on disks being found, not on its table being non-empty.
  A storage source that is enabled with an empty table contributes 0.
- **Speeds are not validated.** The configuration may hold any integer speed.
  Out-of-range values are clamped only when written, so a target may lie
  outside 0..100.
- **Uninterruptible sleeps.** The one-second `sleep` after each write cannot
  be interrupted by the stop event; only the 30-second waits can.
- **No cleanup after a failed write.** An exception from a write in the loop
  leaves `control_fan`, so `turn_off_fan` never runs. If the write of the
  target raises after the spin-up write went through, the fan stays at 100
  (`Control.ControlFan`).

## Model

| member | source | states |
|---|---|---|
| `Thresholds.SortDescending` | argonone.py:144 | `sorted(..., reverse=True)`: the result is in descending tuple order and is a permutation of the input |
| `Thresholds.DictFromSorted` | argonone.py:144 | for sorted pairs, `dict(...)` yields strictly descending keys, the same key set, entries that are configured pairs, and for each key the smallest configured speed; its last key is the last pair's |
| `Thresholds.BuildTable` | argonone.py:142-146 | a table has distinct, strictly descending temperatures, exactly the configured ones; every entry is a configured pair, and a duplicated temperature keeps its smallest speed |
| `Evaluation.FirstMatch` | argonone.py:101-104 | the `for … break` scan returns the speed of the first entry the temperature reaches, or 0 |
| `Evaluation.TargetSpeed` | argonone.py:111 | the target is at least each source's speed and equals one of them (the max) |
| `Evaluation.EvaluateTarget` | argonone.py:97-111 | one iteration's target: a disabled source contributes 0, an enabled one its scan, and the larger is taken |
| `Evaluation.LookupFirstMatch` | argonone.py:101-104 | if entry k is the first the temperature reaches, the speed is entry k's |
| `Evaluation.LookupNoMatch` | argonone.py:97-104 | if no entry is reached (in particular for an empty table) the speed is 0 |
| `Evaluation.LookupGreatest` | argonone.py:101-104 | on a strictly descending table, the speed is that of the greatest threshold not above the temperature |
| `Evaluation.LookupIsConfigured` | argonone.py:97-104 | every evaluated speed is 0 or a configured speed of the table |
| `Evaluation.LookupMonotonic` | argonone.py:101-104 | with non-negative speeds that do not fall as thresholds rise, a hotter sample never gives a lower speed |
| `Config.Normalized` | argonone.py:131-138 | a missing section, a falsy `enabled` or a non-dict `fan_speed` gives exactly the default; any other table is kept unchanged; a section that is not a table raises |
| `Config.NormalizedIdempotent` | argonone.py:131-138 | defaulting an already defaulted section changes nothing |
| `Config.Document.DefaultSections` | argonone.py:131-138 | replaces `cpu_temp` and then `hdd_temp` in place by their defaulted forms; on an exception, what was already replaced stays replaced and the rest is untouched; on success both sections are usable or default |
| `Config.GetTempValues` | argonone.py:142-146 | both tables are strictly descending with the configured temperatures, and a section switched off yields an empty table |
| `Hardware.SMBus.ReadByteData` | argonone.py:64-68 | a read of the fan's duty-cycle register returns its current value, unless the device raises |
| `Hardware.SMBus.WriteByteData` | argonone.py:66 | a register write raises unless the device takes register writes and has writes left; an accepted one is logged, uses up one write, and becomes what reads return if the register latches |
| `Hardware.SMBus.WriteByte` | argonone.py:81 | a raw byte write raises unless the device takes byte writes and has writes left; an accepted one is logged and uses up one write |
| `Fan.Clamp` | argonone.py:77 | the result lies in [0, 100]: the speed itself when in range, 100 above, 0 below |
| `Fan.ClampNearest` | argonone.py:77 | the clamped speed is the value of [0, 100] closest to the requested one |
| `Fan.Command` | argonone.py:77-81 | the single write goes to address 0x1a; its value is the clamped speed: the speed itself in range, 100 above, 0 below; it is a write to register 0x80 exactly when registers are supported |
| `Fan.SetFanSpeed` | argonone.py:74-82 | without a bus nothing happens; with a bus exactly one write of the clamped speed is logged in the chosen protocol, or the call raises and nothing is logged |
| `Fan.TurnOffFan` | argonone.py:85-86 | like `set_fan_speed` with 0: when it succeeds on a bus, the last logged write has value 0 |
| `Fan.ProbeValue` | argonone.py:65 | the probe value always differs from the value read, and lies in (0, 100] for any byte read |
| `Fan.CheckControlRegistersSupport` | argonone.py:60-71 | false without a bus; otherwise true exactly when the probe write went through and the re-read value differs from the first read, which happens exactly when the register is readable, writable and latches and a write is left; failures give false and log at most the probe write |
| `Control.SourcesOf` | argonone.py:92-94 | the storage source is off when no disks were found; a source switched off in the configuration has an empty table; both tables are strictly descending |
| `Control.Actuate` | argonone.py:117-118 | the write of 100 and then the write of the target are logged in that order; if the first raises, the second is not attempted; if the second raises, only the spin-up went through and the register holds 100 |
| `Control.Iterate` | argonone.py:97-119 | one iteration computes the target and produces exactly `Step(prev, target)` (no write when unchanged); a raising write cuts it short just before that command, with the log, the writes left and the register following the events |
| `Control.Respond` | argonone.py:112-119 | from `prev_speed` and a target: a wait before a flat or falling target, no write for an unchanged one, otherwise 100 then the target and a wait, so exactly `Step(prev, target)`; it completes exactly when nothing is written or the device takes the protocol and has two writes left, and otherwise stops just before the command that raised |
| `Control.Pass` | argonone.py:96-119 | one iteration advances the trace along `Run` of the targets, or ends it just before the command that raised; the bus log, the writes left and the register follow the trace |
| `Control.Loop` | argonone.py:95-119 | the loop produces `Run` of the targets up to the final write, or stops just before the command that raised; the log is the trace's writes |
| `Control.ControlLoop` | argonone.py:95-120 | a run stops normally exactly when the device takes the protocol's writes and has at least as many left as `Run` sends; it then produces exactly `Run` of the targets, and its last write is 0; otherwise it stops just before a command of `Run` that raised, with no final write, after only waits if the protocol is refused |
| `Control.ControlFan` | argonone.py:89-121 | the probe's write, then the run's writes, reach the log, and each uses up one of the device's writes; a crashed run stops just before a command of `Run` that the device then refuses, so the log is determined; the register ends at the last speed that went through under register control (0 after a normal stop, 100 when the write after a spin-up raised) and keeps its value otherwise |
| `Control.FirstIterationActuates` | argonone.py:95-118 | because the sentinel is -1, a first target of at least 0 is actuated at once, without a wait before |
| `Control.CommandedStep` | argonone.py:114-118 | an iteration commands its target exactly when the target differs from `prev_speed` |
| `Control.CommandedIsLastTarget` | argonone.py:112-118 | after any iterations, the last speed commanded is the last target, unless every target equalled the starting speed and nothing was commanded |
| `Control.StepWaits` | argonone.py:112-119 | an iteration waits once, or twice when the target falls |
| `Control.EveryIterationWaits` | argonone.py:112-119 | n iterations wait between n and 2n times, so the loop never spins without waiting |
| `Control.StepWrites` | argonone.py:114-118 | an iteration writes nothing when the target is unchanged, otherwise 100 and then the target, in that order |
| `Control.SentInRange` | argonone.py:117-120 | every write a run sends goes to address 0x1a with a value in [0, 100] |
| `Control.HysteresisExample` | argonone.py:95-120 | the targets 20, 20, 50, 10 give: actuate 20; wait; actuate 50; wait, actuate 10; final 0 |

## Left out

- `get_cpu_temp`, `get_hdd_devs` and `get_hdd_temp` read sysfs and run shell pipelines. Their results are inputs: a `Sample` per iteration and a flag saying whether disks were found.
- `init_bus` and the `smbus` library are not part of this model. The device is the `SMBus` class, and a missing bus is null.
- Faults are fixed per device and per kind of operation, plus a count of writes after which every write raises. A device whose writes fail and then succeed again is not modelled, and neither is a read that fails after an earlier read succeeded.
- `Control.ControlFan`: that a raw byte write leaves the value read from register 0x80 unchanged is an assumption about the device (`Hardware.SMBus.WriteByte`), not something the program states; without register control the claim that the register keeps its value rests on it.
- The timing is not modelled: `sleep(1)`, `stop.wait(30)`, the `Event`, the `Thread`, `join(5)` and the signal handlers. Waits appear only as `Wait` events. Stopping is the end of the samples, so a stop request that cuts a wait short is not distinguished from one that arrives at the next check.
- Reading the configuration file, the `CONFIG_FILE` environment lookup, TOML parsing and the `int()` conversions of keys and values are not modelled. `fan_speed` is given as integer pairs, and a failing conversion (which raises) is not modelled.
- Floating point is not modelled: temperatures are exact reals, so the rounding of `int(...)/1000` is not modelled.
- The bus's byte width is not modelled. Register values are unbounded integers, and only the writes the program issues are limited to [0, 100] by the clamp.
- `Config.Normalized`: TOML values are kept only as far as Python truthiness needs (a table's or an array's size, not its contents).

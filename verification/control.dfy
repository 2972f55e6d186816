/**
 * The control loop of `control_fan` in argonone.py.
 *
 * Sampling the sensors, the stop event and the waits are abstracted away:
 * the loop is fed one sample per iteration and stops when the samples run
 * out (the source checks the stop event only at the top of the loop; a wait
 * cut short by it does not skip the rest of the iteration). Each 30-second
 * wait is recorded as a `Wait` event beside the speed commands, so the
 * output of a run is a trace of events, and the bus log holds the writes
 * that the commands became.
 */
module Control {
  import opened Wrappers
  import opened Thresholds
  import opened Evaluation
  import opened Config
  import opened Hardware
  import opened Fan

  /** The initial `prev_speed`. */
  const UNSET: int := -1

  datatype Event = Wait | SetSpeed(speed: int)

  /** A run ends when stopped, or when a bus write raises and the exception leaves `control_fan`. */
  datatype Outcome = Stopped | Crashed

  /**
   * One iteration with `prev_speed` = prev and target speed `target`: wait
   * first unless the speed rises; then, unless it is unchanged, a spin-up
   * to 100, the target, and a wait. Afterwards `prev_speed` is the target.
   */
  function Step(prev: int, target: int): seq<Event> {
    (if prev >= target then [Wait] else [])
    + (if prev == target then [] else [SetSpeed(100), SetSpeed(target), Wait])
  }

  /** The iterations for a sequence of targets, starting from `prev_speed` = prev. */
  function Iterations(prev: int, targets: seq<int>): seq<Event>
    decreases |targets|
  {
    if targets == [] then []
    else Step(prev, targets[0]) + Iterations(targets[0], targets[1..])
  }

  /** A whole stopped run: the iterations from UNSET, then `turn_off_fan`. */
  function Run(targets: seq<int>): seq<Event> {
    Iterations(UNSET, targets) + [SetSpeed(0)]
  }

  /** The target speed of each iteration. */
  function Targets(src: Sources, samples: seq<Sample>): seq<int> {
    if samples == [] then []
    else [TargetSpeed(src, samples[0])] + Targets(src, samples[1..])
  }

  /** The bus writes one event becomes under a protocol. */
  function EventWrites(e: Event, registersSupport: bool): seq<Write> {
    match e
    case Wait => []
    case SetSpeed(v) => [Command(v, registersSupport)]
  }

  /** The bus writes a trace's commands become under a protocol. */
  function Sent(trace: seq<Event>, registersSupport: bool): seq<Write> {
    if trace == [] then []
    else
      var n := |trace| - 1;
      Sent(trace[..n], registersSupport) + EventWrites(trace[n], registersSupport)
  }

  /** The speed most recently commanded in a trace, if any. */
  function Commanded(trace: seq<Event>): Option<int> {
    if trace == [] then None
    else
      var n := |trace| - 1;
      match trace[n] case SetSpeed(v) => Some(v) case Wait => Commanded(trace[..n])
  }

  function WaitCount(trace: seq<Event>): nat {
    if trace == [] then 0
    else (if trace[0] == Wait then 1 else 0) + WaitCount(trace[1..])
  }

  predicate Quiet(trace: seq<Event>) {
    forall i :: 0 <= i < |trace| ==> trace[i] == Wait
  }

  /**
   * A crashed trace: a part of the run that stops just before one of its
   * commands, the write that raised. None of the run after it happens, the
   * final write of 0 included.
   */
  predicate CrashedBefore(trace: seq<Event>, run: seq<Event>) {
    |trace| < |run| && run[..|trace|] == trace && run[|trace|].SetSpeed?
  }

  /** The device state in which the next write of the protocol raises. */
  predicate Raises(bus: SMBus?, registersSupport: bool)
    reads bus
  {
    bus != null && (!Accepts(bus, registersSupport) || bus.writesLeft == 0)
  }

  /** The duty-cycle register after a trace, given its value before. */
  function LatchedDuty(oldDuty: int, trace: seq<Event>, registersSupport: bool, latches: bool): int {
    if registersSupport && latches && Commanded(trace).Some? then Clamp(Commanded(trace).value)
    else oldDuty
  }

  /**
   * Lines 117-118: the spin-up write of 100 followed by the write of the
   * target. `issued` holds the commands that went through. When the first
   * write raises, the second is never attempted; when the second raises,
   * the fan is left at the spin-up speed.
   */
  method Actuate(bus: SMBus?, target: int, registersSupport: bool) returns (ok: bool, issued: seq<Event>)
    modifies bus
    ensures ok <==> bus == null || (Accepts(bus, registersSupport) && old(bus.writesLeft) >= 2)
    ensures ok ==> issued == [SetSpeed(100), SetSpeed(target)]
    ensures !ok ==> Raises(bus, registersSupport)
    ensures !ok ==> issued == if Accepts(bus, registersSupport) && old(bus.writesLeft) == 1 then [SetSpeed(100)] else []
    ensures bus != null ==>
              bus.log == old(bus.log) + if ok then [Command(100, registersSupport), Command(target, registersSupport)]
                                        else if issued != [] then [Command(100, registersSupport)] else []
    ensures bus != null ==> bus.writesLeft == old(bus.writesLeft) - |issued|
    ensures bus != null ==>
              bus.dutyCycle == if registersSupport && bus.registerLatches && issued != []
                               then Clamp(issued[|issued| - 1].speed) else old(bus.dutyCycle)
  {
    ok := SetFanSpeed(bus, 100, registersSupport);
    if !ok {
      return false, [];
    }
    ok := SetFanSpeed(bus, target, registersSupport);
    issued := if ok then [SetSpeed(100), SetSpeed(target)] else [SetSpeed(100)];
  }

  /**
   * One pass of the loop body (lines 97-119) from `prev_speed` = prev: the
   * target of the sample, the events of the pass, and whether it ended
   * without an exception. A pass cut short by an exception is a part of
   * `Step` that stops just before the command that raised.
   */
  method Iterate(bus: SMBus?, registersSupport: bool, src: Sources, sample: Sample, prev: int)
    returns (ok: bool, target: int, events: seq<Event>)
    modifies bus
    ensures target == TargetSpeed(src, sample)
    ensures ok <==> prev == target || bus == null || (Accepts(bus, registersSupport) && old(bus.writesLeft) >= 2)
    ensures ok ==> events == Step(prev, target)
    ensures !ok ==> Raises(bus, registersSupport) && CrashedBefore(events, Step(prev, target))
    ensures bus != null ==>
              bus.log == old(bus.log) + Sent(events, registersSupport)
    ensures bus != null ==> bus.writesLeft == old(bus.writesLeft) - |Sent(events, registersSupport)|
    ensures bus != null ==>
              bus.dutyCycle == LatchedDuty(old(bus.dutyCycle), events, registersSupport, bus.registerLatches)
    ensures bus != null && !Accepts(bus, registersSupport) ==> Quiet(events)
  {
    target := EvaluateTarget(src, sample);
    ok, events := Respond(bus, registersSupport, prev, target);
  }

  /**
   * Lines 112-118: the response to a target from `prev_speed` = prev. A
   * flat or falling target is preceded by a wait, an unchanged one is not
   * actuated, and a changed one is actuated and followed by a wait.
   */
  method Respond(bus: SMBus?, registersSupport: bool, prev: int, target: int)
    returns (ok: bool, events: seq<Event>)
    modifies bus
    ensures ok <==> prev == target || bus == null || (Accepts(bus, registersSupport) && old(bus.writesLeft) >= 2)
    ensures ok ==> events == Step(prev, target)
    ensures !ok ==> Raises(bus, registersSupport) && CrashedBefore(events, Step(prev, target))
    ensures bus != null ==>
              bus.log == old(bus.log) + Sent(events, registersSupport)
    ensures bus != null ==> bus.writesLeft == old(bus.writesLeft) - |Sent(events, registersSupport)|
    ensures bus != null ==>
              bus.dutyCycle == LatchedDuty(old(bus.dutyCycle), events, registersSupport, bus.registerLatches)
    ensures bus != null && !Accepts(bus, registersSupport) ==> Quiet(events)
  {
    if prev == target {
      events := [Wait];
      NoActuation(events, registersSupport);
      return true, events;
    }
    var issued;
    ok, issued := Actuate(bus, target, registersSupport);
    events := if ok then Step(prev, target) else (if prev >= target then [Wait] else []) + issued;
    ActuatedStep(prev, target, issued, ok, events, registersSupport);
  }

  /**
   * The events of an iteration that actuated, from the commands that went
   * through: all of `Step` when both did, otherwise a part of it that stops
   * just before the command that raised.
   */
  lemma ActuatedStep(prev: int, t: int, issued: seq<Event>, ok: bool, events: seq<Event>, registersSupport: bool)
    requires prev != t
    requires ok ==> issued == [SetSpeed(100), SetSpeed(t)]
    requires !ok ==> issued == [] || issued == [SetSpeed(100)]
    requires events == if ok then Step(prev, t) else (if prev >= t then [Wait] else []) + issued
    ensures Sent(events, registersSupport) ==
              if ok then [Command(100, registersSupport), Command(t, registersSupport)]
              else if issued != [] then [Command(100, registersSupport)] else []
    ensures |Sent(events, registersSupport)| == |issued|
    ensures Commanded(events) == if issued == [] then None else Some(issued[|issued| - 1].speed)
    ensures issued == [] ==> Quiet(events)
    ensures !ok ==> CrashedBefore(events, Step(prev, t))
  {
    var before: seq<Event> := if prev >= t then [Wait] else [];
    assert Step(prev, t) == before + [SetSpeed(100), SetSpeed(t), Wait];
    if ok {
      Actuated(events, t, registersSupport);
    } else {
      CutShort(before, issued, t, registersSupport);
    }
  }

  /** The events of an iteration whose actuation raised: the wait before, if any, and at most the spin-up. */
  lemma CutShort(before: seq<Event>, issued: seq<Event>, t: int, registersSupport: bool)
    requires before == [] || before == [Wait]
    requires issued == [] || issued == [SetSpeed(100)]
    ensures Sent(before + issued, registersSupport) == if issued == [] then [] else [Command(100, registersSupport)]
    ensures Commanded(before + issued) == if issued == [] then None else Some(100)
    ensures issued == [] ==> Quiet(before + issued)
    ensures CrashedBefore(before + issued, before + [SetSpeed(100), SetSpeed(t), Wait])
  {
    NoActuation(before, registersSupport);
    var events := before + issued;
    if issued == [] {
      assert events == before;
    } else {
      SentSnoc(before, SetSpeed(100), registersSupport);
      CommandedSnoc(before, SetSpeed(100));
    }
    var step := before + [SetSpeed(100), SetSpeed(t), Wait];
    assert step[..|events|] == events;
  }

  /**
   * The `while not stop.is_set()` loop (lines 96-119), one iteration per
   * sample. `ok` is false when a write raised; the trace then ends just
   * before the command of the run that raised.
   */
  method Loop(bus: SMBus?, registersSupport: bool, src: Sources, samples: seq<Sample>)
    returns (ok: bool, trace: seq<Event>)
    modifies bus
    ensures ok ==> Run(Targets(src, samples)) == trace + [SetSpeed(0)]
    ensures !ok ==> Raises(bus, registersSupport) && CrashedBefore(trace, Run(Targets(src, samples)))
    ensures bus != null && !Accepts(bus, registersSupport) ==> Quiet(trace)
    ensures bus != null ==> bus.log == old(bus.log) + Sent(trace, registersSupport)
    ensures bus != null ==> bus.writesLeft == old(bus.writesLeft) - |Sent(trace, registersSupport)|
    ensures bus != null ==>
              bus.dutyCycle == LatchedDuty(old(bus.dutyCycle), trace, registersSupport, bus.registerLatches)
  {
    ghost var run := Run(Targets(src, samples));
    ghost var log0 := if bus != null then bus.log else [];
    ghost var duty0 := if bus != null then bus.dutyCycle else 0;
    ghost var left0 := if bus != null then bus.writesLeft else 0;
    var prev := UNSET;
    trace := [];
    var i := 0;
    while i < |samples|
      invariant 0 <= i <= |samples|
      invariant run == trace + Iterations(prev, Targets(src, samples[i..])) + [SetSpeed(0)]
      invariant bus != null ==> bus.log == log0 + Sent(trace, registersSupport)
      invariant bus != null ==> bus.writesLeft == left0 - |Sent(trace, registersSupport)|
      invariant bus != null ==> bus.dutyCycle == LatchedDuty(duty0, trace, registersSupport, bus.registerLatches)
      invariant bus != null && !Accepts(bus, registersSupport) ==> Quiet(trace)
    {
      var passed, target, events := Pass(bus, registersSupport, src, samples[i..], prev, run, trace, log0, left0, duty0);
      assert samples[i..][1..] == samples[i + 1..];
      trace := trace + events;
      if !passed {
        return false, trace;
      }
      prev := target;
      i := i + 1;
    }
    ok := true;
  }

  /**
   * One iteration of the loop, for the samples still to come, stated as
   * progress through the run: the trace so far grows by the events of the
   * iteration, and the bus log, the writes left and the register follow it.
   */
  method Pass(bus: SMBus?, registersSupport: bool, src: Sources, rest: seq<Sample>, prev: int,
              ghost run: seq<Event>, ghost trace: seq<Event>, ghost log0: seq<Write>, ghost left0: int, ghost duty0: int)
    returns (ok: bool, target: int, events: seq<Event>)
    requires rest != []
    requires run == trace + Iterations(prev, Targets(src, rest)) + [SetSpeed(0)]
    requires bus != null ==> bus.log == log0 + Sent(trace, registersSupport)
    requires bus != null ==> bus.writesLeft == left0 - |Sent(trace, registersSupport)|
    requires bus != null ==> bus.dutyCycle == LatchedDuty(duty0, trace, registersSupport, bus.registerLatches)
    requires bus != null && !Accepts(bus, registersSupport) ==> Quiet(trace)
    modifies bus
    ensures target == TargetSpeed(src, rest[0])
    ensures ok ==> run == trace + events + Iterations(target, Targets(src, rest[1..])) + [SetSpeed(0)]
    ensures !ok ==> Raises(bus, registersSupport) && CrashedBefore(trace + events, run)
    ensures bus != null ==> bus.log == log0 + Sent(trace + events, registersSupport)
    ensures bus != null ==> bus.writesLeft == left0 - |Sent(trace + events, registersSupport)|
    ensures bus != null ==>
              bus.dutyCycle == LatchedDuty(duty0, trace + events, registersSupport, bus.registerLatches)
    ensures bus != null && !Accepts(bus, registersSupport) ==> Quiet(trace + events)
  {
    ok, target, events := Iterate(bus, registersSupport, src, rest[0], prev);
    Advance(run, trace, prev, src, rest, events, ok);
    Extend(trace, events, registersSupport);
  }

  /**
   * The loop and the final `turn_off_fan` (lines 96-120), with the probe
   * verdict already known. It issues exactly the commands of `Run` for the
   * targets of the samples when the device takes the protocol's writes and
   * has enough of them left; otherwise it stops at the write that raises,
   * with every write left spent, and the final write of 0 never happens.
   */
  method ControlLoop(bus: SMBus?, registersSupport: bool, src: Sources, samples: seq<Sample>)
    returns (outcome: Outcome, trace: seq<Event>)
    modifies bus
    ensures outcome == Stopped <==>
              bus == null
              || (Accepts(bus, registersSupport)
                  && old(bus.writesLeft) >= |Sent(Run(Targets(src, samples)), registersSupport)|)
    ensures outcome == Stopped ==> trace == Run(Targets(src, samples))
    ensures outcome == Crashed ==> Raises(bus, registersSupport) && CrashedBefore(trace, Run(Targets(src, samples)))
    ensures bus != null && !Accepts(bus, registersSupport) ==> Quiet(trace)
    ensures bus != null ==> bus.log == old(bus.log) + Sent(trace, registersSupport)
    ensures bus != null ==> bus.writesLeft == old(bus.writesLeft) - |Sent(trace, registersSupport)|
    ensures bus != null && outcome == Stopped ==> |bus.log| > 0 && bus.log[|bus.log| - 1] == Command(0, registersSupport)
    ensures bus != null ==>
              bus.dutyCycle == LatchedDuty(old(bus.dutyCycle), trace, registersSupport, bus.registerLatches)
  {
    ghost var run := Run(Targets(src, samples));
    var ok;
    ok, trace := Loop(bus, registersSupport, src, samples);
    if !ok {
      CrashedSendsLess(trace, run, registersSupport);
      return Crashed, trace;
    }
    ok := TurnOffFan(bus, registersSupport);
    if !ok {
      assert run[..|trace|] == trace;
      CrashedSendsLess(trace, run, registersSupport);
      return Crashed, trace;
    }
    SentSnoc(trace, SetSpeed(0), registersSupport);
    CommandedSnoc(trace, SetSpeed(0));
    trace := trace + [SetSpeed(0)];
    outcome := Stopped;
  }

  /** A crashed trace sent fewer writes than the whole run would have. */
  lemma CrashedSendsLess(trace: seq<Event>, run: seq<Event>, registersSupport: bool)
    requires CrashedBefore(trace, run)
    ensures |Sent(trace, registersSupport)| < |Sent(run, registersSupport)|
  {
    var n := |trace|;
    assert run == (trace + [run[n]]) + run[n + 1..];
    SentAppend(trace + [run[n]], run[n + 1..], registersSupport);
    SentSnoc(trace, run[n], registersSupport);
  }

  /**
   * The run after one iteration: when it completed, the rest of the run is
   * the iterations of the remaining targets; when a write raised, the trace
   * stops just before a command of the run.
   */
  lemma Advance(run: seq<Event>, trace: seq<Event>, prev: int, src: Sources, rest: seq<Sample>,
                events: seq<Event>, ok: bool)
    requires rest != []
    requires run == trace + Iterations(prev, Targets(src, rest)) + [SetSpeed(0)]
    requires ok ==> events == Step(prev, TargetSpeed(src, rest[0]))
    requires !ok ==> CrashedBefore(events, Step(prev, TargetSpeed(src, rest[0])))
    ensures ok ==> run == trace + events + Iterations(TargetSpeed(src, rest[0]), Targets(src, rest[1..])) + [SetSpeed(0)]
    ensures !ok ==> CrashedBefore(trace + events, run)
  {
    var t := TargetSpeed(src, rest[0]);
    var next := Iterations(t, Targets(src, rest[1..]));
    Unfold(prev, src, rest);
    Regroup(trace, Step(prev, t), next, [SetSpeed(0)]);
    if !ok {
      HeadPrefix(trace + Step(prev, t), next + [SetSpeed(0)], run);
      CrashedExtends(trace, events, Step(prev, t), run);
    }
  }

  /** Regrouping of the run's pieces, stated apart to keep the proof of `Advance` small. */
  lemma Regroup(a: seq<Event>, b: seq<Event>, c: seq<Event>, d: seq<Event>)
    ensures a + (b + c) + d == a + b + c + d
    ensures a + b + c + d == (a + b) + (c + d)
  {
  }

  /** The iterations of a sequence of targets: the first iteration, then the rest. */
  lemma Unfold(prev: int, src: Sources, rest: seq<Sample>)
    requires rest != []
    ensures Iterations(prev, Targets(src, rest)) ==
              Step(prev, TargetSpeed(src, rest[0])) + Iterations(TargetSpeed(src, rest[0]), Targets(src, rest[1..]))
  {
    var ts := Targets(src, rest);
    assert ts[0] == TargetSpeed(src, rest[0]) && ts[1..] == Targets(src, rest[1..]);
  }

  /** The head of a concatenation is its prefix, stated apart to keep the proof of `Advance` small. */
  lemma HeadPrefix(head: seq<Event>, tail: seq<Event>, run: seq<Event>)
    requires run == head + tail
    ensures |head| <= |run| && run[..|head|] == head
  {
  }

  /** A part of one stretch of a run that stops before a command stays so inside the whole run. */
  lemma CrashedExtends(trace: seq<Event>, events: seq<Event>, step: seq<Event>, run: seq<Event>)
    requires CrashedBefore(events, step)
    requires |trace + step| <= |run| && run[..|trace + step|] == trace + step
    ensures CrashedBefore(trace + events, run)
  {
    var n := |trace + events|;
    forall i | 0 <= i < n ensures run[i] == (trace + events)[i] {
      assert run[i] == (trace + step)[i];
      if i >= |trace| {
        assert events[i - |trace|] == step[..|events|][i - |trace|];
      }
    }
    assert run[..n] == trace + events;
    assert run[n] == (trace + step)[n];
  }

  /** What appending an iteration's events does to the writes, the last command and quietness. */
  lemma Extend(trace: seq<Event>, events: seq<Event>, registersSupport: bool)
    ensures Sent(trace + events, registersSupport) == Sent(trace, registersSupport) + Sent(events, registersSupport)
    ensures Commanded(trace + events) == if Commanded(events).Some? then Commanded(events) else Commanded(trace)
    ensures Quiet(trace) && Quiet(events) ==> Quiet(trace + events)
  {
    SentAppend(trace, events, registersSupport);
    CommandedAppend(trace, events);
  }

  /** Appending one event to a trace: its writes. */
  lemma SentSnoc(trace: seq<Event>, e: Event, registersSupport: bool)
    ensures Sent(trace + [e], registersSupport) == Sent(trace, registersSupport) + EventWrites(e, registersSupport)
  {
    assert (trace + [e])[..|trace|] == trace;
  }

  /** Appending one event to a trace: the speed last commanded. */
  lemma CommandedSnoc(trace: seq<Event>, e: Event)
    ensures Commanded(trace + [e]) == if e.SetSpeed? then Some(e.speed) else Commanded(trace)
  {
    assert (trace + [e])[..|trace|] == trace;
  }

  lemma {:induction false} SentAppend(a: seq<Event>, b: seq<Event>, registersSupport: bool)
    ensures Sent(a + b, registersSupport) == Sent(a, registersSupport) + Sent(b, registersSupport)
  {
    if b != [] {
      var n := |b| - 1;
      assert (a + b)[..|a + b| - 1] == a + b[..n];
      SentAppend(a, b[..n], registersSupport);
    } else {
      assert a + b == a;
    }
  }

  lemma {:induction false} CommandedAppend(a: seq<Event>, b: seq<Event>)
    ensures Commanded(a + b) == if Commanded(b).Some? then Commanded(b) else Commanded(a)
  {
    if b != [] {
      var n := |b| - 1;
      assert (a + b)[..|a + b| - 1] == a + b[..n];
      CommandedAppend(a, b[..n]);
    } else {
      assert a + b == a;
    }
  }

  /** The events of an iteration whose target is unchanged: at most a wait, no write. */
  lemma NoActuation(events: seq<Event>, registersSupport: bool)
    requires events == [] || events == [Wait]
    ensures Sent(events, registersSupport) == []
    ensures Commanded(events) == None
    ensures Quiet(events)
  {
    if events != [] {
      assert events[..0] == [];
    }
  }

  /** The events of an iteration that actuated the target t: the spin-up write, then t. */
  lemma Actuated(events: seq<Event>, t: int, registersSupport: bool)
    requires events == [SetSpeed(100), SetSpeed(t), Wait] || events == [Wait, SetSpeed(100), SetSpeed(t), Wait]
    ensures Sent(events, registersSupport) == [Command(100, registersSupport), Command(t, registersSupport)]
    ensures Commanded(events) == Some(t)
  {
    var spinUp := [SetSpeed(100), SetSpeed(t), Wait];
    var first := [SetSpeed(100)];
    assert first[..0] == [];
    assert Sent(first, registersSupport) == [Command(100, registersSupport)];
    assert spinUp[..2][..1] == first;
    assert Sent(spinUp[..2], registersSupport) == [Command(100, registersSupport), Command(t, registersSupport)];
    assert spinUp[..2] == first + [SetSpeed(t)];
    if events != spinUp {
      assert events == [Wait] + spinUp;
      NoActuation([Wait], registersSupport);
      Extend([Wait], spinUp, registersSupport);
    }
  }

  /**
   * The sources `control_fan` sets up from the configuration (lines 92-94):
   * the HDD source is off when no disks were found, a source switched off in
   * the configuration has an empty table, and both tables are proper lookup
   * tables.
   */
  function SourcesOf(settings: Settings, hddDevsFound: bool): (r: Sources)
    requires settings.Valid()
    ensures r.cpuEnabled == Truthy(settings.cpuTemp.enabled)
    ensures r.hddEnabled <==> hddDevsFound && Truthy(settings.hddTemp.enabled)
    ensures !r.cpuEnabled ==> r.cpuTable == []
    ensures !Truthy(settings.hddTemp.enabled) ==> r.hddTable == []
    ensures StrictlyDescending(r.cpuTable) && StrictlyDescending(r.hddTable)
  {
    var tables := GetTempValues(settings);
    Sources(Truthy(settings.cpuTemp.enabled), tables.0,
            hddDevsFound && Truthy(settings.hddTemp.enabled), tables.1)
  }

  /**
   * `control_fan`: probe the device, build the tables, run the loop. A run
   * that stops normally leaves the duty-cycle register at 0 under register
   * control and untouched otherwise; a crashed run leaves it at the last
   * speed that went through, which is 100 when the write after the spin-up
   * raised.
   */
  method ControlFan(bus: SMBus?, settings: Settings, hddDevsFound: bool, samples: seq<Sample>)
    returns (outcome: Outcome, trace: seq<Event>)
    requires settings.Valid()
    modifies bus
    ensures outcome == Stopped <==>
              bus == null
              || (Accepts(bus, old(RegistersSupported(bus)))
                  && old(bus.writesLeft) - |ProbeWrites(bus, old(bus.dutyCycle), old(bus.writesLeft))|
                     >= |Sent(Run(Targets(SourcesOf(settings, hddDevsFound), samples)), old(RegistersSupported(bus)))|)
    ensures outcome == Stopped ==> trace == Run(Targets(SourcesOf(settings, hddDevsFound), samples))
    ensures outcome == Crashed ==> CrashedBefore(trace, Run(Targets(SourcesOf(settings, hddDevsFound), samples)))
    ensures outcome == Crashed ==> Raises(bus, old(RegistersSupported(bus)))
    ensures bus != null ==>
              bus.writesLeft == old(bus.writesLeft) - |ProbeWrites(bus, old(bus.dutyCycle), old(bus.writesLeft))|
                                - |Sent(trace, old(RegistersSupported(bus)))|
    ensures bus != null ==>
              bus.log == old(bus.log) + ProbeWrites(bus, old(bus.dutyCycle), old(bus.writesLeft))
                         + Sent(trace, old(RegistersSupported(bus)))
    ensures bus != null ==>
              bus.dutyCycle == LatchedDuty(if old(RegistersSupported(bus)) then ProbeValue(old(bus.dutyCycle)) else old(bus.dutyCycle),
                                           trace, old(RegistersSupported(bus)), bus.registerLatches)
    ensures bus != null && outcome == Stopped ==>
              bus.dutyCycle == if old(RegistersSupported(bus)) then 0 else old(bus.dutyCycle)
  {
    var registersSupport := CheckControlRegistersSupport(bus);
    var src := SourcesOf(settings, hddDevsFound);
    outcome, trace := ControlLoop(bus, registersSupport, src, samples);
    if bus != null && registersSupport && outcome == Stopped {
      assert Commanded(trace) == Some(0);
    }
  }

  /**
   * Because the sentinel is -1, the first iteration with a target of at
   * least 0 actuates at once: spin-up, target, wait, with no wait before.
   */
  lemma FirstIterationActuates(ts: seq<int>)
    requires ts != [] && ts[0] >= 0
    ensures |Run(ts)| >= 3 && Run(ts)[..3] == [SetSpeed(100), SetSpeed(ts[0]), Wait]
  {
  }

  /** One iteration commands its target exactly when the target changes. */
  lemma CommandedStep(prev: int, target: int)
    ensures Commanded(Step(prev, target)) == if prev == target then None else Some(target)
  {
    if prev == target {
      NoActuation(Step(prev, target), false);
    } else {
      Actuated(Step(prev, target), target, false);
    }
  }

  /**
   * After any number of iterations the fan is commanded to the current
   * target: the last speed commanded is the last target, or nothing was
   * commanded at all because every target equalled the starting speed.
   */
  lemma {:induction false} CommandedIsLastTarget(p: int, ts: seq<int>)
    ensures Commanded(Iterations(p, ts)) ==
              if forall k :: 0 <= k < |ts| ==> ts[k] == p then None else Some(ts[|ts| - 1])
    decreases |ts|
  {
    if ts != [] {
      var rest := ts[1..];
      CommandedIsLastTarget(ts[0], rest);
      CommandedAppend(Step(p, ts[0]), Iterations(ts[0], rest));
      CommandedStep(p, ts[0]);
      var allRest := forall k :: 0 <= k < |rest| ==> rest[k] == ts[0];
      if allRest {
        assert forall k :: 0 <= k < |ts| ==> ts[k] == ts[0] by {
          forall k | 0 <= k < |ts| ensures ts[k] == ts[0] {
            if k > 0 { assert ts[k] == rest[k - 1]; }
          }
        }
        if rest != [] { assert ts[|ts| - 1] == rest[|rest| - 1]; }
      } else {
        assert ts[|ts| - 1] == rest[|rest| - 1];
        var k :| 0 <= k < |rest| && rest[k] != ts[0];
        assert ts[k + 1] != ts[0];
      }
    }
  }

  lemma {:induction false} WaitCountAppend(a: seq<Event>, b: seq<Event>)
    ensures WaitCount(a + b) == WaitCount(a) + WaitCount(b)
  {
    if a != [] {
      assert (a + b)[1..] == a[1..] + b;
      WaitCountAppend(a[1..], b);
    } else {
      assert a + b == b;
    }
  }

  /**
   * The loop never spins: every iteration waits at least once (before a
   * flat or falling target, or after actuating a rising one) and at most
   * twice (a falling target waits before and after).
   */
  lemma {:induction false} EveryIterationWaits(p: int, ts: seq<int>)
    ensures |ts| <= WaitCount(Iterations(p, ts)) <= 2 * |ts|
    decreases |ts|
  {
    if ts != [] {
      EveryIterationWaits(ts[0], ts[1..]);
      WaitCountAppend(Step(p, ts[0]), Iterations(ts[0], ts[1..]));
      StepWaits(p, ts[0]);
    }
  }

  /** One iteration waits once, or twice when the target falls. */
  lemma StepWaits(prev: int, target: int)
    ensures WaitCount(Step(prev, target)) == if prev > target then 2 else 1
  {
    var s := Step(prev, target);
    var last := [Wait];
    assert last[1..] == [];
    assert WaitCount(last) == 1;
    var actuation := [SetSpeed(100), SetSpeed(target)] + last;
    assert actuation[1..][1..] == last;
    assert WaitCount(actuation) == 1;
    if prev > target {
      assert s == last + actuation;
      assert s[1..] == actuation;
    } else if prev < target {
      assert s == actuation;
    } else {
      assert s == last;
    }
  }

  /**
   * The bus writes of one iteration: none when the target is unchanged,
   * otherwise the spin-up to 100 and then the clamped target, in that order.
   */
  lemma StepWrites(prev: int, target: int, registersSupport: bool)
    ensures Sent(Step(prev, target), registersSupport) ==
              if prev == target then [] else [Command(100, registersSupport), Command(target, registersSupport)]
  {
    if prev == target {
      NoActuation(Step(prev, target), registersSupport);
    } else {
      Actuated(Step(prev, target), target, registersSupport);
    }
  }

  /** Every write a run sends goes to the fan's address with a speed in [0, 100]. */
  lemma {:induction false} SentInRange(trace: seq<Event>, registersSupport: bool)
    ensures forall w :: w in Sent(trace, registersSupport) ==> w.addr == FAN_ADDR && 0 <= w.value <= 100
  {
    if trace != [] {
      SentInRange(trace[..|trace| - 1], registersSupport);
    }
  }

  /**
   * The targets [20, 20, 50, 10]: actuate to 20 at once; wait and do
   * nothing; actuate to 50 at once; wait, then actuate to 10; finally 0.
   */
  lemma HysteresisExample()
    ensures Run([20, 20, 50, 10]) ==
              [SetSpeed(100), SetSpeed(20), Wait,
               Wait,
               SetSpeed(100), SetSpeed(50), Wait,
               Wait, SetSpeed(100), SetSpeed(10), Wait,
               SetSpeed(0)]
  {
    assert [20, 20, 50, 10][1..] == [20, 50, 10];
    assert [20, 50, 10][1..] == [50, 10];
    assert [50, 10][1..] == [10];
  }
}

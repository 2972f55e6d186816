/**
 * Speed evaluation: the two `for ... break` scans and the `max` inside
 * `control_fan` in argonone.py. Temperatures are compared against the
 * integer thresholds exactly, so they are modelled as `real`.
 */
module Evaluation {
  import opened Thresholds

  /** One sample of the two temperature sources, in degrees. */
  datatype Sample = Sample(cpuTemp: real, hddTemp: real)

  /** What the loop knows about its sources once it has started. */
  datatype Sources = Sources(cpuEnabled: bool, cpuTable: seq<Threshold>,
                             hddEnabled: bool, hddTable: seq<Threshold>)

  /** The speed of the first entry whose temperature the sample reaches, else 0. */
  function Lookup(table: seq<Threshold>, temp: real): int {
    if table == [] then 0
    else if temp >= table[0].temp as real then table[0].speed
    else Lookup(table[1..], temp)
  }

  /** The scan over one table: `for t, s in table.items(): if temp >= t: speed = s; break`. */
  method FirstMatch(table: seq<Threshold>, temp: real) returns (speed: int)
    ensures speed == Lookup(table, temp)
  {
    speed := 0;
    var i := 0;
    while i < |table|
      invariant 0 <= i <= |table|
      invariant Lookup(table, temp) == Lookup(table[i..], temp)
    {
      if temp >= table[i].temp as real {
        speed := table[i].speed;
        break;
      }
      assert table[i..][1..] == table[i + 1..];
      i := i + 1;
    }
  }

  /** One source's contribution: 0 when the source is disabled. */
  function SourceSpeed(enabled: bool, table: seq<Threshold>, temp: real): int {
    if enabled then Lookup(table, temp) else 0
  }

  /** `max(cpu_new_speed, hdd_new_speed)`. */
  function TargetSpeed(src: Sources, s: Sample): (r: int)
    ensures r >= SourceSpeed(src.cpuEnabled, src.cpuTable, s.cpuTemp)
    ensures r >= SourceSpeed(src.hddEnabled, src.hddTable, s.hddTemp)
    ensures r == SourceSpeed(src.cpuEnabled, src.cpuTable, s.cpuTemp)
         || r == SourceSpeed(src.hddEnabled, src.hddTable, s.hddTemp)
  {
    var cpu := SourceSpeed(src.cpuEnabled, src.cpuTable, s.cpuTemp);
    var hdd := SourceSpeed(src.hddEnabled, src.hddTable, s.hddTemp);
    if cpu >= hdd then cpu else hdd
  }

  /**
   * Lines 97-111 of one iteration: each enabled source's scan, 0 for a
   * disabled one, and the larger of the two.
   */
  method EvaluateTarget(src: Sources, sample: Sample) returns (target: int)
    ensures target == TargetSpeed(src, sample)
  {
    var cpuSpeed := 0;
    if src.cpuEnabled {
      cpuSpeed := FirstMatch(src.cpuTable, sample.cpuTemp);
    }
    var hddSpeed := 0;
    if src.hddEnabled {
      hddSpeed := FirstMatch(src.hddTable, sample.hddTemp);
    }
    target := if cpuSpeed >= hddSpeed then cpuSpeed else hddSpeed;
  }

  /** The scan stops at the first entry the temperature reaches. */
  lemma {:induction false} LookupFirstMatch(table: seq<Threshold>, temp: real, k: int)
    requires 0 <= k < |table| && temp >= table[k].temp as real
    requires forall j :: 0 <= j < k ==> temp < table[j].temp as real
    ensures Lookup(table, temp) == table[k].speed
  {
    if k > 0 {
      LookupFirstMatch(table[1..], temp, k - 1);
    }
  }

  /** When no entry is reached, and in particular for an empty table, the speed is 0. */
  lemma {:induction false} LookupNoMatch(table: seq<Threshold>, temp: real)
    requires forall j :: 0 <= j < |table| ==> temp < table[j].temp as real
    ensures Lookup(table, temp) == 0
  {
    if table != [] {
      LookupNoMatch(table[1..], temp);
    }
  }

  /**
   * On a table sorted strictly descending, the speed is that of the greatest
   * threshold not above the temperature (the case of no such threshold is
   * `LookupNoMatch`).
   */
  lemma LookupGreatest(table: seq<Threshold>, temp: real, k: int)
    requires StrictlyDescending(table)
    requires 0 <= k < |table| && table[k].temp as real <= temp
    requires forall j :: 0 <= j < |table| && table[j].temp as real <= temp ==> table[j].temp <= table[k].temp
    ensures Lookup(table, temp) == table[k].speed
  {
    forall j | 0 <= j < k ensures temp < table[j].temp as real {
      assert table[j].temp > table[k].temp;
    }
    LookupFirstMatch(table, temp, k);
  }

  /** Every evaluated speed is 0 or a speed of the table. */
  lemma {:induction false} LookupIsConfigured(table: seq<Threshold>, temp: real)
    ensures Lookup(table, temp) == 0
         || exists i :: 0 <= i < |table| && Lookup(table, temp) == table[i].speed
  {
    if table != [] && temp < table[0].temp as real {
      LookupIsConfigured(table[1..], temp);
      if Lookup(table, temp) != 0 {
        var i :| 0 <= i < |table[1..]| && Lookup(table[1..], temp) == table[1..][i].speed;
        assert table[i + 1] == table[1..][i];
      }
    }
  }

  /**
   * For a table whose speeds are non-negative and do not decrease as the
   * temperature rises (non-crossing entries), a hotter sample never gives a
   * lower speed.
   */
  lemma {:induction false} LookupMonotonic(table: seq<Threshold>, t1: real, t2: real)
    requires forall i :: 0 <= i < |table| ==> table[i].speed >= 0
    requires forall i, j :: 0 <= i < j < |table| ==> table[i].speed >= table[j].speed
    requires t1 <= t2
    ensures Lookup(table, t1) <= Lookup(table, t2)
  {
    if table != [] {
      if t1 >= table[0].temp as real {
      } else if t2 >= table[0].temp as real {
        LookupIsConfigured(table[1..], t1);
      } else {
        LookupMonotonic(table[1..], t1, t2);
      }
    }
  }
}

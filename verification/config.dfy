/**
 * Section defaulting in `load_config` (argonone.py lines 131-138) and the
 * table construction `get_temp_values` that reads the defaulted sections.
 *
 * A section is the value of the top-level key `cpu_temp` or `hdd_temp` of
 * the parsed TOML document. Only the two keys the program reads are kept:
 * `enabled` and `fan_speed`; a `fan_speed` table is given as its items after
 * the integer conversion of keys and values.
 */
module Config {
  import opened Wrappers
  import opened Thresholds

  /**
   * A TOML value, kept to what Python's truthiness needs: for an array or
   * a table only its size matters.
   */
  datatype Value =
    | Bool(b: bool)
    | Integer(i: int)
    | Float(x: real)
    | Str(s: string)
    | Array(length: nat)
    | Table(size: nat)
    | DateTime

  /** Python's `bool(...)` of `section.get(key)`; a missing key reads as `None`. */
  predicate Truthy(v: Option<Value>) {
    match v
    case None => false
    case Some(Bool(b)) => b
    case Some(Integer(i)) => i != 0
    case Some(Float(x)) => x != 0.0
    case Some(Str(s)) => s != ""
    case Some(Array(n)) => n > 0
    case Some(Table(n)) => n > 0
    case Some(DateTime) => true
  }

  /** A value that is not a table: a TOML table always reads as a Python dict. */
  type NonTable = v: Value | !v.Table? witness Bool(false)

  /** The value under `fan_speed`: a table (a Python dict) or anything else. */
  datatype FanSpeed = Mapping(items: seq<Threshold>) | NotMapping(value: NonTable)

  datatype Section = Section(enabled: Option<Value>, fanSpeed: Option<FanSpeed>)

  /** A top-level entry of the document: a table, or a plain value. */
  datatype Item = TableItem(section: Section) | ValueItem(value: NonTable)

  /** `.get` on a value that is not a dict raises `AttributeError`. */
  datatype ConfigError = NotATable(value: Value)

  /** `{'enabled': False, 'fan_speed': {}}`. */
  const DEFAULT: Section := Section(Some(Bool(false)), Some(Mapping([])))

  /** A section the program can run with: enabled and holding a mapping. */
  predicate Usable(s: Section) {
    Truthy(s.enabled) && s.fanSpeed.Some? && s.fanSpeed.value.Mapping?
  }

  /** The shape every section has after defaulting. */
  predicate Defaulted(s: Section) {
    s == DEFAULT || Usable(s)
  }

  /**
   * What one `if` of `load_config` makes of a section. A missing section, a
   * falsy `enabled` or a `fan_speed` that is not a dict gives exactly
   * DEFAULT; any other table is kept as it is; a plain value makes the
   * condition raise.
   */
  function Normalized(item: Option<Item>): (r: Result<Section, ConfigError>)
    ensures r.Err? <==> item.Some? && item.value.ValueItem?
    ensures r == Ok(DEFAULT) <==> item.None? || (item.value.TableItem? && !Usable(item.value.section))
    ensures r.Ok? && r.value != DEFAULT ==> item == Some(TableItem(r.value))
    ensures r.Ok? ==> Defaulted(r.value)
  {
    match item
    case None => Ok(DEFAULT)
    case Some(ValueItem(v)) => Err(NotATable(v))
    case Some(TableItem(s)) =>
      if !Truthy(s.enabled) || !(s.fanSpeed.Some? && s.fanSpeed.value.Mapping?) then Ok(DEFAULT)
      else Ok(s)
  }

  /** Defaulting twice changes nothing. */
  lemma NormalizedIdempotent(item: Option<Item>)
    requires Normalized(item).Ok?
    ensures Normalized(Some(TableItem(Normalized(item).value))) == Normalized(item)
  {
  }

  /** The configuration the control loop receives. */
  datatype Settings = Settings(cpuTemp: Section, hddTemp: Section) {
    predicate Valid() {
      Defaulted(cpuTemp) && Defaulted(hddTemp)
    }
  }

  /** The parsed document, which `load_config` updates in place. */
  class Document {
    var cpuTemp: Option<Item>
    var hddTemp: Option<Item>

    constructor (cpuTemp: Option<Item>, hddTemp: Option<Item>)
      ensures this.cpuTemp == cpuTemp && this.hddTemp == hddTemp
    {
      this.cpuTemp := cpuTemp;
      this.hddTemp := hddTemp;
    }

    /**
     * Lines 131-138: replace each unusable section, `cpu_temp` first. A
     * section that is not a table raises, leaving what was already replaced
     * replaced and the rest untouched; `ok` is false then.
     */
    method DefaultSections() returns (ok: bool)
      modifies this
      ensures ok <==> Normalized(old(cpuTemp)).Ok? && Normalized(old(hddTemp)).Ok?
      ensures cpuTemp == if Normalized(old(cpuTemp)).Ok? then Some(TableItem(Normalized(old(cpuTemp)).value)) else old(cpuTemp)
      ensures hddTemp == if ok then Some(TableItem(Normalized(old(hddTemp)).value)) else old(hddTemp)
      ensures ok ==> Settings(cpuTemp.value.section, hddTemp.value.section).Valid()
    {
      var cpu := Normalized(cpuTemp);
      if cpu.Err? {
        return false;
      }
      cpuTemp := Some(TableItem(cpu.value));
      var hdd := Normalized(hddTemp);
      if hdd.Err? {
        return false;
      }
      hddTemp := Some(TableItem(hdd.value));
      ok := true;
    }
  }

  /** The items of a defaulted section's `fan_speed` dict. */
  function FanSpeedItems(s: Section): seq<Threshold>
    requires Defaulted(s)
  {
    s.fanSpeed.value.items
  }

  /**
   * `get_temp_values`: the CPU and the HDD table. A defaulted-away section
   * gives an empty table.
   */
  function GetTempValues(settings: Settings): (r: (seq<Threshold>, seq<Threshold>))
    requires settings.Valid()
    ensures StrictlyDescending(r.0) && StrictlyDescending(r.1)
    ensures Temps(r.0) == Temps(FanSpeedItems(settings.cpuTemp))
    ensures Temps(r.1) == Temps(FanSpeedItems(settings.hddTemp))
    ensures !Truthy(settings.cpuTemp.enabled) ==> r.0 == []
    ensures !Truthy(settings.hddTemp.enabled) ==> r.1 == []
  {
    (BuildTable(FanSpeedItems(settings.cpuTemp)), BuildTable(FanSpeedItems(settings.hddTemp)))
  }
}

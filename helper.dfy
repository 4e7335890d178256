/**
 * The per-unit logic of src/helper.rs: reading one property with
 * `systemctl show`, fetching status and journal text, resolving a unit's
 * configuration entry and deriving the dashboard record (`get_unit_info`).
 * Running a process is abstracted as `run: Command -> Spawn`.
 */
module Helper {
  import opened Wrappers
  import Utf8
  import opened Strings
  import opened Decimal
  import opened Process
  import opened Types
  import opened Uptime

  // ---- systemd_show_parse ----

  /** Why `systemd_show_parse` failed. */
  datatype ShowError =
    | NoOutput                                                // `output()` failed ("Unable to get STDOUT")
    | ExitFailure(status: ExitStatus, stderr: seq<Utf8.Byte>) // "systemctl failed (status: ..): <stderr>"
    | NotUtf8                                                 // `String::from_utf8` failed
    | BadValue(kind: IntErrorKind)                            // "Unable to parse value"

  /** `systemctl show <unit> --property <property> --value`. */
  function ShowCommand(unit: string, property: string): Command {
    Command("systemctl", ["show", unit, "--property", property, "--value"], [])
  }

  /**
   * The tail of `systemd_show_parse` for an unsigned type with maximum `max`:
   * a failed exit is an error, stdout must be UTF-8, trailing whitespace is
   * trimmed, and the rest must parse.
   */
  function ParseShowOutput(spawn: Spawn, max: nat): (r: Result<nat, ShowError>)
    ensures r.Ok? ==> r.value <= max
  {
    match spawn
    case SpawnFailed => Err(NoOutput)
    case Spawned(out) =>
      if !out.status.Success() then Err(ExitFailure(out.status, out.stderr))
      else
        match Utf8.Decode(out.stdout)
        case None => Err(NotUtf8)
        case Some(text) =>
          match ParseUnsigned(TrimEnd(text), max)
          case Ok(v) => Ok(v)
          case Err(kind) => Err(BadValue(kind))
  }

  /** `systemd_show_parse::<uN>(property, unit)` with `uN::MAX == max`. */
  function SystemdShowParse(run: Command -> Spawn, property: string, unit: string, max: nat): (r: Result<nat, ShowError>)
    ensures r.Ok? ==> r.value <= max
  {
    ParseShowOutput(run(ShowCommand(unit, property)), max)
  }

  /**
   * A query succeeds exactly when systemctl ran, exited successfully, wrote
   * UTF-8, and what it wrote is, up to trailing whitespace, a numeral in range;
   * the value is that numeral's.
   */
  lemma ShowOutputCharacterized(spawn: Spawn, max: nat)
    ensures ParseShowOutput(spawn, max).Ok? <==>
      && spawn.Spawned?
      && spawn.output.status.Success()
      && Utf8.Decode(spawn.output.stdout).Some?
      && IsNumeral(TrimEnd(Utf8.Decode(spawn.output.stdout).value))
      && Value(NumeralDigits(TrimEnd(Utf8.Decode(spawn.output.stdout).value))) <= max
    ensures ParseShowOutput(spawn, max).Ok? ==>
      ParseShowOutput(spawn, max).value == Value(NumeralDigits(TrimEnd(Utf8.Decode(spawn.output.stdout).value)))
  {
    if spawn.Spawned? && spawn.output.status.Success() && Utf8.Decode(spawn.output.stdout).Some? {
      ParseUnsignedCharacterized(TrimEnd(Utf8.Decode(spawn.output.stdout).value), max);
    }
  }

  /**
   * Round trip: when systemctl exits successfully printing a value in range
   * followed by any whitespace (typically a newline), the query yields that value.
   */
  lemma ShowOutputRoundTrip(v: nat, max: nat, padding: string, stderr: seq<Utf8.Byte>)
    requires v <= max && AllWhitespace(padding)
    ensures ParseShowOutput(Spawned(Output(Exited(0), Utf8.Encode(Dec(v) + padding), stderr)), max) == Ok(v)
  {
    Utf8.DecodeEncode(Dec(v) + padding);
    TrimEndOfPadded(Dec(v), padding);
    ParseDec(v, max);
  }

  // ---- systemd_status_html / journalctl_html ----

  /** Why fetching status or journal text failed. */
  datatype TextError = NoStdout | NonUtf8 | ConversionFailed

  /** `systemctl status <unit> --no-pager --lines 0 --full --legend=no`, with `SYSTEMD_COLORS=1`. */
  function StatusCommand(unit: string): Command {
    Command("systemctl", ["status", unit, "--no-pager", "--lines", "0", "--full", "--legend=no"], [("SYSTEMD_COLORS", "1")])
  }

  /** `journalctl -u <unit> --no-pager --lines 100`. */
  function JournalCommand(unit: string): Command {
    Command("journalctl", ["-u", unit, "--no-pager", "--lines", "100"], [])
  }

  /**
   * The common tail of `systemd_status_html` and `journalctl_html`: stdout
   * must be UTF-8 and `convert` (`ansi_to_html::convert`) must succeed. The
   * exit status is NOT inspected; `systemctl status` of an inactive unit exits
   * non-zero and its text is still used.
   */
  function CommandHtml(spawn: Spawn, convert: string -> Option<string>): (r: Result<string, TextError>)
    ensures r.Ok? ==> spawn.Spawned? && Utf8.Decode(spawn.output.stdout).Some?
  {
    match spawn
    case SpawnFailed => Err(NoStdout)
    case Spawned(out) =>
      match Utf8.Decode(out.stdout)
      case None => Err(NonUtf8)
      case Some(raw) =>
        match convert(raw)
        case None => Err(ConversionFailed)
        case Some(html) => Ok(html)
  }

  /** `systemd_status_html(unit)`. */
  function SystemdStatusHtml(run: Command -> Spawn, convert: string -> Option<string>, unit: string): (r: Result<string, TextError>)
    ensures r.Ok? ==> run(StatusCommand(unit)).Spawned?
  {
    CommandHtml(run(StatusCommand(unit)), convert)
  }

  /** `journalctl_html(unit)`. */
  function JournalctlHtml(run: Command -> Spawn, convert: string -> Option<string>, unit: string): (r: Result<string, TextError>)
    ensures r.Ok? ==> run(JournalCommand(unit)).Spawned?
  {
    CommandHtml(run(JournalCommand(unit)), convert)
  }

  /** Text output is converted whatever the exit status; only spawning, UTF-8 and conversion decide failure. */
  lemma CommandHtmlOfText(text: string, status: ExitStatus, stderr: seq<Utf8.Byte>, convert: string -> Option<string>)
    ensures CommandHtml(Spawned(Output(status, Utf8.Encode(text), stderr)), convert)
      == if convert(text).Some? then Ok(convert(text).value) else Err(ConversionFailed)
  {
    Utf8.DecodeEncode(text);
  }

  /**
   * All outcomes of the text tail: HTML exactly when the command was spawned,
   * its stdout is UTF-8 and the conversion succeeds; otherwise the first of
   * these that fails is the error.
   */
  lemma CommandHtmlCharacterized(spawn: Spawn, convert: string -> Option<string>)
    ensures CommandHtml(spawn, convert).Ok? <==>
      spawn.Spawned? && Utf8.Decode(spawn.output.stdout).Some? && convert(Utf8.Decode(spawn.output.stdout).value).Some?
    ensures CommandHtml(spawn, convert).Ok? ==>
      CommandHtml(spawn, convert).value == convert(Utf8.Decode(spawn.output.stdout).value).value
    ensures spawn.SpawnFailed? ==> CommandHtml(spawn, convert) == Err(NoStdout)
    ensures spawn.Spawned? && Utf8.Decode(spawn.output.stdout).None? ==> CommandHtml(spawn, convert) == Err(NonUtf8)
    ensures spawn.Spawned? && Utf8.Decode(spawn.output.stdout).Some? && convert(Utf8.Decode(spawn.output.stdout).value).None? ==>
      CommandHtml(spawn, convert) == Err(ConversionFailed)
  {
  }

  // ---- configuration lookup ----

  /**
   * The outcome of `config.iter().find(|a| a.service_name.rsplit_once(".").map(|n| n.0 == unit.name).unwrap())`:
   * the first entry whose base name is the unit's name, none, or a panic of
   * the `unwrap` on an entry without a `.` that is examined first.
   */
  datatype Lookup = Found(config: ServiceConfig) | NotFound | UnwrapPanic(serviceName: string)

  function FindConfig(unitName: string, configs: seq<ServiceConfig>): (r: Lookup)
    ensures r.Found? ==> r.config in configs && BaseName(r.config.serviceName) == Some(unitName)
    ensures r.UnwrapPanic? ==> exists i :: 0 <= i < |configs| && configs[i].serviceName == r.serviceName && Dot !in r.serviceName
    decreases |configs|
  {
    if configs == [] then NotFound
    else
      match BaseName(configs[0].serviceName)
      case None => UnwrapPanic(configs[0].serviceName)
      case Some(base) => if base == unitName then Found(configs[0]) else FindConfig(unitName, configs[1..])
  }

  /** Entry `i` is the first with base name `unitName`, and every entry before it has a base name. */
  ghost predicate FirstMatchAt(configs: seq<ServiceConfig>, unitName: string, i: int) {
    && 0 <= i < |configs|
    && BaseName(configs[i].serviceName) == Some(unitName)
    && forall j :: 0 <= j < i ==> BaseName(configs[j].serviceName).Some? && BaseName(configs[j].serviceName) != Some(unitName)
  }

  /**
   * The lookup finds exactly the first matching entry; on well-formed names
   * it never panics, and it finds an entry iff some entry matches.
   */
  lemma FindConfigSpec(unitName: string, configs: seq<ServiceConfig>)
    ensures FindConfig(unitName, configs).Found? <==> exists i :: FirstMatchAt(configs, unitName, i)
    ensures forall i :: FirstMatchAt(configs, unitName, i) ==> FindConfig(unitName, configs) == Found(configs[i])
    ensures WellFormedNames(configs) ==> !FindConfig(unitName, configs).UnwrapPanic?
    ensures WellFormedNames(configs) ==>
      (FindConfig(unitName, configs).Found? <==> exists i :: 0 <= i < |configs| && BaseName(configs[i].serviceName) == Some(unitName))
  {
    FindConfigFirstMatch(unitName, configs);
    if WellFormedNames(configs) {
      FindConfigWellFormed(unitName, configs);
    }
  }

  /** The first half of `FindConfigSpec`: found exactly at the first match. */
  lemma {:induction false} FindConfigFirstMatch(unitName: string, configs: seq<ServiceConfig>)
    ensures FindConfig(unitName, configs).Found? <==> exists i :: FirstMatchAt(configs, unitName, i)
    ensures forall i :: FirstMatchAt(configs, unitName, i) ==> FindConfig(unitName, configs) == Found(configs[i])
    decreases |configs|
  {
    if configs != [] {
      var tail := configs[1..];
      FindConfigFirstMatch(unitName, tail);
      forall i | FirstMatchAt(configs, unitName, i) && i > 0
        ensures FirstMatchAt(tail, unitName, i - 1)
      {
        forall j | 0 <= j < i - 1
          ensures BaseName(tail[j].serviceName).Some? && BaseName(tail[j].serviceName) != Some(unitName)
        {
          assert tail[j] == configs[j + 1];
        }
      }
      if BaseName(configs[0].serviceName).Some? && BaseName(configs[0].serviceName) != Some(unitName) {
        forall i | FirstMatchAt(tail, unitName, i)
          ensures FirstMatchAt(configs, unitName, i + 1)
        {
          forall j | 0 <= j < i + 1
            ensures BaseName(configs[j].serviceName).Some? && BaseName(configs[j].serviceName) != Some(unitName)
          {
            if j > 0 {
              assert configs[j] == tail[j - 1];
            }
          }
        }
      }
      if BaseName(configs[0].serviceName) == Some(unitName) {
        assert FirstMatchAt(configs, unitName, 0);
      }
    }
  }

  /** The second half of `FindConfigSpec`: with a `.` in every name, no panic, and found iff some entry matches. */
  lemma {:induction false} FindConfigWellFormed(unitName: string, configs: seq<ServiceConfig>)
    requires WellFormedNames(configs)
    ensures !FindConfig(unitName, configs).UnwrapPanic?
    ensures FindConfig(unitName, configs).Found? <==> exists i :: 0 <= i < |configs| && BaseName(configs[i].serviceName) == Some(unitName)
    decreases |configs|
  {
    if configs != [] {
      var tail := configs[1..];
      assert WellFormedNames(tail) by {
        forall j | 0 <= j < |tail|
          ensures Dot in tail[j].serviceName
        {
          assert tail[j] == configs[j + 1];
        }
      }
      FindConfigWellFormed(unitName, tail);
      assert Dot in configs[0].serviceName;
      forall i | 0 <= i < |tail| && BaseName(tail[i].serviceName) == Some(unitName)
        ensures BaseName(configs[i + 1].serviceName) == Some(unitName)
      {
        assert configs[i + 1] == tail[i];
      }
      if BaseName(configs[0].serviceName) != Some(unitName) {
        forall i | 0 <= i < |configs| && BaseName(configs[i].serviceName) == Some(unitName)
          ensures exists k :: 0 <= k < |tail| && BaseName(tail[k].serviceName) == Some(unitName)
        {
          assert i > 0 && tail[i - 1] == configs[i];
        }
      }
    }
  }

  /** A configuration `myapp.service` resolves unit `myapp`, and not unit `other`. */
  lemma FindConfigExamples(c: ServiceConfig)
    requires c.serviceName == "myapp.service"
    ensures FindConfig("myapp", [c]) == Found(c)
    ensures FindConfig("other", [c]) == NotFound
  {
    RSplitOnceUnique("myapp.service", Dot, "myapp", "service");
    assert [c][1..] == [];
  }

  // ---- get_unit_info ----

  const MainPidProperty := "MainPID"
  const StatusErrnoProperty := "StatusErrno"
  const StartTimestampProperty := "ExecMainStartTimestampMonotonic"

  /** Why `get_unit_info` gave no record. */
  datatype InfoError =
    | StartTimestampUnavailable(cause: ShowError)  // the `?` on the mandatory query
    | NoConfiguration(unitName: string)            // `find` found no entry
    | LookupPanic(serviceName: string)             // the `unwrap` in `find` panicked (not an error value in Rust)

  /**
   * `get_unit_info(unit, config)`. `MainPID` and `StatusErrno` are optional
   * (`.ok()`); `ExecMainStartTimestampMonotonic` is mandatory (`?`). Note
   * that `StatusErrno` is queried whether or not the service runs, and that
   * `running` is `main_pid != Some(0)`, so a PID that could not be read
   * counts as running.
   */
  function GetUnitInfo(unit: Unit, configs: seq<ServiceConfig>, run: Command -> Spawn, clock: Clock): (r: Result<ServiceInfo, InfoError>)
    ensures r.Ok? ==> r.value.config in configs && BaseName(r.value.config.serviceName) == Some(unit.name)
    ensures r.Ok? ==> ParseDuration(r.value.uptime).Some?
  {
    var mainPid: Option<U64> :=
      match SystemdShowParse(run, MainPidProperty, unit.name, U64Max)
      case Ok(v) => Some(v)
      case Err(_) => None;
    var statusCode: Option<U8> :=
      match SystemdShowParse(run, StatusErrnoProperty, unit.name, U8Max)
      case Ok(v) => Some(v)
      case Err(_) => None;
    match SystemdShowParse(run, StartTimestampProperty, unit.name, U64Max)
    case Err(e) => Err(StartTimestampUnavailable(e))
    case Ok(startMicros) =>
      var uptime := MonotonicUptime(startMicros, clock);
      match FindConfig(unit.name, configs)
      case NotFound => Err(NoConfiguration(unit.name))
      case UnwrapPanic(name) => Err(LookupPanic(name))
      case Found(config) =>
        Ok(ServiceInfo(
             config := config,
             status := StateLabel(unit.state),
             active := unit.active,
             enabled := unit.autoStart.Enabled? || unit.autoStart.EnabledRuntime?,
             running := mainPid != Some(0),
             pid := mainPid,
             statusCode := statusCode,
             uptime := uptime))
  }

  /**
   * Failure policy: a record exists exactly when the start-timestamp query
   * succeeds and a configuration entry matches; a failed timestamp query is
   * reported as such.
   */
  lemma UnitInfoFailurePolicy(unit: Unit, configs: seq<ServiceConfig>, run: Command -> Spawn, clock: Clock)
    ensures GetUnitInfo(unit, configs, run, clock).Ok? <==>
      SystemdShowParse(run, StartTimestampProperty, unit.name, U64Max).Ok? && exists i :: FirstMatchAt(configs, unit.name, i)
    ensures SystemdShowParse(run, StartTimestampProperty, unit.name, U64Max).Err? ==>
      GetUnitInfo(unit, configs, run, clock) == Err(StartTimestampUnavailable(SystemdShowParse(run, StartTimestampProperty, unit.name, U64Max).error))
  {
    FindConfigSpec(unit.name, configs);
  }

  /**
   * The optional queries never decide whether there is a record: two
   * environments that agree on the start-timestamp query give a record in
   * the same cases, with the same configuration, status, activity,
   * enablement and uptime.
   */
  lemma OptionalQueriesDoNotDecide(unit: Unit, configs: seq<ServiceConfig>, run1: Command -> Spawn, run2: Command -> Spawn, clock: Clock)
    requires run1(ShowCommand(unit.name, StartTimestampProperty)) == run2(ShowCommand(unit.name, StartTimestampProperty))
    ensures GetUnitInfo(unit, configs, run1, clock).Ok? == GetUnitInfo(unit, configs, run2, clock).Ok?
    ensures GetUnitInfo(unit, configs, run1, clock).Ok? ==>
      var a, b := GetUnitInfo(unit, configs, run1, clock).value, GetUnitInfo(unit, configs, run2, clock).value;
      a.config == b.config && a.status == b.status && a.active == b.active && a.enabled == b.enabled && a.uptime == b.uptime
  {
  }

  /** The record carries a copy of exactly the first matching configuration entry. */
  lemma UnitInfoConfig(unit: Unit, configs: seq<ServiceConfig>, run: Command -> Spawn, clock: Clock)
    ensures GetUnitInfo(unit, configs, run, clock).Ok? ==>
      exists i :: FirstMatchAt(configs, unit.name, i) && GetUnitInfo(unit, configs, run, clock).value.config == configs[i]
  {
    FindConfigSpec(unit.name, configs);
  }

  /**
   * The derived fields: `enabled` iff auto-start is Enabled or
   * EnabledRuntime; `status` is the load state's name; `active` is copied;
   * the uptime text denotes the elapsed seconds since the reported start.
   */
  lemma UnitInfoDerived(unit: Unit, configs: seq<ServiceConfig>, run: Command -> Spawn, clock: Clock)
    ensures GetUnitInfo(unit, configs, run, clock).Ok? ==>
      var info := GetUnitInfo(unit, configs, run, clock).value;
      && (info.enabled <==> unit.autoStart in {Enabled, EnabledRuntime})
      && info.status == (if unit.state == Loaded then "Loaded" else "Masked")
      && info.active == unit.active
      && ParseDuration(info.uptime) == Some(UptimeSeconds(SystemdShowParse(run, StartTimestampProperty, unit.name, U64Max).value, clock))
  {
  }

  /**
   * The PID: a failed `MainPID` query gives no PID and counts as running; a
   * reported PID is passed through, and the service counts as running iff it
   * is not 0.
   */
  lemma UnitInfoPid(unit: Unit, configs: seq<ServiceConfig>, run: Command -> Spawn, clock: Clock)
    ensures GetUnitInfo(unit, configs, run, clock).Ok? ==>
      var info := GetUnitInfo(unit, configs, run, clock).value;
      var q := SystemdShowParse(run, MainPidProperty, unit.name, U64Max);
      && (q.Err? ==> info.pid == None && info.running)
      && (q.Ok? ==> info.pid == Some(q.value) && (info.running <==> q.value != 0))
  {
  }

  /** The status code: a failed `StatusErrno` query gives none; a reported code, 0 included, is passed through. */
  lemma UnitInfoStatusCode(unit: Unit, configs: seq<ServiceConfig>, run: Command -> Spawn, clock: Clock)
    ensures GetUnitInfo(unit, configs, run, clock).Ok? ==>
      var info := GetUnitInfo(unit, configs, run, clock).value;
      var q := SystemdShowParse(run, StatusErrnoProperty, unit.name, U8Max);
      && (q.Err? ==> info.statusCode == None)
      && (q.Ok? ==> info.statusCode == Some(q.value))
  {
  }
}

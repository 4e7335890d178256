/**
 * The two request handlers of src/routes.rs, up to the data they hand to the
 * templates: the aggregation of all configured services (`handle_services`)
 * and the status/journal fetch for one service (`handle_service`).
 */
module Routes {
  import opened Wrappers
  import opened Collect
  import opened Process
  import opened Types
  import opened Uptime
  import opened Helper

  /**
   * Everything outside the program a request depends on: running commands,
   * the `systemctl` crate's `create_unit`, `ansi_to_html::convert`, and the
   * clock readings taken by the `i`-th call of `get_unit_info` in a request
   * (the source reads the boot time and the wall clock once per record).
   */
  datatype Host = Host(
    run: Command -> Spawn,
    createUnit: string -> Result<Unit, string>,
    convert: string -> Option<string>,
    clock: nat -> Clock)

  /** The outcomes of `create_unit` for each configured service, in configuration order. */
  function CreateResults(configs: seq<ServiceConfig>, createUnit: string -> Result<Unit, string>): (rs: seq<Result<Unit, string>>)
    ensures |rs| == |configs|
    ensures forall i :: 0 <= i < |configs| ==> rs[i] == createUnit(configs[i].serviceName)
  {
    seq(|configs|, i requires 0 <= i < |configs| => createUnit(configs[i].serviceName))
  }

  /** The first `filter_map` stage (also run at startup): the units that could be created; failures are logged and dropped. */
  function CreateUnits(configs: seq<ServiceConfig>, createUnit: string -> Result<Unit, string>): (units: seq<Unit>)
    ensures |units| <= |configs|
    ensures (forall i :: 0 <= i < |configs| ==> createUnit(configs[i].serviceName).Ok?) ==> |units| == |configs|
  {
    Successes(CreateResults(configs, createUnit))
  }

  /** The results of `get_unit_info` for each created unit, each against the FULL configuration list. */
  function UnitInfoResults(units: seq<Unit>, configs: seq<ServiceConfig>, host: Host): (rs: seq<Result<ServiceInfo, InfoError>>)
    ensures |rs| == |units|
    ensures forall j :: 0 <= j < |units| ==> rs[j] == GetUnitInfo(units[j], configs, host.run, host.clock(j))
  {
    seq(|units|, j requires 0 <= j < |units| => GetUnitInfo(units[j], configs, host.run, host.clock(j)))
  }

  /** Whether some `get_unit_info` call panicked in the `unwrap` of its lookup. */
  predicate AnyPanic(rs: seq<Result<ServiceInfo, InfoError>>) {
    exists j :: 0 <= j < |rs| && rs[j].Err? && rs[j].error.LookupPanic?
  }

  /** What a handler hands to its template, or a panic that aborts the request. */
  datatype Outcome = Rendered(services: seq<ServiceInfo>) | Panicked

  /** `handle_services`: the records of the services that could be created and described, in order. */
  function HandleServices(configs: seq<ServiceConfig>, host: Host): (r: Outcome)
    ensures r.Rendered? ==> |r.services| <= |configs|
  {
    var units := CreateUnits(configs, host.createUnit);
    var results := UnitInfoResults(units, configs, host);
    if AnyPanic(results) then Panicked else Rendered(Successes(results))
  }

  /** Creating units is done service by service: a concatenation gives the concatenation, so configuration order is kept. */
  lemma CreateUnitsAppend(a: seq<ServiceConfig>, b: seq<ServiceConfig>, createUnit: string -> Result<Unit, string>)
    ensures CreateUnits(a + b, createUnit) == CreateUnits(a, createUnit) + CreateUnits(b, createUnit)
  {
    assert CreateResults(a + b, createUnit) == CreateResults(a, createUnit) + CreateResults(b, createUnit);
    SuccessesAppend(CreateResults(a, createUnit), CreateResults(b, createUnit));
  }

  /** A service whose unit cannot be created is dropped without affecting any other service. */
  lemma CreateFailureIsolated(a: seq<ServiceConfig>, c: ServiceConfig, b: seq<ServiceConfig>, createUnit: string -> Result<Unit, string>)
    requires createUnit(c.serviceName).Err?
    ensures CreateUnits(a + [c] + b, createUnit) == CreateUnits(a, createUnit) + CreateUnits(b, createUnit)
  {
    var e := createUnit(c.serviceName).error;
    var ra, rb := CreateResults(a, createUnit), CreateResults(b, createUnit);
    var whole := CreateResults(a + [c] + b, createUnit);
    forall i | 0 <= i < |whole|
      ensures whole[i] == (ra + [Err(e)] + rb)[i]
    {
      if i < |a| {
        assert (a + [c] + b)[i] == a[i];
      } else if i == |a| {
        assert (a + [c] + b)[i] == c;
      } else {
        assert (a + [c] + b)[i] == b[i - |a| - 1];
      }
    }
    assert whole == ra + [Err(e)] + rb;
    SuccessesSkipFailure(ra, e, rb);
  }

  /** Every unit that was created comes from a configured service, and every one created is kept. */
  lemma CreateUnitsExact(configs: seq<ServiceConfig>, createUnit: string -> Result<Unit, string>)
    ensures |CreateUnits(configs, createUnit)| <= |configs|
    ensures forall u :: u in CreateUnits(configs, createUnit) ==>
      exists i :: 0 <= i < |configs| && createUnit(configs[i].serviceName) == Ok(u)
    ensures forall i :: 0 <= i < |configs| && createUnit(configs[i].serviceName).Ok? ==>
      createUnit(configs[i].serviceName).value in CreateUnits(configs, createUnit)
  {
    var rs := CreateResults(configs, createUnit);
    forall u | u in CreateUnits(configs, createUnit)
      ensures exists i :: 0 <= i < |configs| && createUnit(configs[i].serviceName) == Ok(u)
    {
      SuccessesSound(rs, u);
    }
    forall i | 0 <= i < |configs| && createUnit(configs[i].serviceName).Ok?
      ensures createUnit(configs[i].serviceName).value in CreateUnits(configs, createUnit)
    {
      SuccessesComplete(rs, i);
    }
  }

  /** On an accepted configuration (every name has a `.`) the aggregation never panics. */
  lemma HandleServicesNeverPanics(configs: seq<ServiceConfig>, host: Host)
    requires WellFormedNames(configs)
    ensures HandleServices(configs, host).Rendered?
  {
    var units := CreateUnits(configs, host.createUnit);
    var results := UnitInfoResults(units, configs, host);
    forall j | 0 <= j < |results|
      ensures !(results[j].Err? && results[j].error.LookupPanic?)
    {
      FindConfigSpec(units[j].name, configs);
    }
  }

  /**
   * The aggregation holds exactly the records `get_unit_info` produced, in
   * the order of the created units: positions `ps` of the successful calls
   * are increasing, record `k` is the result of call `ps[k]`, and every
   * successful call is among them.
   */
  lemma HandleServicesExact(configs: seq<ServiceConfig>, host: Host)
    ensures HandleServices(configs, host).Rendered? ==>
      var units := CreateUnits(configs, host.createUnit);
      var infos := HandleServices(configs, host).services;
      var ps := SuccessPositions(UnitInfoResults(units, configs, host));
      && |ps| == |infos|
      && (forall k :: 0 <= k < |ps| ==> ps[k] < |units| && GetUnitInfo(units[ps[k]], configs, host.run, host.clock(ps[k])) == Ok(infos[k]))
      && (forall k, l :: 0 <= k < l < |ps| ==> ps[k] < ps[l])
      && (forall j :: 0 <= j < |units| && GetUnitInfo(units[j], configs, host.run, host.clock(j)).Ok? ==> j in ps)
  {
    SuccessPositionsSpec(UnitInfoResults(CreateUnits(configs, host.createUnit), configs, host));
  }

  /**
   * Bounds and traceability: there are at most as many records as configured
   * services, and each record's configuration entry is configured and has a
   * created unit's name as base name.
   */
  lemma HandleServicesTraceable(configs: seq<ServiceConfig>, host: Host)
    ensures HandleServices(configs, host).Rendered? ==>
      var infos := HandleServices(configs, host).services;
      && |infos| <= |configs|
      && forall k :: 0 <= k < |infos| ==>
           && infos[k].config in configs
           && exists i :: 0 <= i < |configs| && host.createUnit(configs[i].serviceName).Ok?
                && BaseName(infos[k].config.serviceName) == Some(host.createUnit(configs[i].serviceName).value.name)
  {
    if HandleServices(configs, host).Rendered? {
      var units := CreateUnits(configs, host.createUnit);
      var results := UnitInfoResults(units, configs, host);
      var infos := HandleServices(configs, host).services;
      var ps := SuccessPositions(results);
      SuccessPositionsSpec(results);
      CreateUnitsExact(configs, host.createUnit);
      forall k | 0 <= k < |infos|
        ensures exists i :: 0 <= i < |configs| && host.createUnit(configs[i].serviceName).Ok?
                  && BaseName(infos[k].config.serviceName) == Some(host.createUnit(configs[i].serviceName).value.name)
      {
        var u := units[ps[k]];
        assert u in units;
        var i :| 0 <= i < |configs| && host.createUnit(configs[i].serviceName) == Ok(u);
      }
    }
  }

  /** If no unit can be created the page lists no service, and the request still completes. */
  lemma HandleServicesAllCreationsFail(configs: seq<ServiceConfig>, host: Host)
    requires forall i :: 0 <= i < |configs| ==> host.createUnit(configs[i].serviceName).Err?
    ensures HandleServices(configs, host) == Rendered([])
  {
  }

  /**
   * If every unit is created and every created unit yields a record, there
   * is one record per configured service.
   */
  lemma HandleServicesAllSucceed(configs: seq<ServiceConfig>, host: Host)
    requires forall i :: 0 <= i < |configs| ==> host.createUnit(configs[i].serviceName).Ok?
    requires var units := CreateUnits(configs, host.createUnit);
      forall j :: 0 <= j < |units| ==> GetUnitInfo(units[j], configs, host.run, host.clock(j)).Ok?
    ensures HandleServices(configs, host).Rendered? && |HandleServices(configs, host).services| == |configs|
  {
    var creates := CreateResults(configs, host.createUnit);
    assert forall i :: 0 <= i < |creates| ==> creates[i].Ok?;
    var units := CreateUnits(configs, host.createUnit);
    var results := UnitInfoResults(units, configs, host);
    assert forall j :: 0 <= j < |results| ==> results[j].Ok?;
    assert !AnyPanic(results);
  }

  /**
   * One record derived twice, the second time with a later reading of the
   * clock: it exists in the same cases, fails the same way, and differs at
   * most in an uptime that does not decrease.
   */
  lemma UnitInfoRepeatable(unit: Unit, configs: seq<ServiceConfig>, run: Command -> Spawn, c1: Clock, c2: Clock)
    requires c1.bootSecs == c2.bootSecs && c1.nowMicros <= c2.nowMicros
    ensures GetUnitInfo(unit, configs, run, c1).Ok? == GetUnitInfo(unit, configs, run, c2).Ok?
    ensures GetUnitInfo(unit, configs, run, c1).Err? ==> GetUnitInfo(unit, configs, run, c1) == GetUnitInfo(unit, configs, run, c2)
    ensures GetUnitInfo(unit, configs, run, c1).Ok? ==>
      var a, b := GetUnitInfo(unit, configs, run, c1).value, GetUnitInfo(unit, configs, run, c2).value;
      a.(uptime := "") == b.(uptime := "") && ParseDuration(a.uptime).value <= ParseDuration(b.uptime).value
  {
    var q := SystemdShowParse(run, StartTimestampProperty, unit.name, U64Max);
    if q.Ok? {
      UptimeMonotone(q.value, c1, c2);
    }
  }

  /**
   * Repeating the aggregation with the same services and later clock
   * readings gives the same records except for their uptimes, which do not
   * decrease.
   */
  lemma HandleServicesRepeatable(configs: seq<ServiceConfig>, h1: Host, h2: Host)
    requires h1.run == h2.run && h1.createUnit == h2.createUnit
    requires forall j: nat :: h1.clock(j).bootSecs == h2.clock(j).bootSecs && h1.clock(j).nowMicros <= h2.clock(j).nowMicros
    ensures HandleServices(configs, h1).Rendered? == HandleServices(configs, h2).Rendered?
    ensures HandleServices(configs, h1).Rendered? ==>
      var r1, r2 := HandleServices(configs, h1).services, HandleServices(configs, h2).services;
      && |r1| == |r2|
      && forall k :: 0 <= k < |r1| ==>
           && r1[k].(uptime := "") == r2[k].(uptime := "")
           && ParseDuration(r1[k].uptime).Some? && ParseDuration(r2[k].uptime).Some?
           && ParseDuration(r1[k].uptime).value <= ParseDuration(r2[k].uptime).value
  {
    var units := CreateUnits(configs, h1.createUnit);
    var rs1, rs2 := UnitInfoResults(units, configs, h1), UnitInfoResults(units, configs, h2);
    forall j | 0 <= j < |units|
      ensures rs1[j].Ok? == rs2[j].Ok?
      ensures rs1[j].Err? ==> rs1[j] == rs2[j]
      ensures rs1[j].Ok? ==> rs1[j].value.(uptime := "") == rs2[j].value.(uptime := "")
      ensures rs1[j].Ok? ==> ParseDuration(rs1[j].value.uptime).value <= ParseDuration(rs2[j].value.uptime).value
    {
      UnitInfoRepeatable(units[j], configs, h1.run, h1.clock(j), h2.clock(j));
    }
    assert AnyPanic(rs1) == AnyPanic(rs2);
    SamePositions(rs1, rs2);
    SuccessPositionsSpec(rs1);
    SuccessPositionsSpec(rs2);
  }

  // ---- handle_service ----

  /** What `handle_service` hands to its template: the status and journal text, each possibly missing. */
  datatype ServicePage = ServicePage(status: Option<string>, journal: Option<string>)

  /**
   * `handle_service(service)`: status text and journal text are fetched
   * independently and each failure becomes None. The path parameter is used
   * as it is, and the journal is fetched whatever `show_logs` says: the
   * configuration is not consulted at all.
   */
  function HandleService(service: string, configs: seq<ServiceConfig>, host: Host): (page: ServicePage)
    ensures page.status.Some? ==> host.run(StatusCommand(service)).Spawned?
    ensures page.journal.Some? ==> host.run(JournalCommand(service)).Spawned?
  {
    ServicePage(
      SystemdStatusHtml(host.run, host.convert, service).ToOption(),
      JournalctlHtml(host.run, host.convert, service).ToOption())
  }

  /**
   * Each of the two texts depends only on its own command: changing what the
   * other command yields, or the configuration, changes nothing.
   */
  lemma HandleServiceIndependent(service: string, c1: seq<ServiceConfig>, c2: seq<ServiceConfig>, h1: Host, h2: Host)
    requires h1.convert == h2.convert
    ensures h1.run(StatusCommand(service)) == h2.run(StatusCommand(service)) ==>
      HandleService(service, c1, h1).status == HandleService(service, c2, h2).status
    ensures h1.run(JournalCommand(service)) == h2.run(JournalCommand(service)) ==>
      HandleService(service, c1, h1).journal == HandleService(service, c2, h2).journal
  {
  }

  /** A failed fetch shows as a missing text, the other text being unaffected. */
  lemma HandleServiceDegrades(service: string, configs: seq<ServiceConfig>, host: Host)
    ensures HandleService(service, configs, host).status.None? <==> SystemdStatusHtml(host.run, host.convert, service).Err?
    ensures HandleService(service, configs, host).journal.None? <==> JournalctlHtml(host.run, host.convert, service).Err?
  {
  }

  /** A service configured with `show_logs = false` still gets its journal fetched. */
  lemma JournalIgnoresShowLogs(service: string, configs: seq<ServiceConfig>, host: Host, i: nat)
    requires i < |configs| && configs[i].serviceName == service && !configs[i].showLogs
    requires JournalctlHtml(host.run, host.convert, service).Ok?
    ensures HandleService(service, configs, host).journal == Some(JournalctlHtml(host.run, host.convert, service).value)
  {
  }
}

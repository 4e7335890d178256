/**
 * The validation `main` performs in src/main.rs before it starts serving:
 * every configured service name must have a `.`, and no unit that could be
 * created may be masked. Reading the environment, the file and the TOML
 * text, and everything after validation, is not part of this model.
 */
module Startup {
  import opened Wrappers
  import opened Collect
  import opened Strings
  import opened Types
  import opened Routes

  /** Whether some configured service name has no `.` to split at (the first such name is logged). */
  function AnyUnsuffixed(configs: seq<ServiceConfig>): (found: bool)
    ensures found <==> exists i :: 0 <= i < |configs| && RSplitOnce(configs[i].serviceName, Dot).None?
  {
    if configs == [] then false
    else
      RSplitOnce(configs[0].serviceName, Dot).None?
        || (var rest := AnyUnsuffixed(configs[1..]);
            assert rest <==> exists i :: 1 <= i < |configs| && RSplitOnce(configs[i].serviceName, Dot).None? by {
              forall i | 1 <= i < |configs| ensures configs[i] == configs[1..][i - 1] { }
              if rest {
                var k :| 0 <= k < |configs[1..]| && RSplitOnce(configs[1..][k].serviceName, Dot).None?;
                assert RSplitOnce(configs[k + 1].serviceName, Dot).None?;
              }
            }
            rest)
  }

  /** Whether some created unit is masked (or not found), which the systemctl crate reports alike. */
  function AnyMasked(units: seq<Unit>): (found: bool)
    ensures found <==> exists j :: 0 <= j < |units| && units[j].state == Masked
  {
    if units == [] then false
    else
      units[0].state == Masked
        || (var rest := AnyMasked(units[1..]);
            assert rest <==> exists j :: 1 <= j < |units| && units[j].state == Masked by {
              forall j | 1 <= j < |units| ensures units[j] == units[1..][j - 1] { }
              if rest {
                var k :| 0 <= k < |units[1..]| && units[1..][k].state == Masked;
                assert units[k + 1].state == Masked;
              }
            }
            rest)
  }

  /** Why startup stopped. */
  datatype ExitReason = InvalidServiceName | ErroneousUnits

  /** Either the process exits with a status code, or validation passed and it goes on to serve. */
  datatype StartupOutcome = Exit(code: int, reason: ExitReason) | Serve

  /**
   * The two checks, in the order `main` makes them: the name check first
   * (no unit is created when it fails), then unit creation, dropping the
   * services whose unit cannot be created, then the masked check. Both
   * failures exit with status 1.
   */
  function Validate(configs: seq<ServiceConfig>, createUnit: string -> Result<Unit, string>): (r: StartupOutcome)
    ensures r.Exit? ==> r.code == 1
    ensures r.Serve? ==> WellFormedNames(configs)
  {
    if AnyUnsuffixed(configs) then Exit(1, InvalidServiceName)
    else if AnyMasked(CreateUnits(configs, createUnit)) then Exit(1, ErroneousUnits)
    else Serve
  }

  /** Startup exits over the names exactly when some service name has no `.`; unit creation does not matter for it. */
  lemma NameCheckExact(configs: seq<ServiceConfig>, createUnit: string -> Result<Unit, string>)
    ensures Validate(configs, createUnit) == Exit(1, InvalidServiceName) <==>
      exists i :: 0 <= i < |configs| && Dot !in configs[i].serviceName
  {
    assert AnyUnsuffixed(configs) <==> exists i :: 0 <= i < |configs| && Dot !in configs[i].serviceName by {
      forall i | 0 <= i < |configs|
        ensures RSplitOnce(configs[i].serviceName, Dot).None? <==> Dot !in configs[i].serviceName
      { }
    }
  }

  /** Passing validation is exactly the well-formedness that the configuration lookup relies on, and no masked unit was created. */
  lemma ServeExact(configs: seq<ServiceConfig>, createUnit: string -> Result<Unit, string>)
    ensures Validate(configs, createUnit) == Serve <==>
      WellFormedNames(configs)
      && forall i :: 0 <= i < |configs| && createUnit(configs[i].serviceName).Ok? ==>
           createUnit(configs[i].serviceName).value.state == Loaded
  {
    NameCheckExact(configs, createUnit);
    var units := CreateUnits(configs, createUnit);
    CreateUnitsExact(configs, createUnit);
    if !AnyMasked(units) {
      forall i | 0 <= i < |configs| && createUnit(configs[i].serviceName).Ok?
        ensures createUnit(configs[i].serviceName).value.state == Loaded
      {
        var u := createUnit(configs[i].serviceName).value;
        assert u in units;
      }
    } else {
      var j :| 0 <= j < |units| && units[j].state == Masked;
      assert units[j] in units;
    }
  }

  /** With well-formed names, startup exits exactly when some unit that could be created is masked. */
  lemma MaskedCheckExact(configs: seq<ServiceConfig>, createUnit: string -> Result<Unit, string>)
    requires WellFormedNames(configs)
    ensures Validate(configs, createUnit) == Exit(1, ErroneousUnits) <==>
      exists i :: 0 <= i < |configs| && createUnit(configs[i].serviceName).Ok?
        && createUnit(configs[i].serviceName).value.state == Masked
  {
    ServeExact(configs, createUnit);
    NameCheckExact(configs, createUnit);
  }

  /**
   * Services whose unit cannot be created are not fatal on their own: letting
   * more creations fail never turns a passing configuration into a failing one.
   */
  lemma CreationFailuresTolerated(configs: seq<ServiceConfig>, c1: string -> Result<Unit, string>, c2: string -> Result<Unit, string>)
    requires forall i :: 0 <= i < |configs| ==>
      c2(configs[i].serviceName) == c1(configs[i].serviceName) || c2(configs[i].serviceName).Err?
    requires Validate(configs, c1) == Serve
    ensures Validate(configs, c2) == Serve
  {
    ServeExact(configs, c1);
    ServeExact(configs, c2);
  }

  /**
   * A configuration that passes startup can never make the aggregation
   * panic in the configuration lookup, whatever the system answers later.
   */
  lemma ServeMeansNoLookupPanic(configs: seq<ServiceConfig>, createUnit: string -> Result<Unit, string>, host: Host)
    requires Validate(configs, createUnit) == Serve
    ensures HandleServices(configs, host).Rendered?
  {
    ServeExact(configs, createUnit);
    HandleServicesNeverPanics(configs, host);
  }
}

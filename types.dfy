/**
 * The data model of `src/main.rs` (`ServiceConfig`, `ServiceInfo`) and the
 * part of the `systemctl` crate's `Unit` that the service code reads.
 */
module Types {
  import opened Wrappers
  import Strings

  const U64Max: nat := 0xFFFF_FFFF_FFFF_FFFF
  const U8Max: nat := 0xFF

  type U64 = x: int | 0 <= x <= U64Max
  type U8 = x: int | 0 <= x <= U8Max

  /** One `[[service]]` entry of the configuration file. */
  datatype ServiceConfig = ServiceConfig(serviceName: string, friendlyName: string, showLogs: bool)

  /** The entry as written in the file: `show_logs` may be omitted. */
  datatype ServiceEntry = ServiceEntry(serviceName: string, friendlyName: string, showLogs: Option<bool>)

  /** Deserialising an entry: `#[serde(default)]` makes an omitted `show_logs` false. */
  function FromEntry(e: ServiceEntry): (c: ServiceConfig)
    ensures c.serviceName == e.serviceName && c.friendlyName == e.friendlyName
    ensures c.showLogs <==> e.showLogs == Some(true)
  {
    ServiceConfig(e.serviceName, e.friendlyName, e.showLogs.GetOr(false))
  }

  /** The unit-type suffix separator checked at startup and split at during lookup. */
  const Dot := '.'

  /** The configured name without its unit-type suffix: the part before the last `.`. */
  function BaseName(serviceName: string): (base: Option<string>)
    ensures base.Some? <==> Dot in serviceName
    ensures base.Some? ==> base.value + [Dot] <= serviceName
  {
    match Strings.RSplitOnce(serviceName, Dot)
    case Some((base, _)) => Some(base)
    case None => None
  }

  /** Every configured `service_name` has a `.`-separated unit-type suffix. */
  ghost predicate WellFormedNames(configs: seq<ServiceConfig>) {
    forall i :: 0 <= i < |configs| ==> Dot in configs[i].serviceName
  }

  /** `systemctl::State`. */
  datatype LoadState = Loaded | Masked

  /**
   * `systemctl::AutoStartStatus`. Only `Enabled` and `EnabledRuntime` are told
   * apart by the service code; the crate's other variants are `Disabled` or
   * carried by name in `Other`.
   */
  datatype AutoStartStatus = Enabled | EnabledRuntime | Disabled | Other(variant: string)

  /** `systemctl::Unit`, restricted to what the service code reads; `name` has no type suffix. */
  datatype Unit = Unit(name: string, state: LoadState, active: bool, autoStart: AutoStartStatus)

  /** `format!("{:?}", unit.state)`. */
  function StateLabel(s: LoadState): (shown: string)
    ensures shown == "Masked" <==> s == Masked
  {
    match s
    case Loaded => "Loaded"
    case Masked => "Masked"
  }

  /** The record shown on the dashboard for one service. */
  datatype ServiceInfo = ServiceInfo(
    config: ServiceConfig,
    status: string,
    active: bool,
    enabled: bool,
    running: bool,
    pid: Option<U64>,
    statusCode: Option<U8>,
    uptime: string)
}

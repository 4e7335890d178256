# daemon-manager, modelled in Dafny

daemon-manager is a small web dashboard for systemd services. A TOML file
lists the services to show. At startup the program checks that every
configured name has a unit suffix such as `.service`. It then asks the
`systemctl` crate to create a unit handle for each service and refuses to
start if a unit is masked. Each request to `/services` builds one record
per service from the unit and three `systemctl show` properties:
`MainPID`, `StatusErrno` and `ExecMainStartTimestampMonotonic`. The last
is formatted as an uptime such as `1d 1h 0m 0s`. A request to
`/service/{service}` fetches the coloured `systemctl status` text and the
last 100 journal lines as HTML.

This project models that logic in Dafny and proves properties of it:

- `Types` holds the data model and the decision rules of the record
  derivation.
- `Uptime` holds the uptime arithmetic and the duration formatting.
- `Helper` holds the `systemctl show` output parsing, the lookup of the
  configuration entry and `get_unit_info`.
- `Routes` holds the two request handlers, stopping at the values they
  hand to their templates.
- `Startup` holds the startup validation.

Supporting modules model the Rust standard-library behaviour those steps
rely on:

- `Utf8` is `String::from_utf8`: full validity per Table 3-7 of the
  Unicode Standard, with both round trips proved.
- `Strings` is `trim_end` (the Unicode White_Space property), `rsplit_once`
  and `join`.
- `Decimal` is integer `Display` and unsigned `from_str` (an optional `+`,
  digits only, and overflow checked against the type's maximum).
- `Collect` is `filter_map(...ok()).collect()` over `Result`s.

The parts of each call that cannot be computed become inputs:

- command execution is a function from the exact command line, which is
  recorded as data, to its outcome;
- `create_unit` is a partial function from a name to a unit;
- `ansi_to_html::convert` is a function that may fail;
- the clock readings are plain integers: boot time in seconds and now in
  microseconds, one pair per record.

Where the code behaves differently from what a reader might expect, the
model follows the code, and the comment on the member says so:

- `running` is `main_pid != Some(0)`, so a service whose PID cannot be read
  counts as running (`Helper.UnitInfoPid`).
- `StatusErrno` is queried for every unit, not only for stopped ones.
- `handle_service` fetches the journal whatever `show_logs` says. It never
  consults the configuration and passes the path parameter straight to
  both commands (`Routes.JournalIgnoresShowLogs`).
- `src/routes.rs` calls `.values()` on `config.service`, but
  `src/main.rs:31` declares that field as a `Vec`. The model treats the
  configuration as an ordered sequence, and the aggregation keeps its
  order.
- `get_unit_info` reads the boot time and the current time once per
  record, so two records of one request may see different clocks. The
  model gives the `j`-th record its own clock reading.
- The `unwrap()` in the configuration lookup panics on an entry without a
  `.`. The model makes that panic an explicit outcome and proves that
  startup validation excludes it (`Startup.ServeMeansNoLookupPanic`).

## Model

| member | source | states |
|---|---|---|
| Types.FromEntry | src/main.rs:36-42 | a configuration entry keeps its names; `show_logs` is true only when the entry sets it to true, so an omitted key means false |
| Strings.TrimEnd | src/helper.rs:28 | the result is a prefix of the input, does not end in whitespace, and only whitespace was removed |
| Strings.TrimEndOfPadded | src/helper.rs:28 | trimming text that does not end in whitespace, followed by any whitespace, gives back the text |
| Strings.RSplitOnce | src/helper.rs:135 | a split exists iff the separator occurs; the two halves around it rebuild the input and the right half has no separator |
| Strings.RSplitOnceUnique | src/helper.rs:135 | the split is at the last occurrence: any decomposition with a separator-free right half is the one returned |
| Strings.Join | src/helper.rs:104 | joining no parts gives the empty text, and otherwise the text starts with the first part (`SplitJoin` is its round trip) |
| Strings.SplitJoin | src/helper.rs:104 | joining nonempty parts that contain no separator and splitting again gives back the parts |
| Utf8.Decode | src/helper.rs:27 | a decoded string has at most as many characters as there were bytes (`DecodeEncode` and `EncodeDecode` tie it to the encoding) |
| Utf8.DecodeEncode | src/helper.rs:27 | decoding the UTF-8 encoding of any string gives the string |
| Utf8.EncodeDecode | src/helper.rs:27 | bytes accepted as UTF-8 are exactly the encoding of the decoded string |
| Utf8.DecodeFirstEncodeChar | src/helper.rs:27 | the first scalar of an encoded character followed by anything is that character with its encoded length |
| Utf8.EncodeCharDecodeFirst | src/helper.rs:27 | a scalar accepted at the front of a byte string is encoded by exactly the bytes it consumed |
| Decimal.Dec | src/helper.rs:94-102 | the decimal text of a number is nonempty, all digits, without a leading zero, and denotes the number |
| Decimal.ParseUnsigned | src/helper.rs:30 | a parsed value never exceeds the type's maximum (`ParseUnsignedCharacterized` gives the full success condition) |
| Decimal.ParseUnsignedCharacterized | src/helper.rs:30 | parsing succeeds iff the text is an optional `+` followed by at least one digit and nothing else, with a value not above the type's maximum; the result is that value |
| Decimal.ParseDec | src/helper.rs:30 | the decimal text of any in-range value parses back to it |
| Decimal.RejectsNonNumerals | src/helper.rs:30 | text that is not a numeral fails to parse |
| Decimal.RejectsOutOfRange | src/helper.rs:30 | a numeral above the maximum fails to parse, e.g. above 255 for `u8` |
| Decimal.FoldIsValue | src/helper.rs:30 | the left-to-right digit accumulation equals the positional value of the digits |
| Decimal.ParseDigitsCharacterized | src/helper.rs:30 | the digit loop succeeds iff all characters are digits and no intermediate value passes the maximum; its result is the accumulated value |
| Helper.ParseShowOutput | src/helper.rs:25-39 | a successful parse never exceeds the parsed type's maximum |
| Helper.ShowOutputCharacterized | src/helper.rs:25-39 | the parse succeeds iff a process ran, exited successfully, its stdout is valid UTF-8, and the text without trailing whitespace is an in-range numeral; the value is that numeral's |
| Helper.ShowOutputRoundTrip | src/helper.rs:25-39 | a successful exit printing an in-range value followed by any whitespace yields that value, whatever stderr holds |
| Helper.SystemdShowParse | src/helper.rs:12-40 | the query runs `systemctl show <unit> --property <p> --value`, and a success never exceeds the type's maximum |
| Helper.CommandHtml | src/helper.rs:52-74 | HTML is produced only for a command that was spawned and whose stdout is valid UTF-8 |
| Helper.CommandHtmlCharacterized | src/helper.rs:52-74 | HTML exactly when the command was spawned, its stdout is UTF-8 and the conversion succeeds, and then it is the conversion of the decoded stdout; a failed spawn is the missing-stdout error, non-UTF-8 stdout the non-UTF-8 error, a failed conversion the conversion error |
| Helper.CommandHtmlOfText | src/helper.rs:52-74 | when stdout is the UTF-8 encoding of some text, the result is the conversion of that text, whatever the exit status and stderr |
| Helper.SystemdStatusHtml | src/helper.rs:42-59 | status text exists only when `systemctl status <unit> --no-pager --lines 0 --full --legend=no` with `SYSTEMD_COLORS=1` was spawned |
| Helper.JournalctlHtml | src/helper.rs:61-75 | journal text exists only when `journalctl -u <unit> --no-pager --lines 100` was spawned |
| Types.BaseName | src/helper.rs:134-136 | a name has a base name iff it contains a `.`, and the base name followed by `.` is a prefix of the name (the `.` is the last one, by `Strings.RSplitOnce`) |
| Types.StateLabel | src/helper.rs:143 | the status text is `Masked` exactly for a masked unit |
| Helper.FindConfig | src/helper.rs:131-139 | a found entry is configured and its name before the last `.` is the unit name; a panic happens only on a configured name with no `.` |
| Helper.FindConfigSpec | src/helper.rs:131-139 | the lookup returns the first entry whose prefix matches, and only when every earlier entry splits and does not match; on names that all have a `.` it never panics, and it finds an entry iff one matches |
| Helper.FindConfigFirstMatch | src/helper.rs:131-139 | the lookup finds an entry iff some entry is the first match, and then it is that entry |
| Helper.FindConfigWellFormed | src/helper.rs:131-139 | when every name has a `.`, the lookup never panics and finds an entry iff some entry's base name is the unit's name |
| Helper.FindConfigExamples | src/helper.rs:131-139 | `myapp.service` resolves unit `myapp` and not unit `other` |
| Helper.GetUnitInfo | src/helper.rs:116-154 | a record carries a configured entry matching the unit's name and an uptime text that reads back as a duration |
| Helper.UnitInfoFailurePolicy | src/helper.rs:117-139 | a record is built iff the start-timestamp query succeeds and the lookup finds an entry; a failed start-timestamp query yields exactly that error |
| Helper.OptionalQueriesDoNotDecide | src/helper.rs:117-121 | changing the answers to the `MainPID` and `StatusErrno` queries never changes whether a record is built, nor its configuration, status, active, enabled or uptime fields |
| Helper.UnitInfoConfig | src/helper.rs:131-142 | the record's configuration is a copy of the first matching entry |
| Helper.UnitInfoDerived | src/helper.rs:141-152 | `enabled` iff auto-start is Enabled or EnabledRuntime; `status` is the state's name; `active` is copied; `uptime` is the formatted uptime of the start timestamp |
| Helper.UnitInfoPid | src/helper.rs:149-150 | a failed PID query gives no PID and running; a PID n is passed through and gives running iff n is not 0 |
| Helper.UnitInfoStatusCode | src/helper.rs:119-121 | the status code is the `StatusErrno` value when that query succeeds, including 0, and absent otherwise |
| Uptime.UptimeSeconds | src/helper.rs:77-81 | the uptime is the elapsed time since boot plus start in whole seconds, truncated, and 0 when the start lies in the future |
| Uptime.UptimeMonotone | src/helper.rs:77-81 | a later reading of the clock never gives a smaller uptime |
| Uptime.UptimeAntitoneInStart | src/helper.rs:77-81 | a later start never gives a larger uptime |
| Uptime.MonotonicUptime | src/helper.rs:77-82 | the uptime text reads back as the uptime in seconds |
| Uptime.Components | src/helper.rs:85-90 | days, hours, minutes and seconds recombine to the input, with hours below 24 and minutes and seconds below 60 |
| Uptime.ComponentsExact | src/helper.rs:85-90 | the source's four divisions and remainders recombine to the input, with hours below 24 |
| Uptime.DurationParts | src/helper.rs:92-102 | there are 1 to 4 parts and the last is the seconds count followed by `s` |
| Uptime.FormatDuration | src/helper.rs:84-105 | the conditional pushes and join produce exactly the parts from the first shown unit on, joined by spaces |
| Uptime.PartsOfThresholds | src/helper.rs:93-102 | for any components, a unit is shown iff it or a larger unit is nonzero, and seconds always |
| Uptime.ComponentsThresholds | src/helper.rs:85-90 | days are nonzero iff at least 86400 seconds; days or hours iff at least 3600; days, hours or minutes iff at least 60 |
| Uptime.DurationThresholds | src/helper.rs:93-102 | the number of parts is fixed by the thresholds: `d` appears iff at least 86400, `h` iff at least 3600, `m` iff at least 60, and `s` always |
| Uptime.DurationExamples | src/helper.rs:84-105 | 90000 gives `1d 1h 0m 0s`, 125 gives `2m 5s`, 45 gives `45s` |
| Uptime.DurationRoundTrip | src/helper.rs:84-105 | reading a formatted duration back gives the number of seconds |
| Uptime.DurationTextInjective | src/helper.rs:84-105 | distinct second counts give distinct texts |
| Uptime.DurationTextShape | src/helper.rs:92-104 | the text is never empty, ends in `s`, and has no minus sign |
| Uptime.PartsOfAvoid | src/helper.rs:92-104 | no part contains a character that is neither a digit nor a unit letter, such as the separating space or a minus sign |
| Uptime.WeightedOfShown | src/helper.rs:92-102 | leaving out the leading zero components loses nothing of the weighted total |
| Uptime.JoinedReadsBack | src/helper.rs:104 | parts that survive joining and splitting, each reading back as its component, read back as their weighted sum |
| Uptime.PartsOfRoundTrip | src/helper.rs:92-104 | the joined parts of any four components read back as their weighted total |
| Collect.Successes | src/routes.rs:33-40 | collecting keeps at most every element; nothing when all fail, everything when all succeed |
| Collect.SuccessPositionsSpec | src/routes.rs:33-40 | the collected values are exactly the success values, in their original order, each from an increasing position, and none is missed |
| Collect.SuccessesSound | src/routes.rs:33-40 | every collected value is the value of some successful element |
| Collect.SuccessesComplete | src/routes.rs:33-40 | every successful element's value is collected |
| Collect.SuccessesAppend | src/routes.rs:33-40 | collecting a concatenation gives the concatenation of the collections |
| Collect.SuccessesSkipFailure | src/routes.rs:35-38 | a failing element is dropped without affecting the elements around it |
| Collect.SuccessesKeepSuccess | src/routes.rs:35-38 | a successful element contributes exactly its value, in its place |
| Collect.SamePositions | src/routes.rs:33-40 | which positions survive depends only on which elements succeed |
| Routes.CreateResults | src/routes.rs:20-24 | one creation attempt per configured service, in configuration order, on that service's name |
| Routes.UnitInfoResults | src/routes.rs:33-36 | one record derivation per created unit, each against the full configuration list |
| Routes.CreateUnits | src/routes.rs:20-31 | there are at most as many units as services, and exactly as many when every creation succeeds |
| Routes.CreateUnitsAppend | src/routes.rs:20-31 | the units created for a concatenation are the concatenation of the units, so order is kept |
| Routes.CreateFailureIsolated | src/routes.rs:24-29 | a service whose unit cannot be created is dropped and changes nothing for the others |
| Routes.CreateUnitsExact | src/routes.rs:20-31 | there are at most as many units as services; each comes from a configured name, and every unit that could be created is present |
| Routes.HandleServices | src/routes.rs:17-40 | a rendered page lists at most as many services as are configured (the lemmas below give its records exactly) |
| Routes.HandleServicesNeverPanics | src/routes.rs:33-40 | with names that all have a `.`, the aggregation never aborts, whatever the system answers |
| Routes.HandleServicesExact | src/routes.rs:33-40 | the records are exactly the successful derivations, in the order of the created units |
| Routes.HandleServicesTraceable | src/routes.rs:20-40 | there are at most as many records as services, and each record's entry is configured and names a unit that was created |
| Routes.HandleServicesAllCreationsFail | src/routes.rs:20-40 | if no unit can be created the page lists no service and the request still completes |
| Routes.HandleServicesAllSucceed | src/routes.rs:20-40 | if every creation and derivation succeeds there is one record per configured service |
| Routes.UnitInfoRepeatable | src/helper.rs:116-154 | deriving a record again with a later clock gives a record in the same cases, the same error, and the same fields apart from an uptime that does not decrease |
| Routes.HandleServicesRepeatable | src/routes.rs:20-40 | repeating the aggregation with later clock readings gives the same records apart from uptimes, which do not decrease |
| Routes.HandleService | src/routes.rs:66-76 | a status text is shown only when the status command was spawned, a journal text only when the journal command was spawned |
| Routes.HandleServiceIndependent | src/routes.rs:72-76 | the status text depends only on the status command and the journal text only on the journal command; the configuration plays no part |
| Routes.HandleServiceDegrades | src/routes.rs:72-76 | each text is missing exactly when its own fetch fails |
| Routes.JournalIgnoresShowLogs | src/routes.rs:76 | a service configured with `show_logs = false` still gets its journal |
| Startup.AnyUnsuffixed | src/main.rs:73-83 | true iff some configured name has no `.` to split at |
| Startup.AnyMasked | src/main.rs:107-113 | true iff some created unit is masked |
| Startup.Validate | src/main.rs:73-118 | every exit has status 1, and startup serves only when every name has a `.` (the lemmas below give both checks exactly) |
| Startup.NameCheckExact | src/main.rs:73-87 | startup exits with status 1 over the names iff some service name contains no `.` |
| Startup.ServeExact | src/main.rs:73-118 | startup goes on to serve iff every name has a `.` and every unit that could be created is loaded |
| Startup.MaskedCheckExact | src/main.rs:95-118 | with valid names, startup exits with status 1 iff some unit that could be created is masked |
| Startup.CreationFailuresTolerated | src/main.rs:95-105 | services whose unit cannot be created are not fatal: more creation failures never make a passing configuration fail |
| Startup.ServeMeansNoLookupPanic | src/main.rs:73-87 | once startup passes, the lookup's `unwrap` cannot panic during any later aggregation |

## Left out

- Process execution (`Command::output`) is an input function from the exact command line to its outcome. Its I/O is not modelled.
- `ansi_to_html::convert` is an input function that may fail. It is a foreign library.
- `get_boot_time` (sysinfo) and `SystemTime::now()` are plain integer inputs: boot time in whole seconds and now in microseconds. Reading them is I/O. Measuring now in microseconds rather than nanoseconds gives the same whole-second result, because the event time is itself a whole number of microseconds.
- Uptime.UptimeSeconds: the overflow panic of `boot_time + Duration` is not modelled. A `SystemTime` reaches it only far beyond any real clock.
- The systemctl crate's `create_unit` is an input partial function. Its `Unit` is reduced to name, load state, active flag and auto-start status. Auto-start variants other than Enabled, EnabledRuntime and Disabled are collapsed into one `Other` case, which the program treats like Disabled.
- Reading `DAEMON_MANAGER_CONFIG_PATH` and `DAEMON_MANAGER_ADDR`, reading the file, TOML/serde parsing (modelled only as the `show_logs` default), parsing the listen address and binding the socket are I/O and foreign libraries.
- Template loading, rendering and the HTTP status codes of both handlers are left out: they belong to axum and minijinja. The handlers are modelled up to the values they render.
- Logging (`error!`, `debug!`, `println!`) is left out, and so is the stderr text inside error messages, beyond recording it. None of it affects a result.
- tokio concurrency is left out: each request is modelled as a sequential computation.
- The `ServiceDetail` struct is left out because it is never constructed.
- Helper.SystemdShowParse: the anyhow context strings are collapsed into an error variant per failure cause.

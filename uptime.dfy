/**
 * `monotonic_uptime` and `format_duration` (src/helper.rs): how long ago a
 * service's main process started, as a descending-magnitude text such as
 * "1d 1h 0m 0s". `ParseDuration` reads such a text back; it is not part of the
 * program and serves as the inverse against which the formatter is proved.
 */
module Uptime {
  import opened Wrappers
  import opened Decimal
  import opened Arith
  import Strings
  import opened Types

  const MicrosPerSecond: nat := 1_000_000

  /**
   * The two clock readings `monotonic_uptime` depends on: the boot time in
   * whole seconds since the Unix epoch (what `get_boot_time` yields) and the
   * wall clock `SystemTime::now()` in microseconds since the epoch.
   */
  datatype Clock = Clock(bootSecs: nat, nowMicros: int)

  /**
   * The elapsed whole seconds since the event `monotonicMicros` after boot:
   * `now.duration_since(event)` clamped to zero when the event lies in the
   * future (`unwrap_or(Duration::ZERO)`), then truncated by `as_secs`.
   */
  function UptimeSeconds(monotonicMicros: nat, clock: Clock): (secs: nat)
    ensures var elapsed := clock.nowMicros - (clock.bootSecs * MicrosPerSecond + monotonicMicros);
      && (elapsed <= 0 ==> secs == 0)
      && (elapsed >= 0 ==> secs * MicrosPerSecond <= elapsed < (secs + 1) * MicrosPerSecond)
  {
    var eventMicros := clock.bootSecs * MicrosPerSecond + monotonicMicros;
    if clock.nowMicros < eventMicros then 0 else (clock.nowMicros - eventMicros) / MicrosPerSecond
  }

  /** A later reading of the clock never gives a smaller uptime. */
  lemma UptimeMonotone(monotonicMicros: nat, earlier: Clock, later: Clock)
    requires earlier.bootSecs == later.bootSecs && earlier.nowMicros <= later.nowMicros
    ensures UptimeSeconds(monotonicMicros, earlier) <= UptimeSeconds(monotonicMicros, later)
  {
  }

  /** A service that started later has no greater uptime. */
  lemma UptimeAntitoneInStart(earlierStart: nat, laterStart: nat, clock: Clock)
    requires earlierStart <= laterStart
    ensures UptimeSeconds(laterStart, clock) <= UptimeSeconds(earlierStart, clock)
  {
  }

  /** `monotonic_uptime`: the uptime as text. The text denotes exactly the elapsed whole seconds. */
  function MonotonicUptime(monotonicMicros: U64, clock: Clock): (text: string)
    ensures ParseDuration(text) == Some(UptimeSeconds(monotonicMicros, clock))
  {
    var secs := UptimeSeconds(monotonicMicros, clock);
    DurationRoundTrip(secs);
    DurationText(secs)
  }

  // ---- format_duration ----

  /** The unit letters and their lengths in seconds, from the largest unit down. */
  const UnitLetters: string := "dhms"
  const UnitSeconds: seq<nat> := [86400, 3600, 60, 1]

  /** Days, hours, minutes and seconds of `secs`, as `format_duration` computes them. */
  function Components(secs: nat): (vals: seq<nat>)
    ensures |vals| == 4
    ensures vals[0] * 86400 + vals[1] * 3600 + vals[2] * 60 + vals[3] == secs
    ensures vals[1] < 24 && vals[2] < 60 && vals[3] < 60
  {
    ComponentsExact(secs);
    [secs / 86400, (secs % 86400) / 3600, (secs % 3600) / 60, secs % 60]
  }

  lemma ComponentsExact(secs: nat)
    ensures (secs / 86400) * 86400 + ((secs % 86400) / 3600) * 3600 + ((secs % 3600) / 60) * 60 + secs % 60 == secs
    ensures (secs % 86400) / 3600 < 24
  {
    var days, r := secs / 86400, secs % 86400;
    var hours, t := r / 3600, r % 3600;
    var minutes, seconds := t / 60, t % 60;
    DivUnique(secs, days * 24 + hours, t, 3600);
    DivUnique(secs, (days * 24 + hours) * 60 + minutes, seconds, 60);
  }

  /** The part for component `j`: its numeral followed by its unit letter. */
  function Part(vals: seq<nat>, j: nat): string
    requires |vals| == 4 && j < 4
  {
    Dec(vals[j]) + [UnitLetters[j]]
  }

  /**
   * Where the text starts: at the first nonzero component among days, hours
   * and minutes; seconds are always shown.
   */
  function FirstShown(vals: seq<nat>): (k: nat)
    requires |vals| == 4
    ensures k < 4
  {
    if vals[0] > 0 then 0 else if vals[1] > 0 then 1 else if vals[2] > 0 then 2 else 3
  }

  /** The parts of all four components, zero or not. */
  function AllParts(vals: seq<nat>): (parts: seq<string>)
    requires |vals| == 4
  {
    [Part(vals, 0), Part(vals, 1), Part(vals, 2), Part(vals, 3)]
  }

  /**
   * The parts shown for components `vals`: leading zero components are left
   * out, and from the first one shown every lower component follows, zero
   * or not; the seconds part always ends the list.
   */
  function PartsOf(vals: seq<nat>): (parts: seq<string>)
    requires |vals| == 4
    ensures 1 <= |parts| <= 4 && parts[|parts| - 1] == Part(vals, 3)
  {
    AllParts(vals)[FirstShown(vals)..]
  }

  /** The parts of the text `format_duration(secs)` returns. */
  function DurationParts(secs: nat): (parts: seq<string>)
    ensures 1 <= |parts| <= 4
    ensures parts[|parts| - 1] == Dec(secs % 60) + "s"
  {
    var vals := Components(secs);
    assert Part(vals, 3) == Dec(secs % 60) + "s";
    PartsOf(vals)
  }

  /** The text `format_duration(secs)` returns. */
  function DurationText(secs: nat): string {
    Strings.Join(DurationParts(secs), " ")
  }

  /** `format_duration`: conditional pushes onto a vector of parts, then `join(" ")`. */
  method FormatDuration(secs: U64) returns (text: string)
    ensures text == DurationText(secs)
  {
    var days, hours, minutes, seconds := secs / 86400, (secs % 86400) / 3600, (secs % 3600) / 60, secs % 60;
    var parts: seq<string> := [];
    if days > 0 {
      parts := parts + [Dec(days) + "d"];
    }
    if hours > 0 || parts != [] {
      parts := parts + [Dec(hours) + "h"];
    }
    if minutes > 0 || parts != [] {
      parts := parts + [Dec(minutes) + "m"];
    }
    parts := parts + [Dec(seconds) + "s"];
    var vals := Components(secs);
    assert vals == [days, hours, minutes, seconds];
    assert AllParts(vals) == [Dec(days) + "d", Dec(hours) + "h", Dec(minutes) + "m", Dec(seconds) + "s"];
    assert parts == PartsOf(vals);
    text := Strings.Join(parts, " ");
  }

  /** Whether some part carries unit letter `u`. */
  predicate HasUnit(parts: seq<string>, u: char) {
    exists i :: 0 <= i < |parts| && |parts[i]| > 0 && parts[i][|parts[i]| - 1] == u
  }

  /** The shown parts end, in order, with the unit letters from the first one shown. */
  lemma PartsOfUnits(vals: seq<nat>)
    requires |vals| == 4
    ensures var parts, k := PartsOf(vals), FirstShown(vals);
      && |parts| == 4 - k
      && forall i :: 0 <= i < |parts| ==> |parts[i]| > 0 && parts[i][|parts[i]| - 1] == UnitLetters[k + i]
  {
    var parts, k := PartsOf(vals), FirstShown(vals);
    forall i | 0 <= i < |parts|
      ensures |parts[i]| > 0 && parts[i][|parts[i]| - 1] == UnitLetters[k + i]
    {
      assert parts[i] == Part(vals, k + i);
    }
  }

  /** Which units are shown, for components `vals`: a unit appears iff it or a larger one is nonzero. */
  lemma PartsOfThresholds(vals: seq<nat>)
    requires |vals| == 4
    ensures HasUnit(PartsOf(vals), 'd') <==> vals[0] > 0
    ensures HasUnit(PartsOf(vals), 'h') <==> vals[0] > 0 || vals[1] > 0
    ensures HasUnit(PartsOf(vals), 'm') <==> vals[0] > 0 || vals[1] > 0 || vals[2] > 0
    ensures HasUnit(PartsOf(vals), 's')
  {
    var parts, k := PartsOf(vals), FirstShown(vals);
    PartsOfUnits(vals);
    assert UnitLetters[0] == 'd' && UnitLetters[1] == 'h' && UnitLetters[2] == 'm' && UnitLetters[3] == 's';
    assert parts[3 - k][|parts[3 - k]| - 1] == 's';
    if k <= 2 {
      assert parts[2 - k][|parts[2 - k]| - 1] == 'm';
    }
    if k <= 1 {
      assert parts[1 - k][|parts[1 - k]| - 1] == 'h';
    }
    if k == 0 {
      assert parts[0][|parts[0]| - 1] == 'd';
    }
  }

  /** A component is the first one shown according to the thresholds on `secs`. */
  lemma ComponentsThresholds(secs: nat)
    ensures Components(secs)[0] > 0 <==> secs >= 86400
    ensures Components(secs)[0] > 0 || Components(secs)[1] > 0 <==> secs >= 3600
    ensures Components(secs)[0] > 0 || Components(secs)[1] > 0 || Components(secs)[2] > 0 <==> secs >= 60
  {
  }

  /**
   * Which parts appear is fixed by thresholds on `secs`: days from one day
   * on, hours from one hour on, minutes from one minute on, seconds always;
   * so no unit is skipped below a higher one.
   */
  lemma DurationThresholds(secs: nat)
    ensures |DurationParts(secs)| == if secs >= 86400 then 4 else if secs >= 3600 then 3 else if secs >= 60 then 2 else 1
    ensures HasUnit(DurationParts(secs), 'd') <==> secs >= 86400
    ensures HasUnit(DurationParts(secs), 'h') <==> secs >= 3600
    ensures HasUnit(DurationParts(secs), 'm') <==> secs >= 60
    ensures HasUnit(DurationParts(secs), 's')
  {
    var vals := Components(secs);
    assert DurationParts(secs) == PartsOf(vals);
    PartsOfUnits(vals);
    PartsOfThresholds(vals);
    ComponentsThresholds(secs);
  }

  /** 90000, 125 and 45 seconds render as `1d 1h 0m 0s`, `2m 5s` and `45s`. */
  lemma DurationExamples()
    ensures DurationText(90000) == "1d 1h 0m 0s"
    ensures DurationText(125) == "2m 5s"
    ensures DurationText(45) == "45s"
  {
    ExampleDayAndHour();
    ExampleMinutes();
    ExampleSeconds();
  }

  lemma ExampleDayAndHour()
    ensures DurationText(90000) == "1d 1h 0m 0s"
  {
    assert Components(90000) == [1, 1, 0, 0];
    DayAndHourParts();
    assert Strings.Join(["1d", "1h", "0m", "0s"], " ") == "1d 1h 0m 0s";
  }

  lemma DayAndHourParts()
    ensures PartsOf([1, 1, 0, 0]) == ["1d", "1h", "0m", "0s"]
  {
    var vals: seq<nat> := [1, 1, 0, 0];
    assert Dec(0) == "0" && Dec(1) == "1";
    assert UnitLetters[0] == 'd' && UnitLetters[1] == 'h' && UnitLetters[2] == 'm' && UnitLetters[3] == 's';
    assert Part(vals, 0) == "1d" && Part(vals, 1) == "1h" && Part(vals, 2) == "0m" && Part(vals, 3) == "0s";
    assert AllParts(vals) == ["1d", "1h", "0m", "0s"];
  }

  lemma ExampleMinutes()
    ensures DurationText(125) == "2m 5s"
  {
    assert Components(125) == [0, 0, 2, 5];
    var vals: seq<nat> := [0, 0, 2, 5];
    assert Dec(2) == "2" && Dec(5) == "5";
    assert UnitLetters[2] == 'm' && UnitLetters[3] == 's';
    assert Part(vals, 2) == "2m" && Part(vals, 3) == "5s";
    assert AllParts(vals)[2..] == ["2m", "5s"];
    assert PartsOf(vals) == ["2m", "5s"];
  }

  lemma ExampleSeconds()
    ensures DurationText(45) == "45s"
  {
    assert Components(45) == [0, 0, 0, 45];
    var vals: seq<nat> := [0, 0, 0, 45];
    assert Dec(45) == Dec(4) + "5" && Dec(4) == "4";
    assert UnitLetters[3] == 's';
    assert Part(vals, 3) == "45s";
    assert AllParts(vals)[3..] == ["45s"];
    assert PartsOf(vals) == ["45s"];
  }

  // ---- reading a duration text back ----

  /** A part `<digits><unit>`, read back. */
  function ParsePiece(p: string, unit: char): Option<nat> {
    if |p| >= 2 && p[|p| - 1] == unit && AllDigits(p[..|p| - 1]) then Some(Value(p[..|p| - 1])) else None
  }

  /** The parts for components `k` to 3, read back and weighted by their units. */
  function ParsePieces(pieces: seq<string>, k: nat): Option<nat>
    requires k + |pieces| == 4
    decreases |pieces|
  {
    if pieces == [] then Some(0)
    else
      match (ParsePiece(pieces[0], UnitLetters[k]), ParsePieces(pieces[1..], k + 1))
      case (Some(v), Some(rest)) => Some(v * UnitSeconds[k] + rest)
      case _ => None
  }

  /** The number of seconds a duration text denotes, if it is one. */
  function ParseDuration(text: string): Option<nat> {
    var pieces := Strings.Split(text, ' ');
    if |pieces| > 4 then None else ParsePieces(pieces, 4 - |pieces|)
  }

  /** The weighted sum of components `k` to 3. */
  function WeightedFrom(vals: seq<nat>, k: nat): nat
    requires |vals| == 4 && k <= 4
    decreases 4 - k
  {
    if k == 4 then 0 else vals[k] * UnitSeconds[k] + WeightedFrom(vals, k + 1)
  }

  lemma PieceRoundTrip(n: nat, unit: char)
    ensures ParsePiece(Dec(n) + [unit], unit) == Some(n)
  {
    assert (Dec(n) + [unit])[..|Dec(n)|] == Dec(n);
  }

  /** Each of `pieces` reads back as the matching component from `k` on. */
  ghost predicate ReadsBack(pieces: seq<string>, vals: seq<nat>, k: nat)
    requires |vals| == 4 && k <= 4
  {
    |pieces| == 4 - k && forall i :: 0 <= i < |pieces| ==> ParsePiece(pieces[i], UnitLetters[k + i]) == Some(vals[k + i])
  }

  lemma {:induction false} PiecesRoundTrip(pieces: seq<string>, vals: seq<nat>, k: nat)
    requires |vals| == 4 && k <= 4 && ReadsBack(pieces, vals, k)
    ensures ParsePieces(pieces, k) == Some(WeightedFrom(vals, k))
    decreases 4 - k
  {
    if k < 4 {
      assert ParsePiece(pieces[0], UnitLetters[k]) == Some(vals[k]);
      assert ReadsBack(pieces[1..], vals, k + 1) by {
        forall i | 0 <= i < |pieces[1..]|
          ensures ParsePiece(pieces[1..][i], UnitLetters[k + 1 + i]) == Some(vals[k + 1 + i])
        {
          assert pieces[1..][i] == pieces[i + 1];
        }
      }
      PiecesRoundTrip(pieces[1..], vals, k + 1);
    }
  }

  /** No character `c` that is neither a digit nor a unit letter occurs in a shown part. */
  lemma PartsOfAvoid(vals: seq<nat>, c: char)
    requires |vals| == 4 && !IsDigit(c) && c !in UnitLetters
    ensures forall i :: 0 <= i < |PartsOf(vals)| ==> c !in PartsOf(vals)[i]
  {
    forall j | 0 <= j < 4
      ensures c !in Part(vals, j)
    {
      var d := Dec(vals[j]);
      assert forall x :: 0 <= x < |d| ==> d[x] != c;
    }
    assert forall i :: 0 <= i < |PartsOf(vals)| ==> PartsOf(vals)[i] == Part(vals, FirstShown(vals) + i);
  }

  /** The joined parts split back at the spaces into the parts. */
  lemma PartsOfSplit(vals: seq<nat>)
    requires |vals| == 4
    ensures Strings.Split(Strings.Join(PartsOf(vals), " "), ' ') == PartsOf(vals)
  {
    PartsOfAvoid(vals, ' ');
    Strings.SplitJoin(PartsOf(vals), ' ');
  }

  /** Each shown part reads back as its component. */
  lemma PartsOfReadBack(vals: seq<nat>)
    requires |vals| == 4
    ensures ReadsBack(PartsOf(vals), vals, FirstShown(vals))
  {
    var k := FirstShown(vals);
    var parts := PartsOf(vals);
    forall i | 0 <= i < |parts|
      ensures ParsePiece(parts[i], UnitLetters[k + i]) == Some(vals[k + i])
    {
      assert parts[i] == Part(vals, k + i);
      PieceRoundTrip(vals[k + i], UnitLetters[k + i]);
    }
  }

  /** Reading back the joined parts of `vals` gives their weighted total. */
  lemma PartsOfRoundTrip(vals: seq<nat>)
    requires |vals| == 4
    ensures ParseDuration(Strings.Join(PartsOf(vals), " ")) == Some(vals[0] * 86400 + vals[1] * 3600 + vals[2] * 60 + vals[3])
  {
    var k := FirstShown(vals);
    PartsOfSplit(vals);
    PartsOfReadBack(vals);
    JoinedReadsBack(PartsOf(vals), vals, k);
    WeightedOfShown(vals);
  }

  /** Starting the weighted sum at the first shown component loses nothing. */
  lemma WeightedOfShown(vals: seq<nat>)
    requires |vals| == 4
    ensures WeightedFrom(vals, FirstShown(vals)) == vals[0] * 86400 + vals[1] * 3600 + vals[2] * 60 + vals[3]
  {
    WeightedTotal(vals);
    WeightedSkipsZeros(vals, FirstShown(vals));
  }

  /** Pieces that survive the join and each read back give their weighted sum. */
  lemma JoinedReadsBack(parts: seq<string>, vals: seq<nat>, k: nat)
    requires |vals| == 4 && k <= 4 && ReadsBack(parts, vals, k)
    requires Strings.Split(Strings.Join(parts, " "), ' ') == parts
    ensures ParseDuration(Strings.Join(parts, " ")) == Some(WeightedFrom(vals, k))
  {
    PiecesRoundTrip(parts, vals, k);
  }

  /** Round trip: the text of `secs` reads back as `secs`. */
  lemma DurationRoundTrip(secs: nat)
    ensures ParseDuration(DurationText(secs)) == Some(secs)
  {
    var vals := Components(secs);
    assert DurationParts(secs) == PartsOf(vals);
    PartsOfRoundTrip(vals);
  }

  /** All four components weighted by their units. */
  lemma WeightedTotal(vals: seq<nat>)
    requires |vals| == 4
    ensures WeightedFrom(vals, 0) == vals[0] * 86400 + vals[1] * 3600 + vals[2] * 60 + vals[3]
  {
    assert WeightedFrom(vals, 3) == vals[3];
  }

  /** Leading zero components add nothing. */
  lemma WeightedSkipsZeros(vals: seq<nat>, k: nat)
    requires |vals| == 4 && k < 4 && forall j :: 0 <= j < k ==> vals[j] == 0
    ensures WeightedFrom(vals, k) == WeightedFrom(vals, 0)
  {
    if k >= 1 {
      assert WeightedFrom(vals, 0) == WeightedFrom(vals, 1);
    }
    if k >= 2 {
      assert WeightedFrom(vals, 1) == WeightedFrom(vals, 2);
    }
    if k >= 3 {
      assert WeightedFrom(vals, 2) == WeightedFrom(vals, 3);
    }
  }

  /** Distinct second counts give distinct texts. */
  lemma DurationTextInjective(a: nat, b: nat)
    requires DurationText(a) == DurationText(b)
    ensures a == b
  {
    DurationRoundTrip(a);
    DurationRoundTrip(b);
  }

  /** The text is never empty and ends with the seconds part, so it never suggests a negative duration. */
  lemma DurationTextShape(secs: nat)
    ensures |DurationText(secs)| > 0 && DurationText(secs)[|DurationText(secs)| - 1] == 's'
    ensures '-' !in DurationText(secs)
  {
    var parts := DurationParts(secs);
    var vals := Components(secs);
    assert parts == PartsOf(vals);
    JoinEndsWithLast(parts, " ");
    PartsOfAvoid(vals, '-');
    JoinAlphabet(parts, " ", '-');
  }

  lemma {:induction false} JoinEndsWithLast(parts: seq<string>, sep: string)
    requires |parts| >= 1
    ensures Strings.Join(parts, sep) == Strings.Join(parts[..|parts| - 1], sep) + (if |parts| == 1 then [] else sep) + parts[|parts| - 1]
    decreases |parts|
  {
    if |parts| > 2 {
      JoinEndsWithLast(parts[1..], sep);
      assert parts[1..][..|parts| - 2] == parts[..|parts| - 1][1..];
    }
  }

  lemma {:induction false} JoinAlphabet(parts: seq<string>, sep: string, c: char)
    requires c !in sep
    requires forall i :: 0 <= i < |parts| ==> c !in parts[i]
    ensures c !in Strings.Join(parts, sep)
    decreases |parts|
  {
    if |parts| > 1 {
      JoinAlphabet(parts[1..], sep, c);
    }
  }
}

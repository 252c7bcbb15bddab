/** 2024 day 2: a report (a list of levels) is safe when it only rises or only falls, by 1 to
    3 at each step; the dampener also accepts a report that becomes safe once one level is
    removed. */
module ReportSafety {
  import opened Wrappers
  import opened Text
  import opened Decimal

  const U32_MAX: nat := 0xFFFF_FFFF

  function AbsDiff(a: nat, b: nat): nat
  {
    if a < b then b - a else a - b
  }

  /** Every adjacent pair goes the way `descending` says and changes by 1 to 3. */
  predicate Steps(report: seq<nat>, descending: bool)
  {
    forall i :: 0 <= i < |report| - 1 ==>
      (report[i] > report[i + 1]) == descending && 1 <= AbsDiff(report[i], report[i + 1]) <= 3
  }

  /** The report falls throughout, or rises throughout, with gentle steps. */
  predicate Safe(report: seq<nat>)
  {
    Steps(report, true) || Steps(report, false)
  }

  /** `is_safe`: the windows of two are checked in order; the first window fixes the
      direction, and a window that goes the other way or changes by 0 or more than 3 makes
      the report unsafe. */
  method IsSafe(report: seq<nat>) returns (safe: bool)
    ensures safe == Safe(report)
  {
    var descending: Option<bool> := None;
    var i := 0;
    while i + 1 < |report|
      invariant i <= |report|
      invariant i == 0 <==> descending.None?
      invariant descending.Some? ==> i < |report|
      invariant descending.Some? ==> forall k :: 0 <= k < i ==>
        (report[k] > report[k + 1]) == descending.value
        && 1 <= AbsDiff(report[k], report[k + 1]) <= 3
    {
      var left, right := report[i], report[i + 1];
      var windowDescends := left > right;
      if descending.None? {
        descending := Some(windowDescends);
      }
      if descending.value != windowDescends {
        MixedIsUnsafe(report, 0, i);
        return false;
      }
      var difference := AbsDiff(left, right);
      if !(difference > 0 && difference < 4) {
        SteepIsUnsafe(report, i);
        return false;
      }
      i := i + 1;
    }
    if descending.None? {
      return true;
    }
    assert Steps(report, descending.value);
    return true;
  }

  /** Two windows that go different ways make a report unsafe. */
  lemma MixedIsUnsafe(report: seq<nat>, j: nat, k: nat)
    requires j < |report| - 1 && k < |report| - 1
    requires (report[j] > report[j + 1]) != (report[k] > report[k + 1])
    ensures !Safe(report)
  {
  }

  /** A window that changes by 0 or by more than 3 makes a report unsafe. */
  lemma SteepIsUnsafe(report: seq<nat>, k: nat)
    requires k < |report| - 1 && !(1 <= AbsDiff(report[k], report[k + 1]) <= 3)
    ensures !Safe(report)
  {
  }

  /** A safe report is strictly monotone. */
  lemma SafeIsMonotone(report: seq<nat>, i: nat, j: nat)
    requires Safe(report) && i < j < |report|
    ensures report[i] != report[j]
    ensures Steps(report, true) ==> report[i] > report[j]
    ensures Steps(report, false) ==> report[i] < report[j]
    decreases j - i
  {
    if j > i + 1 {
      SafeIsMonotone(report, i + 1, j);
    }
  }

  /** Reports without two levels are safe: there is no window to check. */
  lemma ShortIsSafe(report: seq<nat>)
    requires |report| <= 1
    ensures Safe(report)
  {
  }

  function RemoveAt(report: seq<nat>, i: nat): (r: seq<nat>)
    requires i < |report|
    ensures |r| == |report| - 1
  {
    report[..i] + report[i + 1..]
  }

  /** The report is safe once some single level is removed. */
  predicate DampenedSafe(report: seq<nat>)
  {
    exists i :: 0 <= i < |report| && Safe(RemoveAt(report, i))
  }

  /** The dampener of `part2`: a clone with level `i` removed is checked for each `i` in
      turn. An empty report has no level to remove and is never accepted. */
  method Dampened(report: seq<nat>) returns (safe: bool)
    ensures safe == DampenedSafe(report)
  {
    for i := 0 to |report|
      invariant forall k :: 0 <= k < i ==> !Safe(RemoveAt(report, k))
    {
      var dampened := RemoveAt(report, i);
      var ok := IsSafe(dampened);
      if ok {
        return true;
      }
    }
    return false;
  }

  /** A non-empty safe report passes the dampener: removing the first level keeps it safe. */
  lemma SafeIsDampenedSafe(report: seq<nat>)
    requires |report| > 0 && Safe(report)
    ensures DampenedSafe(report)
  {
    assert RemoveAt(report, 0) == report[1..];
    if Steps(report, true) {
      StepsTail(report, true);
    } else {
      StepsTail(report, false);
    }
  }

  lemma StepsTail(report: seq<nat>, descending: bool)
    requires |report| > 0 && Steps(report, descending)
    ensures Steps(report[1..], descending)
  {
    var tail := report[1..];
    forall i | 0 <= i < |tail| - 1
      ensures (tail[i] > tail[i + 1]) == descending
      ensures 1 <= AbsDiff(tail[i], tail[i + 1]) <= 3
    {
      assert tail[i] == report[i + 1] && tail[i + 1] == report[i + 2];
    }
  }

  /** The number of safe reports. */
  function SafeCount(reports: seq<seq<nat>>): (n: nat)
    ensures n <= |reports|
  {
    if reports == [] then 0
    else (if Safe(reports[0]) then 1 else 0) + SafeCount(reports[1..])
  }

  /** The number of reports the dampener accepts. */
  function DampenedCount(reports: seq<seq<nat>>): (n: nat)
    ensures n <= |reports|
  {
    if reports == [] then 0
    else (if DampenedSafe(reports[0]) then 1 else 0) + DampenedCount(reports[1..])
  }

  /** With no empty report, the dampener accepts every report that was already safe. */
  lemma {:induction false} Part1AtMostPart2(reports: seq<seq<nat>>)
    requires forall k :: 0 <= k < |reports| ==> |reports[k]| > 0
    ensures SafeCount(reports) <= DampenedCount(reports)
  {
    if reports != [] {
      if Safe(reports[0]) {
        SafeIsDampenedSafe(reports[0]);
      }
      Part1AtMostPart2(reports[1..]);
    }
  }

  /** `part1`: the number of safe reports. */
  method Part1(reports: seq<seq<nat>>) returns (count: nat)
    ensures count == SafeCount(reports)
  {
    count := 0;
    var k := |reports|;
    while k > 0
      invariant 0 <= k <= |reports|
      invariant count == SafeCount(reports[k..])
    {
      k := k - 1;
      assert reports[k..][1..] == reports[k + 1..];
      var safe := IsSafe(reports[k]);
      if safe {
        count := count + 1;
      }
    }
    assert reports[0..] == reports;
  }

  /** `part2`: the number of reports the dampener accepts. */
  method Part2(reports: seq<seq<nat>>) returns (count: nat)
    ensures count == DampenedCount(reports)
  {
    count := 0;
    var k := |reports|;
    while k > 0
      invariant 0 <= k <= |reports|
      invariant count == DampenedCount(reports[k..])
    {
      k := k - 1;
      assert reports[k..][1..] == reports[k + 1..];
      var safe := Dampened(reports[k]);
      if safe {
        count := count + 1;
      }
    }
    assert reports[0..] == reports;
  }

  datatype ParseError = NotANumber

  function ParseReports(lines: seq<string>): (r: Result<seq<seq<nat>>, ParseError>)
    ensures r.Ok? <==> forall k :: 0 <= k < |lines| ==> ParseAll(SplitWhitespace(lines[k]), U32_MAX).Some?
    ensures r.Ok? ==> (|r.value| == |lines|
                       && forall k :: 0 <= k < |lines| ==>
                            ParseAll(SplitWhitespace(lines[k]), U32_MAX) == Some(r.value[k]))
  {
    if lines == [] then Ok([])
    else
      var report := ParseAll(SplitWhitespace(lines[0]), U32_MAX);
      if report.None? then Err(NotANumber)
      else
        var rest := ParseReports(lines[1..]);
        if rest.Err? then rest else Ok([report.value] + rest.value)
  }

  /** `parse`: one report per line; a word that is not a `u32` is an error. */
  function Parse(input: string): (r: Result<seq<seq<nat>>, ParseError>)
    ensures r.Ok? ==> |r.value| == |Lines(input)|
  {
    ParseReports(Lines(input))
  }
}

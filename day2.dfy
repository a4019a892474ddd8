/** Day 2 of src/bin/day2.rs: reports of levels. A report is safe when every
    step between neighbouring levels moves by 1 to 3 in one direction; the
    second part tolerates one bad level (the "dampener"). */
module Day2 {
  import opened Wrappers
  import opened Text

  datatype Direction = Ascending | Descending

  /** `ReportDirection::try_from`: the sign of a difference. */
  function DirectionOf(diff: int): (r: Result<Direction, string>)
    ensures r.Ok? <==> diff != 0
    ensures r == Ok(Ascending) <==> diff > 0
    ensures r == Ok(Descending) <==> diff < 0
  {
    if diff < 0 then Ok(Descending)
    else if diff == 0 then Err("Attempted to determine direction of 2 equal levels.")
    else Ok(Ascending)
  }

  /** `is_safe_diff`: a step of 1, 2 or 3 either way. */
  function IsSafeDiff(diff: int): (b: bool)
    ensures b <==> 1 <= (if diff < 0 then -diff else diff) <= 3
  {
    -3 <= diff <= -1 || 1 <= diff <= 3
  }

  /** The step from `a` to `b` is safe and goes direction `d`. */
  predicate SafeStep(a: int, b: int, d: Direction) {
    IsSafeDiff(b - a) && DirectionOf(b - a) == Ok(d)
  }

  /** Every neighbouring step of `s` is safe and goes direction `d`. */
  predicate AllSafe(s: seq<int>, d: Direction) {
    forall j :: 0 <= j < |s| - 1 ==> SafeStep(s[j], s[j + 1], d)
  }

  /** What part 1 counts: at least three levels, all stepping safely one way. */
  predicate StrictlySafe(s: seq<int>) {
    |s| >= 3 && (AllSafe(s, Ascending) || AllSafe(s, Descending))
  }

  /** An unsafe step rules out both directions. */
  lemma UnsafeStep(s: seq<int>, j: nat)
    requires j + 1 < |s| && !IsSafeDiff(s[j + 1] - s[j])
    ensures !AllSafe(s, Ascending) && !AllSafe(s, Descending)
  {
  }

  /** Part 1's scan of one report: the first step fixes the direction, every
      later one must be safe and keep it, and the report counts when the last
      level is reached. */
  method ScanReport(levels: seq<int>) returns (counted: bool)
    ensures counted <==> StrictlySafe(levels)
  {
    var direction: Option<Direction> := None;
    var previous: Option<int> := None;
    counted := false;
    var index := 0;
    while index < |levels|
      invariant 0 <= index <= |levels|
      invariant previous == if index == 0 then None else Some(levels[index - 1])
      invariant index <= 1 <==> direction.None?
      invariant direction.Some? ==> AllSafe(levels[..index], direction.value)
      invariant counted <==> index == |levels| && index >= 3
    {
      var level := levels[index];
      if previous.Some? {
        var diff := level - previous.value;
        if !IsSafeDiff(diff) {
          UnsafeStep(levels, index - 1);
          break;
        }
        var d := DirectionOf(diff).value;
        if direction.Some? {
          if d != direction.value {
            assert !SafeStep(levels[index - 1], levels[index], direction.value);
            assert SafeStep(levels[..index][0], levels[..index][1], direction.value);
            break;
          }
          if index == |levels| - 1 {
            counted := true;
          }
        } else {
          direction := Some(d);
        }
      }
      previous := Some(level);
      index := index + 1;
    }
    if index == |levels| {
      assert levels[..index] == levels;
    }
  }

  /** `s` without the level at `k`. */
  function Remove(s: seq<int>, k: nat): (r: seq<int>)
    requires k < |s|
    ensures |r| == |s| - 1
  {
    s[..k] + s[k + 1..]
  }

  /** The first unsafe step of a report that is not safe in direction `d`. */
  function FirstUnsafe(s: seq<int>, d: Direction, from: nat): (i: nat)
    requires from <= |s| && !AllSafe(s[from..], d)
    ensures from <= i && i + 1 < |s| && !SafeStep(s[i], s[i + 1], d)
    ensures forall j :: from <= j < i ==> SafeStep(s[j], s[j + 1], d)
    decreases |s| - from
  {
    if SafeStep(s[from], s[from + 1], d) then
      assert !AllSafe(s[from + 1..], d) by {
        var j :| 0 <= j < |s[from..]| - 1 && !SafeStep(s[from..][j], s[from..][j + 1], d);
        assert s[from..][j] == s[from + 1..][j - 1] && s[from..][j + 1] == s[from + 1..][j];
      }
      FirstUnsafe(s, d, from + 1)
    else from
  }

  /** The unsafe step after a safe prefix is the first one. */
  lemma FirstUnsafeAt(s: seq<int>, d: Direction, i: nat)
    requires i + 1 < |s| && !SafeStep(s[i], s[i + 1], d)
    requires forall j :: 0 <= j < i ==> SafeStep(s[j], s[j + 1], d)
    ensures s[0..] == s && !AllSafe(s, d) && FirstUnsafe(s, d, 0) == i
  {
    assert s[0..] == s;
  }

  /** Does step `diff` vote for `d`? Zero votes for neither. */
  function Vote(diff: int, d: Direction): nat {
    if DirectionOf(diff) == Ok(d) then 1 else 0
  }

  function Votes(s: seq<int>, d: Direction): nat
    requires |s| >= 4
  {
    Vote(s[1] - s[0], d) + Vote(s[2] - s[1], d) + Vote(s[3] - s[2], d)
  }

  /** The direction the first three steps (of the first four levels) show at
      least twice, ascending checked first; none when neither does. */
  function MajorityDirection(s: seq<int>): (r: Option<Direction>)
    requires |s| >= 4
    ensures r.Some? ==> Votes(s, r.value) >= 2
    ensures r.None? ==> Votes(s, Ascending) <= 1 && Votes(s, Descending) <= 1
  {
    if Votes(s, Ascending) > 1 then Some(Ascending)
    else if Votes(s, Descending) > 1 then Some(Descending)
    else None
  }

  /** What the dampener accepts in direction `d`: the report as it is, or with
      the left or the right level of its first unsafe step removed. */
  predicate DampenedSafe(s: seq<int>, d: Direction) {
    AllSafe(s, d) || (
      assert s[0..] == s;
      var i := FirstUnsafe(s, d, 0);
      AllSafe(Remove(s, i), d) || AllSafe(Remove(s, i + 1), d))
  }

  /** What part 2 counts for a report of at least four levels. */
  predicate Tolerated(s: seq<int>)
    requires |s| >= 4
  {
    match MajorityDirection(s)
    case None => false
    case Some(d) => DampenedSafe(s, d)
  }

  /** Restoring the removed level over its successor: the level after the
      first removed one is removed instead. */
  lemma RestoreShift(s: seq<int>, i: nat)
    requires i + 1 < |s|
    ensures Remove(s, i)[i := s[i]] == Remove(s, i + 1)
  {
    var a, b := Remove(s, i)[i := s[i]], Remove(s, i + 1);
    assert |a| == |b|;
    forall j | 0 <= j < |a|
      ensures a[j] == b[j]
    {
    }
  }

  datatype Removed = Removed(firstTry: bool, index: nat, value: int)

  /** Where the dampener stands with respect to the report it was given:
      nothing removed yet; the left level of the first unsafe step removed; or
      that level put back over its neighbour, which removes the right one. */
  ghost predicate DampenState(report: seq<int>, d: Direction, levels: seq<int>, removed: Option<Removed>) {
    match removed
    case None => levels == report
    case Some(r) =>
      assert report[0..] == report;
      && !AllSafe(report, d)
      && r.index == FirstUnsafe(report, d, 0) && r.value == report[r.index]
      && if r.firstTry then levels == Remove(report, r.index)
         else levels == Remove(report, r.index + 1) && !AllSafe(Remove(report, r.index), d)
  }

  /** The scan is safe up to step `current` and unsafe there. */
  predicate FailsAt(levels: seq<int>, d: Direction, current: nat) {
    current + 1 < |levels| && !SafeStep(levels[current], levels[current + 1], d)
    && forall j :: 0 <= j < current ==> SafeStep(levels[j], levels[j + 1], d)
  }

  lemma FirstRemoval(report: seq<int>, d: Direction, current: nat)
    requires FailsAt(report, d, current)
    ensures DampenState(report, d, Remove(report, current), Some(Removed(true, current, report[current])))
  {
    FirstUnsafeAt(report, d, current);
  }

  lemma SecondRemoval(report: seq<int>, d: Direction, levels: seq<int>, r: Removed, current: nat)
    requires DampenState(report, d, levels, Some(r)) && r.firstTry && FailsAt(levels, d, current)
    ensures r.index < |levels|
    ensures DampenState(report, d, levels[r.index := r.value], Some(Removed(false, r.index, r.value)))
  {
    assert report[0..] == report;
    RestoreShift(report, r.index);
  }

  lemma GiveUp(report: seq<int>, d: Direction, levels: seq<int>, r: Removed, current: nat)
    requires DampenState(report, d, levels, Some(r)) && !r.firstTry && FailsAt(levels, d, current)
    ensures !DampenedSafe(report, d)
  {
    assert report[0..] == report;
  }

  lemma ScanDone(report: seq<int>, d: Direction, levels: seq<int>, removed: Option<Removed>)
    requires DampenState(report, d, levels, removed) && AllSafe(levels, d)
    ensures DampenedSafe(report, d)
  {
    assert report[0..] == report;
  }

  /** How many restarts the dampener has left. */
  function RestartsLeft(removed: Option<Removed>): nat {
    if removed.None? then 2 else if removed.value.firstTry then 1 else 0
  }

  /** The dampener's answer to an unsafe step at `current`: the first time,
      drop its left level; the second time, put that level back over its
      neighbour; the third time, give up. */
  method Restart(report: seq<int>, d: Direction, levels: seq<int>, removed: Option<Removed>, current: nat)
    returns (levels': seq<int>, removed': Option<Removed>, retry: bool)
    requires |levels| >= |report| - 1
    requires DampenState(report, d, levels, removed) && FailsAt(levels, d, current)
    ensures !retry <==> RestartsLeft(removed) == 0
    ensures !retry ==> !DampenedSafe(report, d)
    ensures retry ==> DampenState(report, d, levels', removed') && |levels'| >= |report| - 1
    ensures retry ==> RestartsLeft(removed') < RestartsLeft(removed)
  {
    match removed {
      case Some(r) =>
        if !r.firstTry {
          GiveUp(report, d, levels, r, current);
          return levels, removed, false;
        }
        SecondRemoval(report, d, levels, r, current);
        levels' := levels[r.index := r.value];
        removed' := Some(Removed(false, r.index, r.value));
      case None =>
        FirstRemoval(report, d, current);
        levels' := Remove(levels, current);
        removed' := Some(Removed(true, current, levels[current]));
    }
    retry := true;
  }

  /** The dampener loop of part 2 in direction `d`: it restarts on an unsafe
      step as `Restart` says, and the report counts when the scan reaches the
      last step. */
  method Dampen(report: seq<int>, d: Direction) returns (counted: bool)
    requires |report| >= 4
    ensures counted <==> DampenedSafe(report, d)
  {
    var levels := report;
    var removed: Option<Removed> := None;
    var current := 0;
    counted := false;
    while current < |levels| - 1
      invariant |levels| >= |report| - 1
      invariant 0 <= current <= |levels| - 1
      invariant forall j :: 0 <= j < current ==> SafeStep(levels[j], levels[j + 1], d)
      invariant DampenState(report, d, levels, removed)
      invariant counted <==> current == |levels| - 1
      decreases RestartsLeft(removed), |levels| - current
    {
      var level, next := levels[current], levels[current + 1];
      if !SafeStep(level, next, d) {
        assert FailsAt(levels, d, current);
        var retry;
        levels, removed, retry := Restart(report, d, levels, removed, current);
        if !retry {
          return false;
        }
        current := 0;
      } else {
        current := current + 1;
      }
      if current == |levels| - 1 {
        counted := true;
      }
    }
    ScanDone(report, d, levels, removed);
  }

  /** Part 2's verdict on one report of at least four levels. */
  method TolerateReport(levels: seq<int>) returns (counted: bool)
    requires |levels| >= 4
    ensures counted <==> Tolerated(levels)
  {
    var direction := MajorityDirection(levels);
    if direction.None? {
      return false;
    }
    counted := Dampen(levels, direction.value);
  }

  /** Safe in direction `d` after taking out at most one level. */
  ghost predicate OneRemovalSafe(s: seq<int>, d: Direction) {
    AllSafe(s, d) || exists k :: 0 <= k < |s| && AllSafe(Remove(s, k), d)
  }

  /** Where the levels around `i` land once the level at `k` is removed. */
  lemma RemoveNeighbours(s: seq<int>, k: nat, i: nat)
    requires k < |s| && i + 1 < |s|
    ensures k < i ==> Remove(s, k)[i - 1] == s[i] && Remove(s, k)[i] == s[i + 1]
    ensures k > i + 1 ==> Remove(s, k)[i] == s[i] && Remove(s, k)[i + 1] == s[i + 1]
  {
  }

  /** A removal that makes the report safe must take out one of the two
      levels of its first unsafe step, which stay neighbours otherwise. */
  lemma RemovalAtFirstUnsafe(s: seq<int>, d: Direction, k: nat)
    requires k < |s| && !AllSafe(s, d) && AllSafe(Remove(s, k), d)
    ensures s[0..] == s
    ensures k == FirstUnsafe(s, d, 0) || k == FirstUnsafe(s, d, 0) + 1
  {
    assert s[0..] == s;
    RemoveNeighbours(s, k, FirstUnsafe(s, d, 0));
  }

  lemma SafeStepSign(a: int, b: int, d: Direction)
    requires SafeStep(a, b, d)
    ensures d == Ascending ==> b > a
    ensures d == Descending ==> b < a
  {
  }

  /** If the report is safe in direction `d`, with or without one level, then
      at least two of its first three steps go direction `d`, so the majority
      picks `d`. */
  lemma MajorityFindsDirection(s: seq<int>, d: Direction, k: nat)
    requires |s| >= 4 && k < |s|
    requires AllSafe(s, d) || AllSafe(Remove(s, k), d)
    ensures MajorityDirection(s) == Some(d)
  {
    if AllSafe(s, d) {
      SafeStepSign(s[0], s[1], d);
      SafeStepSign(s[1], s[2], d);
      SafeStepSign(s[2], s[3], d);
    } else {
      var r := Remove(s, k);
      assert AllSafe(r, d);
      if k == 0 {
        assert r[0] == s[1] && r[1] == s[2] && r[2] == s[3];
        SafeStepSign(r[0], r[1], d);
        SafeStepSign(r[1], r[2], d);
      } else if k == 1 {
        assert r[0] == s[0] && r[1] == s[2] && r[2] == s[3];
        SafeStepSign(r[0], r[1], d);
        SafeStepSign(r[1], r[2], d);
      } else if k == 2 {
        assert r[0] == s[0] && r[1] == s[1] && r[2] == s[3];
        SafeStepSign(r[0], r[1], d);
        SafeStepSign(r[1], r[2], d);
      } else if k == 3 {
        assert r[0] == s[0] && r[1] == s[1] && r[2] == s[2];
        SafeStepSign(r[0], r[1], d);
        SafeStepSign(r[1], r[2], d);
      } else {
        assert r[0] == s[0] && r[1] == s[1] && r[2] == s[2] && r[3] == s[3];
        SafeStepSign(r[0], r[1], d);
        SafeStepSign(r[1], r[2], d);
        SafeStepSign(r[2], r[3], d);
      }
    }
  }

  /** The dampener lets a report through only if some single removal, or
      none, makes it safe in the majority direction. */
  lemma ToleratedSound(s: seq<int>)
    requires |s| >= 4 && Tolerated(s)
    ensures OneRemovalSafe(s, MajorityDirection(s).value)
  {
    assert s[0..] == s;
    var d := MajorityDirection(s).value;
    if !AllSafe(s, d) {
      var i := FirstUnsafe(s, d, 0);
      if AllSafe(Remove(s, i), d) {
        assert 0 <= i < |s|;
      } else {
        assert 0 <= i + 1 < |s| && AllSafe(Remove(s, i + 1), d);
      }
    }
  }

  /** A report that one removal (or none) makes safe in direction `d` is let
      through. */
  lemma ToleratedComplete(s: seq<int>, d: Direction)
    requires |s| >= 4 && OneRemovalSafe(s, d)
    ensures Tolerated(s)
  {
    if AllSafe(s, d) {
      MajorityFindsDirection(s, d, 0);
    } else {
      var k :| 0 <= k < |s| && AllSafe(Remove(s, k), d);
      MajorityFindsDirection(s, d, k);
      RemovalAtFirstUnsafe(s, d, k);
      DampenedByRemoval(s, d, k);
    }
    assert MajorityDirection(s) == Some(d) && DampenedSafe(s, d);
  }

  /** A removal at the first unsafe step, or the one after it, is one the
      dampener tries. */
  lemma DampenedByRemoval(s: seq<int>, d: Direction, k: nat)
    requires k < |s| && !AllSafe(s, d) && AllSafe(Remove(s, k), d)
    requires s[0..] == s && (k == FirstUnsafe(s, d, 0) || k == FirstUnsafe(s, d, 0) + 1)
    ensures DampenedSafe(s, d)
  {
  }

  /** The dampener's restarts and its majority vote count exactly the reports
      that are safe once at most one level is taken out. */
  lemma ToleratedIffOneRemoval(s: seq<int>)
    requires |s| >= 4
    ensures Tolerated(s) <==> OneRemovalSafe(s, Ascending) || OneRemovalSafe(s, Descending)
  {
    if Tolerated(s) {
      ToleratedSound(s);
    }
    if OneRemovalSafe(s, Ascending) {
      ToleratedComplete(s, Ascending);
    }
    if OneRemovalSafe(s, Descending) {
      ToleratedComplete(s, Descending);
    }
  }

  datatype ReportError = InvalidLevel(token: string) | ShortReport(length: nat)

  /** `str::parse::<i64>` of one level; a failure names the piece. */
  function LevelOf(piece: string): (r: Result<int, ReportError>)
    ensures r.Ok? <==> ParseI64(piece).Some?
    ensures r.Ok? ==> ParseI64(piece) == Some(r.value)
    ensures r.Err? ==> r.error == InvalidLevel(piece)
  {
    match ParseI64(piece)
    case None => Err(InvalidLevel(piece))
    case Some(v) => Ok(v)
  }

  /** `report.split(' ').map(str::parse).collect()`. */
  function ReportOf(line: string): Result<seq<int>, ReportError> {
    ParseEach(Split(line, ' '), LevelOf)
  }

  /** `reports` are the levels of the lines, line by line. */
  ghost predicate ReportsOf(lines: seq<string>, reports: seq<seq<int>>) {
    |reports| == |lines| && forall i :: 0 <= i < |lines| ==> ReportOf(lines[i]) == Ok(reports[i])
  }

  /** One more line read. */
  lemma ReportsOfSnoc(lines: seq<string>, reports: seq<seq<int>>, i: nat, levels: seq<int>)
    requires i < |lines| && ReportsOf(lines[..i], reports) && ReportOf(lines[i]) == Ok(levels)
    ensures ReportsOf(lines[..i + 1], reports + [levels])
    ensures (reports + [levels])[..|reports|] == reports
  {
    assert (reports + [levels])[..|reports|] == reports;
    forall j | 0 <= j < i + 1
      ensures ReportOf(lines[..i + 1][j]) == Ok((reports + [levels])[j])
    {
      if j < i {
        assert lines[..i + 1][j] == lines[..i][j];
      }
    }
  }

  function SafeCount(reports: seq<seq<int>>): nat {
    if reports == [] then 0
    else SafeCount(reports[..|reports| - 1]) + if StrictlySafe(reports[|reports| - 1]) then 1 else 0
  }

  /** `part1`: the number of strictly safe reports. */
  method Part1(input: string) returns (r: Result<nat, ReportError>)
    ensures r.Ok? <==> forall i :: 0 <= i < |Lines(input)| ==> ReportOf(Lines(input)[i]).Ok?
    ensures r.Ok? ==> exists reports :: ReportsOf(Lines(input), reports) && r.value == SafeCount(reports)
  {
    var lines := Lines(input);
    var count := 0;
    ghost var reports: seq<seq<int>> := [];
    var i := 0;
    while i < |lines|
      invariant 0 <= i <= |lines|
      invariant ReportsOf(lines[..i], reports)
      invariant count == SafeCount(reports)
    {
      var levels := ReportOf(lines[i]);
      if levels.Err? {
        assert !ReportOf(Lines(input)[i]).Ok?;
        return Err(levels.error);
      }
      var counted := ScanReport(levels.value);
      ReportsOfSnoc(lines, reports, i, levels.value);
      reports := reports + [levels.value];
      if counted {
        count := count + 1;
      }
      i := i + 1;
    }
    assert lines[..i] == lines;
    r := Ok(count);
  }

  /** The number of reports part 2 lets through; it reads only reports of at
      least four levels, the others never reach the count. */
  function ToleratedCount(reports: seq<seq<int>>): nat {
    if reports == [] then 0
    else
      var last := reports[|reports| - 1];
      ToleratedCount(reports[..|reports| - 1]) + if |last| >= 4 && Tolerated(last) then 1 else 0
  }

  lemma ToleratedCountSnoc(reports: seq<seq<int>>, levels: seq<int>, counted: bool)
    requires |levels| >= 4 && (counted <==> Tolerated(levels))
    ensures ToleratedCount(reports + [levels]) == ToleratedCount(reports) + if counted then 1 else 0
  {
    assert (reports + [levels])[..|reports|] == reports;
  }

  /** Part 2 accepts a line when it parses and has at least four levels. */
  predicate LongReport(line: string) {
    ReportOf(line).Ok? && |ReportOf(line).value| >= 4
  }

  /** Part 2's reading of one line: its levels, or why the whole part fails. */
  method ReadLongReport(line: string) returns (r: Result<seq<int>, ReportError>)
    ensures r.Ok? <==> LongReport(line)
    ensures r.Ok? ==> ReportOf(line) == Ok(r.value) && |r.value| >= 4
  {
    r := ReportOf(line);
    if r.Ok? && |r.value| < 4 {
      r := Err(ShortReport(|r.value|));
    }
  }

  /** One line of part 2: its long report is read, judged and added to the
      count of tolerated reports so far. */
  method TallyLine(line: string, ghost reports: seq<seq<int>>, count: nat) returns (r: Result<nat, ReportError>)
    requires count == ToleratedCount(reports)
    ensures r.Ok? <==> LongReport(line)
    ensures r.Ok? ==> LongReport(line) && r.value == ToleratedCount(reports + [ReportOf(line).value])
  {
    var levels := ReadLongReport(line);
    if levels.Err? {
      return Err(levels.error);
    }
    var counted := TolerateReport(levels.value);
    ToleratedCountSnoc(reports, levels.value, counted);
    r := Ok(if counted then count + 1 else count);
  }

  /** `part2`: the number of reports the dampener lets through; a report
      shorter than four levels fails the whole part. */
  method Part2(input: string) returns (r: Result<nat, ReportError>)
    ensures r.Ok? <==> forall i :: 0 <= i < |Lines(input)| ==> LongReport(Lines(input)[i])
    ensures r.Ok? ==> exists reports ::
      ReportsOf(Lines(input), reports) && r.value == ToleratedCount(reports)
  {
    var lines := Lines(input);
    var count := 0;
    ghost var reports: seq<seq<int>> := [];
    var i := 0;
    while i < |lines|
      invariant 0 <= i <= |lines|
      invariant Every(lines[..i], LongReport)
      invariant ReportsOf(lines[..i], reports)
      invariant count == ToleratedCount(reports)
    {
      var tallied := TallyLine(lines[i], reports, count);
      if tallied.Err? {
        assert !LongReport(Lines(input)[i]);
        return Err(tallied.error);
      }
      EverySnoc(lines, i, LongReport);
      ghost var levels := ReportOf(lines[i]).value;
      ReportsOfSnoc(lines, reports, i, levels);
      reports := reports + [levels];
      count := tallied.value;
      i := i + 1;
    }
    assert lines[..i] == lines;
    EveryIff(lines, LongReport);
    r := Ok(count);
  }
}

/** Part 1 of src/bin/day15.rs: a robot pushes rows of boxes around a
    warehouse bordered by walls. A move finds the first empty cell past the
    boxes in front of the robot; if a wall comes first nothing moves,
    otherwise the box next to the robot jumps to that gap and the robot
    steps forward. The answer is the GPS sum of the boxes at the end. */
module Day15 {
  import opened Wrappers
  import opened Text
  import opened Vectors
  import opened Day15Grid

  datatype PositionType = Box | Empty | Wall

  /** Why an input is refused. `NoBlankLine` and `NoRobot` are the errors
      `part1` returns; the rest are its panics: an unwrapped second
      `OnceCell::set`, an unwrapped `try_from` error for a map or a movement
      character, and the two assertions of `from_iter`. */
  datatype WarehouseError = NoBlankLine | SecondRobot | UnknownPosition | NoRows | RaggedRows | NoRobot | UnknownMovement

  /** `PositionType::try_from`: the robot stands on an empty cell. */
  function DecodePosition(c: char): (r: Option<PositionType>)
    ensures r.Some? <==> c in "O@.#"
    ensures r == Some(Box) <==> c == 'O'
    ensures r == Some(Wall) <==> c == '#'
  {
    match c
    case 'O' => Some(Box)
    case '@' => Some(Empty)
    case '.' => Some(Empty)
    case '#' => Some(Wall)
    case _ => None
  }

  /** `Direction::try_from`: `.` is read as North too. */
  function DecodeMovement(c: char): (r: Option<Direction>)
    ensures r.Some? <==> c in "><^v."
    ensures r == Some(East) <==> c == '>'
    ensures r == Some(North) <==> c == '^' || c == '.'
    ensures r == Some(South) <==> c == 'v'
    ensures r == Some(West) <==> c == '<'
  {
    match c
    case '>' => Some(East)
    case '^' => Some(North)
    case '.' => Some(North)
    case 'v' => Some(South)
    case '<' => Some(West)
    case _ => None
  }

  // Parsing the map

  /** The character of the map text at `p`, if there is one. */
  function CharAt(lines: seq<string>, p: IVec2): Option<char> {
    if 0 <= p.y < |lines| && 0 <= p.x < |lines[p.y]| then Some(lines[p.y][p.x]) else None
  }

  /** `p` is at or after column `x` of row `y` in reading order. */
  predicate From(p: IVec2, x: int, y: int) {
    p.y > y || (p.y == y && p.x >= x)
  }

  /** Every character from (x, y) on is a map character. */
  ghost predicate CharsFrom(lines: seq<string>, x: int, y: int) {
    forall p :: From(p, x, y) && CharAt(lines, p).Some? ==> DecodePosition(CharAt(lines, p).value).Some?
  }

  /** There are no two robots from (x, y) on. */
  ghost predicate AtMostOneFrom(lines: seq<string>, x: int, y: int) {
    forall p, q :: From(p, x, y) && From(q, x, y) && CharAt(lines, p) == Some('@') && CharAt(lines, q) == Some('@') ==> p == q
  }

  /** There is no robot from (x, y) on. */
  ghost predicate NoRobotFrom(lines: seq<string>, x: int, y: int) {
    forall p :: From(p, x, y) ==> CharAt(lines, p) != Some('@')
  }

  /** The scan `collect` drives in reading order: at each character an `@`
      sets the robot (a second one panics), and then the character is
      decoded (any other character panics). */
  function ScanFrom(lines: seq<string>, x: nat, y: nat, robot: Option<IVec2>): Result<Option<IVec2>, WarehouseError>
    requires y <= |lines| && (y < |lines| ==> x <= |lines[y]|)
    decreases |lines| - y, if y < |lines| then |lines[y]| - x else 0
  {
    if y == |lines| then Ok(robot)
    else if x == |lines[y]| then ScanFrom(lines, 0, y + 1, robot)
    else
      var c := lines[y][x];
      if c == '@' && robot.Some? then Err(SecondRobot)
      else if DecodePosition(c).None? then Err(UnknownPosition)
      else ScanFrom(lines, x + 1, y, if c == '@' then Some(IVec2(x, y)) else robot)
  }

  /** What the scan from (x, y) decides, given a robot found only before
      (x, y): it succeeds exactly when the rest of the text holds map
      characters and at most one robot, none if one was already found; the
      robot it ends with is the one it meets or the one it was given; and
      each error names a real defect. */
  lemma {:induction false} ScanFromMeaning(lines: seq<string>, x: nat, y: nat, robot: Option<IVec2>)
    requires y <= |lines| && (y < |lines| ==> x <= |lines[y]|)
    requires robot.Some? ==> CharAt(lines, robot.value) == Some('@') && !From(robot.value, x, y)
    ensures var r := ScanFrom(lines, x, y, robot);
      && (r.Ok? <==> CharsFrom(lines, x, y) && AtMostOneFrom(lines, x, y) && (robot.Some? ==> NoRobotFrom(lines, x, y)))
      && (r.Ok? ==> forall p :: From(p, x, y) && CharAt(lines, p) == Some('@') ==> r.value == Some(p))
      && (r.Ok? && NoRobotFrom(lines, x, y) ==> r.value == robot)
      && (r.Err? ==> r.error == UnknownPosition || r.error == SecondRobot)
      && (r == Err(UnknownPosition) ==> !CharsFrom(lines, x, y))
      && (r == Err(SecondRobot) ==> exists p, q :: p != q && CharAt(lines, p) == Some('@') && CharAt(lines, q) == Some('@'))
    decreases |lines| - y, if y < |lines| then |lines[y]| - x else 0
  {
    if y == |lines| {
      assert forall p :: !(From(p, x, y) && CharAt(lines, p).Some?);
    } else if x == |lines[y]| {
      ScanFromMeaning(lines, 0, y + 1, robot);
      forall p | From(p, x, y) && CharAt(lines, p).Some?
        ensures From(p, 0, y + 1)
      {
      }
    } else {
      var c, here := lines[y][x], IVec2(x, y);
      assert CharAt(lines, here) == Some(c);
      forall p | From(p, x, y) && p != here
        ensures From(p, x + 1, y)
      {
      }
      if c == '@' && robot.Some? {
        assert robot.value != here;
      } else if DecodePosition(c).None? {
      } else {
        var robot' := if c == '@' then Some(here) else robot;
        ScanFromMeaning(lines, x + 1, y, robot');
      }
    }
  }

  /** The map text `from_iter` and the robot accept: map characters only,
      at least one row, rows of one length, one `@`. */
  ghost predicate WellFormed(lines: seq<string>) {
    && CharsFrom(lines, 0, 0)
    && |lines| > 0
    && (forall y :: 0 <= y < |lines| ==> |lines[y]| == |lines[0]|)
    && exists p :: CharAt(lines, p) == Some('@') && forall q :: CharAt(lines, q) == Some('@') ==> q == p
  }

  predicate MapRow(line: string) {
    forall x :: 0 <= x < |line| ==> DecodePosition(line[x]).Some?
  }

  function DecodeRow(line: string): (r: seq<PositionType>)
    requires MapRow(line)
    ensures |r| == |line| && forall x :: 0 <= x < |line| ==> Some(r[x]) == DecodePosition(line[x])
  {
    seq(|line|, x requires 0 <= x < |line| => DecodePosition(line[x]).value)
  }

  /** The map parse of `part1`: the character scan, then `from_iter`'s
      two assertions, then the robot. */
  function FromLines(lines: seq<string>): (r: Result<(seq<seq<PositionType>>, IVec2), WarehouseError>)
    ensures r.Ok? ==> var (rows, robot) := r.value;
      && Rect(rows) && |rows| == |lines|
      && (forall y :: 0 <= y < |lines| ==> MapRow(lines[y]) && rows[y] == DecodeRow(lines[y]))
      && CharAt(lines, robot) == Some('@') && InBounds(rows, robot) && At(rows, robot) == Empty
  {
    ScanFromMeaning(lines, 0, 0, None);
    match ScanFrom(lines, 0, 0, None)
    case Err(e) => Err(e)
    case Ok(robot) =>
      if |lines| == 0 then Err(NoRows)
      else if exists y :: 1 <= y < |lines| && |lines[y]| != |lines[0]| then Err(RaggedRows)
      else if robot.None? then Err(NoRobot)
      else
        assert forall y, x :: 0 <= y < |lines| && 0 <= x < |lines[y]| ==> CharAt(lines, IVec2(x, y)) == Some(lines[y][x]);
        var rows := seq(|lines|, y requires 0 <= y < |lines| => DecodeRow(lines[y]));
        Ok((rows, robot.value))
  }

  /** The map parse succeeds exactly on well-formed text, and each error is
      the first defect in the source's order: a bad character or a second
      robot, no rows, rows of two lengths, no robot. */
  lemma FromLinesMeaning(lines: seq<string>)
    ensures FromLines(lines).Ok? <==> WellFormed(lines)
    ensures FromLines(lines) == Err(UnknownPosition) ==> !CharsFrom(lines, 0, 0)
    ensures FromLines(lines) == Err(SecondRobot) ==> exists p, q :: p != q && CharAt(lines, p) == Some('@') && CharAt(lines, q) == Some('@')
    ensures FromLines(lines).Err? && CharsFrom(lines, 0, 0) && AtMostOneFrom(lines, 0, 0) ==>
      FromLines(lines).error == (if |lines| == 0 then NoRows
        else if exists y :: 0 <= y < |lines| && |lines[y]| != |lines[0]| then RaggedRows
        else NoRobot)
  {
    ScanFromMeaning(lines, 0, 0, None);
    assert forall p :: CharAt(lines, p).Some? ==> From(p, 0, 0);
  }

  // Parsing the movements

  /** `replace('\n', "")`. */
  function WithoutNewlines(s: string): (r: string)
    ensures '\n' !in r
    ensures forall c :: c != '\n' ==> (c in r <==> c in s)
  {
    if s == [] then []
    else (if s[0] == '\n' then [] else [s[0]]) + WithoutNewlines(s[1..])
  }

  /** The movement list: every character decoded, the first one that is no
      movement a panic. */
  function DecodeMovements(s: string): (r: Result<seq<Direction>, WarehouseError>)
    ensures r.Ok? <==> forall i :: 0 <= i < |s| ==> DecodeMovement(s[i]).Some?
    ensures r.Ok? ==> |r.value| == |s| && forall i :: 0 <= i < |s| ==> Some(r.value[i]) == DecodeMovement(s[i])
    ensures r.Err? ==> r.error == UnknownMovement
  {
    if s == [] then Ok([])
    else match DecodeMovement(s[0])
      case None => Err(UnknownMovement)
      case Some(d) =>
        match DecodeMovements(s[1..])
        case Err(e) => Err(e)
        case Ok(ds) =>
          assert forall i :: 1 <= i < |s| ==> s[i] == s[1..][i - 1];
          Ok([d] + ds)
  }

  /** Both parts' input: the map and the movements either side of the first
      blank line. */
  function Parse(input: string): (r: Result<(seq<seq<PositionType>>, IVec2, seq<Direction>), WarehouseError>)
    ensures r.Ok? ==> var (rows, robot, _) := r.value; Rect(rows) && InBounds(rows, robot) && At(rows, robot) == Empty
  {
    match SplitOnce(input, "\n\n")
    case None => Err(NoBlankLine)
    case Some((warehouse, movements)) =>
      match FromLines(Lines(warehouse))
      case Err(e) => Err(e)
      case Ok((rows, robot)) =>
        match DecodeMovements(WithoutNewlines(movements))
        case Err(e) => Err(e)
        case Ok(moves) => Ok((rows, robot, moves))
  }

  // Moving

  /** Every cell of the outer ring is a wall. */
  ghost predicate Walled(rows: seq<seq<PositionType>>) {
    forall p :: InBounds(rows, p) && OnBorder(rows, p) ==> At(rows, p) == Wall
  }

  /** The state every move keeps: a walled rectangle with the robot on an
      empty cell of it. */
  ghost predicate Ready(rows: seq<seq<PositionType>>, robot: IVec2) {
    Rect(rows) && Walled(rows) && InBounds(rows, robot) && At(rows, robot) == Empty
  }

  /** `q` lies strictly beyond `p` on the ray from `p` in direction `d`. */
  predicate Beyond(p: IVec2, d: Direction, q: IVec2) {
    match d
    case East => q.y == p.y && q.x > p.x
    case North => q.x == p.x && q.y < p.y
    case South => q.x == p.x && q.y > p.y
    case West => q.y == p.y && q.x < p.x
  }

  /** `c` lies strictly between `p` and `q` on that ray. */
  predicate Between(p: IVec2, d: Direction, c: IVec2, q: IVec2) {
    Beyond(p, d, c) && Beyond(c, d, q)
  }

  /** A step from a cell that is not a wall stays on the grid. */
  lemma StepOff(rows: seq<seq<PositionType>>, p: IVec2, d: Direction)
    requires Rect(rows) && Walled(rows) && InBounds(rows, p) && At(rows, p) != Wall
    ensures InBounds(rows, p.Add(Xy(d))) && Room(rows, p.Add(Xy(d)), d) < Room(rows, p, d)
  {
    StepInside(rows, p, d);
  }

  /** The scan of `next_empty_space`: step over boxes; an empty cell is the
      gap, a wall means there is none. */
  function Gap(rows: seq<seq<PositionType>>, p: IVec2, d: Direction): Option<IVec2>
    requires Rect(rows) && Walled(rows) && InBounds(rows, p) && At(rows, p) != Wall
    decreases Room(rows, p, d)
  {
    StepOff(rows, p, d);
    var q := p.Add(Xy(d));
    match At(rows, q)
    case Box => Gap(rows, q, d)
    case Empty => Some(q)
    case Wall => None
  }

  /** The gap is the first cell past a run of boxes, and it is empty; when
      there is none, the first cell past the run is a wall. */
  lemma {:induction false} GapMeaning(rows: seq<seq<PositionType>>, p: IVec2, d: Direction)
    requires Rect(rows) && Walled(rows) && InBounds(rows, p) && At(rows, p) != Wall
    ensures match Gap(rows, p, d)
      case Some(q) =>
        && Beyond(p, d, q) && InBounds(rows, q) && At(rows, q) == Empty
        && forall c :: Between(p, d, c, q) ==> InBounds(rows, c) && At(rows, c) == Box
      case None =>
        exists q :: && Beyond(p, d, q) && InBounds(rows, q) && At(rows, q) == Wall
                    && forall c :: Between(p, d, c, q) ==> InBounds(rows, c) && At(rows, c) == Box
    decreases Room(rows, p, d)
  {
    StepOff(rows, p, d);
    var q := p.Add(Xy(d));
    assert forall c :: Beyond(p, d, c) ==> c == q || Beyond(q, d, c);
    match At(rows, q)
    case Box => GapMeaning(rows, q, d);
    case Empty =>
    case Wall =>
      assert Beyond(p, d, q);
  }

  /** The warehouse map, whose rows the moves of part 1 rewrite. */
  class WarehouseMap {
    var rows: seq<seq<PositionType>>

    constructor (rows: seq<seq<PositionType>>)
      ensures this.rows == rows
    {
      this.rows := rows;
    }

    /** `next_empty_space`: the step loop behind `Gap`. */
    method NextEmptySpace(position: IVec2, direction: Direction) returns (r: Option<IVec2>)
      requires Rect(rows) && Walled(rows) && InBounds(rows, position) && At(rows, position) != Wall
      ensures r == Gap(rows, position, direction)
    {
      var p := position;
      while true
        invariant InBounds(rows, p) && At(rows, p) != Wall
        invariant Gap(rows, p, direction) == Gap(rows, position, direction)
        decreases Room(rows, p, direction)
      {
        StepOff(rows, p, direction);
        p := p.Add(Xy(direction));
        match At(rows, p)
        case Box =>
        case Empty => return Some(p);
        case Wall => return None;
      }
    }
  }

  /** One movement of `part1`, as a value: with no gap nothing changes;
      otherwise the robot steps forward, and when a box stood there it is
      moved to the gap. */
  function Move(rows: seq<seq<PositionType>>, robot: IVec2, d: Direction): (seq<seq<PositionType>>, IVec2)
    requires Ready(rows, robot)
  {
    match Gap(rows, robot, d)
    case None => (rows, robot)
    case Some(gap) =>
      var next := robot.Add(Xy(d));
      StepOff(rows, robot, d);
      if gap != next then
        GapMeaning(rows, robot, d);
        (Update(Update(rows, gap, Box), next, Empty), next)
      else (rows, next)
  }

  /** A move keeps the warehouse ready: the walls stay where they were, the
      robot stays on the grid on an empty cell, and it advances exactly one
      cell or not at all, not at all exactly when there is no gap. */
  lemma MoveKeepsReady(rows: seq<seq<PositionType>>, robot: IVec2, d: Direction)
    requires Ready(rows, robot)
    ensures var (rows', robot') := Move(rows, robot, d);
      && Ready(rows', robot')
      && Cells(rows', Wall) == Cells(rows, Wall)
      && (Gap(rows, robot, d).None? ==> rows' == rows && robot' == robot)
      && (Gap(rows, robot, d).Some? ==> robot' == robot.Add(Xy(d)))
  {
    var (rows', robot') := Move(rows, robot, d);
    if gap :| Gap(rows, robot, d) == Some(gap) {
      var next := robot.Add(Xy(d));
      StepOff(rows, robot, d);
      GapMeaning(rows, robot, d);
      if gap != next {
        assert Between(robot, d, next, gap);
        var mid := Update(rows, gap, Box);
        CellsUpdate(rows, gap, Box, Wall);
        CellsUpdate(mid, next, Empty, Wall);
        assert forall y :: 0 <= y < |rows'| ==> |rows'[y]| == |rows[y]|;
      }
    }
  }

  /** A push moves the box next to the robot to the gap, so the set of
      boxes loses the robot's new cell and gains the gap, and there are as
      many boxes as before. */
  lemma MoveKeepsBoxes(rows: seq<seq<PositionType>>, robot: IVec2, d: Direction)
    requires Ready(rows, robot)
    ensures var (rows', robot') := Move(rows, robot, d);
      && |Cells(rows', Box)| == |Cells(rows, Box)|
      && (match Gap(rows, robot, d)
          case Some(gap) => gap != robot' ==>
            robot' in Cells(rows, Box) && Cells(rows', Box) == Cells(rows, Box) - {robot'} + {gap}
          case None => true)
  {
    var (rows', robot') := Move(rows, robot, d);
    if gap :| Gap(rows, robot, d) == Some(gap) {
      var next := robot.Add(Xy(d));
      StepOff(rows, robot, d);
      GapMeaning(rows, robot, d);
      if gap != next {
        assert Between(robot, d, next, gap);
        var mid := Update(rows, gap, Box);
        CellsUpdate(rows, gap, Box, Box);
        CellsUpdate(mid, next, Empty, Box);
        var boxes := Cells(rows, Box);
        assert gap !in boxes && next in boxes;
        assert Cells(rows', Box) == boxes - {next} + {gap};
        assert |boxes - {next}| == |boxes| - 1;
      }
    }
  }

  /** A push changes the GPS sum by the move of one box, from the robot's
      new cell to the gap. */
  lemma MoveGps(rows: seq<seq<PositionType>>, robot: IVec2, d: Direction)
    requires Ready(rows, robot)
    ensures var (rows', robot') := Move(rows, robot, d);
      Gps(rows', |rows'|, Box) == Gps(rows, |rows|, Box) + match Gap(rows, robot, d)
        case Some(gap) => if gap != robot' then Coordinate(gap) - Coordinate(robot') else 0
        case None => 0
  {
    var (rows', robot') := Move(rows, robot, d);
    if gap :| Gap(rows, robot, d) == Some(gap) {
      var next := robot.Add(Xy(d));
      StepOff(rows, robot, d);
      GapMeaning(rows, robot, d);
      if gap != next {
        assert Between(robot, d, next, gap);
        var mid := Update(rows, gap, Box);
        GpsUpdate(rows, |rows|, gap, Box, Box);
        GpsUpdate(mid, |mid|, next, Empty, Box);
        assert At(mid, next) == Box;
      }
    }
  }

  /** Lines 156-169 of `part1`: one movement applied to the map in place. */
  method MoveRobot(warehouse: WarehouseMap, robot: IVec2, d: Direction) returns (robot': IVec2)
    requires Ready(warehouse.rows, robot)
    modifies warehouse
    ensures (warehouse.rows, robot') == Move(old(warehouse.rows), robot, d)
  {
    var gap := warehouse.NextEmptySpace(robot, d);
    if gap.None? {
      return robot;
    }
    var next := robot.Add(Xy(d));
    StepOff(warehouse.rows, robot, d);
    if gap.value != next {
      GapMeaning(warehouse.rows, robot, d);
      warehouse.rows := Update(warehouse.rows, gap.value, Box);
      warehouse.rows := Update(warehouse.rows, next, Empty);
    }
    robot' := next;
  }

  /** The warehouse after the movements `moves`, one after another. */
  function Run(rows: seq<seq<PositionType>>, robot: IVec2, moves: seq<Direction>): (r: (seq<seq<PositionType>>, IVec2))
    requires Ready(rows, robot)
    ensures Ready(r.0, r.1)
  {
    if moves == [] then (rows, robot)
    else
      var (rows', robot') := Run(rows, robot, moves[..|moves| - 1]);
      MoveKeepsReady(rows', robot', moves[|moves| - 1]);
      Move(rows', robot', moves[|moves| - 1])
  }

  /** Over any movements the boxes are never lost nor created and the
      walls never move. */
  lemma {:induction false} RunKeepsBoxes(rows: seq<seq<PositionType>>, robot: IVec2, moves: seq<Direction>)
    requires Ready(rows, robot)
    ensures |Cells(Run(rows, robot, moves).0, Box)| == |Cells(rows, Box)|
    ensures Cells(Run(rows, robot, moves).0, Wall) == Cells(rows, Wall)
  {
    if moves != [] {
      RunKeepsBoxes(rows, robot, moves[..|moves| - 1]);
      var (rows', robot') := Run(rows, robot, moves[..|moves| - 1]);
      MoveKeepsReady(rows', robot', moves[|moves| - 1]);
      MoveKeepsBoxes(rows', robot', moves[|moves| - 1]);
    }
  }

  /** The movement loop of `part1`. */
  method RunMoves(warehouse: WarehouseMap, robot: IVec2, moves: seq<Direction>) returns (robot': IVec2)
    requires Ready(warehouse.rows, robot)
    modifies warehouse
    ensures (warehouse.rows, robot') == Run(old(warehouse.rows), robot, moves)
  {
    robot' := robot;
    for i := 0 to |moves|
      invariant (warehouse.rows, robot') == Run(old(warehouse.rows), robot, moves[..i])
    {
      assert moves[..i + 1][..i] == moves[..i];
      robot' := MoveRobot(warehouse, robot', moves[i]);
    }
    assert moves[..|moves|] == moves;
  }

  /** Inputs whose map, once parsed, is bordered by walls: on any other map
      a push can reach past the edge, where the source's indexing panics. */
  ghost predicate Enclosed(input: string) {
    Parse(input).Ok? ==> Walled(Parse(input).value.0)
  }

  /** `part1`: the GPS sum of the boxes after all the movements. */
  method Part1(input: string) returns (r: Result<nat, WarehouseError>)
    requires Enclosed(input)
    ensures r.Ok? <==> Parse(input).Ok?
    ensures r.Err? ==> r.error == Parse(input).error
    ensures r.Ok? ==> var (rows, robot, moves) := Parse(input).value;
      var final := Run(rows, robot, moves).0; r.value == Gps(final, |final|, Box)
  {
    var parsed := Parse(input);
    if parsed.Err? {
      return Err(parsed.error);
    }
    var (rows, robot, moves) := parsed.value;
    var warehouse := new WarehouseMap(rows);
    var _ := RunMoves(warehouse, robot, moves);
    var sum := GpsSum(warehouse.rows, Box);
    r := Ok(sum);
  }
}

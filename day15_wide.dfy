/** The double-width warehouse of part 2 of src/bin/day15.rs: every map
    character becomes two cells, a box a Left and a Right segment. This
    module holds the cells, the wide parse, the invariant the moves keep
    (walls around the map, every box an intact Left/Right pair, the robot
    on an empty cell) and the horizontal push. */
module Day15Wide {
  import opened Wrappers
  import opened Text
  import opened Vectors
  import opened Day15Grid
  import N = Day15

  datatype BoxSegment = Left | Right

  /** `BoxSegment::inverse`: the other segment. */
  function Inverse(s: BoxSegment): (r: BoxSegment)
    ensures r != s
  {
    match s
    case Left => Right
    case Right => Left
  }

  /** The other segment of the other segment is the segment itself. */
  lemma InverseInvolutive(s: BoxSegment)
    ensures Inverse(Inverse(s)) == s
  {
  }

  datatype WidePositionType = Box(segment: BoxSegment) | Empty | Wall

  // The wide parse

  /** The two cells the `flat_map` closure yields for a map character. */
  function WideCells(c: char): seq<WidePositionType>
    requires N.DecodePosition(c).Some?
  {
    match c
    case 'O' => [Box(Left), Box(Right)]
    case '@' => [Empty, Empty]
    case '.' => [Empty, Empty]
    case '#' => [Wall, Wall]
  }

  /** One row of the wide map: the cells of its characters, in order. */
  function WideRow(line: string): seq<WidePositionType>
    requires N.MapRow(line)
  {
    if line == [] then [] else WideCells(line[0]) + WideRow(line[1..])
  }

  /** The left (`left`) or right half of a narrow cell. */
  function Half(cell: N.PositionType, left: bool): WidePositionType {
    match cell
    case Box => Box(if left then Left else Right)
    case Empty => Empty
    case Wall => Wall
  }

  /** A narrow row with every cell doubled. */
  function WidenRow(row: seq<N.PositionType>): (r: seq<WidePositionType>)
    ensures |r| == 2 * |row|
    ensures forall i :: 0 <= i < |r| ==> r[i] == Half(row[i / 2], i % 2 == 0)
  {
    if row == [] then []
    else
      var rest := WidenRow(row[1..]);
      assert forall i :: 2 <= i < 2 * |row| ==> i / 2 == (i - 2) / 2 + 1 && i % 2 == (i - 2) % 2;
      [Half(row[0], true), Half(row[0], false)] + rest
  }

  /** The narrow map with every cell doubled. */
  function Widen(rows: seq<seq<N.PositionType>>): (r: seq<seq<WidePositionType>>)
    ensures |r| == |rows| && forall y :: 0 <= y < |rows| ==> r[y] == WidenRow(rows[y])
  {
    seq(|rows|, y requires 0 <= y < |rows| => WidenRow(rows[y]))
  }

  /** The closure's cells are the doubled decoded characters. */
  lemma {:induction false} WideRowIsWidened(line: string)
    requires N.MapRow(line)
    ensures WideRow(line) == WidenRow(N.DecodeRow(line))
  {
    if line != [] {
      WideRowIsWidened(line[1..]);
      assert N.DecodeRow(line)[1..] == N.DecodeRow(line[1..]);
    }
  }

  /** The map parse of `part2`: the same character scan as part 1 with the
      robot's column doubled, then `from_iter`'s assertions on the wide
      rows, then the robot. */
  function WideFromLines(lines: seq<string>): Result<(seq<seq<WidePositionType>>, IVec2), N.WarehouseError> {
    N.ScanFromMeaning(lines, 0, 0, None);
    assert forall y, x :: 0 <= y < |lines| && 0 <= x < |lines[y]| ==> N.CharAt(lines, IVec2(x, y)) == Some(lines[y][x]);
    match N.ScanFrom(lines, 0, 0, None)
    case Err(e) => Err(e)
    case Ok(robot) =>
      var rows := seq(|lines|, y requires 0 <= y < |lines| => WideRow(lines[y]));
      if |rows| == 0 then Err(N.NoRows)
      else if exists y :: 1 <= y < |rows| && |rows[y]| != |rows[0]| then Err(N.RaggedRows)
      else if robot.None? then Err(N.NoRobot)
      else Ok((rows, IVec2(2 * robot.value.x, robot.value.y)))
  }

  /** The wide parse is the narrow parse doubled: the same errors, every
      row widened, and the robot's column doubled. */
  lemma WideFromLinesIsWidened(lines: seq<string>)
    ensures WideFromLines(lines) == match N.FromLines(lines)
      case Err(e) => Err(e)
      case Ok((rows, robot)) => Ok((Widen(rows), IVec2(2 * robot.x, robot.y)))
  {
    N.ScanFromMeaning(lines, 0, 0, None);
    assert forall y, x :: 0 <= y < |lines| && 0 <= x < |lines[y]| ==> N.CharAt(lines, IVec2(x, y)) == Some(lines[y][x]);
    if N.ScanFrom(lines, 0, 0, None).Ok? {
      forall y | 0 <= y < |lines|
        ensures WideRow(lines[y]) == WidenRow(N.DecodeRow(lines[y])) && |WideRow(lines[y])| == 2 * |lines[y]|
      {
        WideRowIsWidened(lines[y]);
      }
      var rows := seq(|lines|, y requires 0 <= y < |lines| => WideRow(lines[y]));
      if y :| 1 <= y < |lines| && |lines[y]| != |lines[0]| {
        assert |rows[y]| != |rows[0]|;
      } else if |lines| > 0 {
        forall y | 1 <= y < |rows|
          ensures |rows[y]| == |rows[0]|
        {
          assert |lines[y]| == |lines[0]|;
        }
      }
      if N.FromLines(lines).Ok? {
        var (narrow, robot) := N.FromLines(lines).value;
        assert Widen(narrow) == rows;
      }
    }
  }

  /** `part2`'s input: the wide map and the movements. */
  function WideParse(input: string): Result<(seq<seq<WidePositionType>>, IVec2, seq<Direction>), N.WarehouseError> {
    match SplitOnce(input, "\n\n")
    case None => Err(N.NoBlankLine)
    case Some((warehouse, movements)) =>
      match WideFromLines(Lines(warehouse))
      case Err(e) => Err(e)
      case Ok((rows, robot)) =>
        match N.DecodeMovements(N.WithoutNewlines(movements))
        case Err(e) => Err(e)
        case Ok(moves) => Ok((rows, robot, moves))
  }

  /** Part 2 reads the same input as part 1, doubled. */
  lemma WideParseIsWidened(input: string)
    ensures WideParse(input) == match N.Parse(input)
      case Err(e) => Err(e)
      case Ok((rows, robot, moves)) => Ok((Widen(rows), IVec2(2 * robot.x, robot.y), moves))
  {
    if warehouse, movements :| SplitOnce(input, "\n\n") == Some((warehouse, movements)) {
      WideFromLinesIsWidened(Lines(warehouse));
    }
  }

  // The invariant of the moves

  /** Every cell of the outer ring is a wall. */
  ghost predicate Walled(rows: seq<seq<WidePositionType>>) {
    forall p :: InBounds(rows, p) && OnBorder(rows, p) ==> At(rows, p) == Wall
  }

  function East1(p: IVec2): IVec2 {
    IVec2(p.x + 1, p.y)
  }

  function West1(p: IVec2): IVec2 {
    IVec2(p.x - 1, p.y)
  }

  /** The pairing at one cell: a Left segment has a Right one just east of
      it, a Right segment a Left one just west of it. */
  ghost predicate PairedAt(rows: seq<seq<WidePositionType>>, p: IVec2)
    requires InBounds(rows, p)
  {
    && (At(rows, p) == Box(Left) ==> InBounds(rows, East1(p)) && At(rows, East1(p)) == Box(Right))
    && (At(rows, p) == Box(Right) ==> InBounds(rows, West1(p)) && At(rows, West1(p)) == Box(Left))
  }

  /** Every box is an intact Left/Right pair. */
  ghost predicate WellPaired(rows: seq<seq<WidePositionType>>) {
    forall p {:trigger PairedAt(rows, p)} :: InBounds(rows, p) ==> PairedAt(rows, p)
  }

  /** The state every wide move keeps. */
  ghost predicate Ready(rows: seq<seq<WidePositionType>>, robot: IVec2) {
    Rect(rows) && Walled(rows) && WellPaired(rows) && InBounds(rows, robot) && At(rows, robot) == Empty
  }

  /** The wide cell at `p` is one half of the narrow cell at `p.x / 2`. */
  lemma WidenAt(rows: seq<seq<N.PositionType>>, p: IVec2)
    requires InBounds(Widen(rows), p)
    ensures InBounds(rows, IVec2(p.x / 2, p.y)) && At(Widen(rows), p) == Half(At(rows, IVec2(p.x / 2, p.y)), p.x % 2 == 0)
  {
  }

  /** A parsed map that is ready widens to a ready wide map, the robot on
      the left half of its old cell. */
  lemma WidenReady(rows: seq<seq<N.PositionType>>, robot: IVec2)
    requires N.Ready(rows, robot)
    ensures Ready(Widen(rows), IVec2(2 * robot.x, robot.y))
  {
    var wide := Widen(rows);
    assert Rect(wide) by {
      assert forall y :: 0 <= y < |wide| ==> |wide[y]| == 2 * |rows[y]|;
    }
    WidenWalled(rows);
    WidenPaired(rows);
    WidenAt(rows, IVec2(2 * robot.x, robot.y));
  }

  lemma WidenWalled(rows: seq<seq<N.PositionType>>)
    requires Rect(rows) && N.Walled(rows)
    ensures Walled(Widen(rows))
  {
    var wide := Widen(rows);
    forall p | InBounds(wide, p) && OnBorder(wide, p)
      ensures At(wide, p) == Wall
    {
      WidenAt(rows, p);
      assert OnBorder(rows, IVec2(p.x / 2, p.y));
    }
  }

  lemma WidenPaired(rows: seq<seq<N.PositionType>>)
    ensures WellPaired(Widen(rows))
  {
    var wide := Widen(rows);
    forall p | InBounds(wide, p)
      ensures PairedAt(wide, p)
    {
      WidenAt(rows, p);
      if At(wide, p) == Box(Left) {
        assert (p.x + 1) / 2 == p.x / 2;
        WidenAt(rows, East1(p));
      } else if At(wide, p) == Box(Right) {
        assert (p.x - 1) / 2 == p.x / 2;
        WidenAt(rows, West1(p));
      }
    }
  }

  // The horizontal push

  /** What the horizontal scan of `try_move` sees in a cell. */
  function Kind(cell: WidePositionType): (r: N.PositionType)
    ensures r == N.Box <==> cell.Box?
    ensures r == N.Empty <==> cell == Empty
    ensures r == N.Wall <==> cell == Wall
  {
    match cell
    case Box(_) => N.Box
    case Empty => N.Empty
    case Wall => N.Wall
  }

  /** The wide map with segments read as plain boxes. */
  function Kinds(rows: seq<seq<WidePositionType>>): (r: seq<seq<N.PositionType>>)
    ensures |r| == |rows| && forall y :: 0 <= y < |rows| ==> |r[y]| == |rows[y]|
    ensures forall p :: InBounds(rows, p) ==> At(r, p) == Kind(At(rows, p))
  {
    seq(|rows|, y requires 0 <= y < |rows| => seq(|rows[y]|, x requires 0 <= x < |rows[y]| => Kind(rows[y][x])))
  }

  lemma KindsReady(rows: seq<seq<WidePositionType>>, robot: IVec2)
    requires Ready(rows, robot)
    ensures N.Ready(Kinds(rows), robot)
  {
    var kinds := Kinds(rows);
    assert forall p :: InBounds(kinds, p) <==> InBounds(rows, p);
  }

  /** The segment `k` cells along a horizontal run that starts with `s`:
      segments alternate. */
  function Alternate(s: BoxSegment, k: nat): BoxSegment {
    if k % 2 == 0 then s else Inverse(s)
  }

  /** The segment that comes first when boxes are pushed in direction `d`:
      its partner is the next cell ahead. */
  function Lead(d: Direction): BoxSegment
    requires !Vertical(d)
  {
    if d == East then Left else Right
  }

  /** The columns from `p` to `q` on a row. */
  function Span(p: IVec2, q: IVec2): nat {
    Abs(q.x - p.x)
  }

  /** The writing loop of the horizontal push: from the cell after `p` up
      to `gap`, write a segment and switch to the other one. */
  function Relay(rows: seq<seq<WidePositionType>>, p: IVec2, gap: IVec2, d: Direction, s: BoxSegment): (r: seq<seq<WidePositionType>>)
    requires Rect(rows) && !Vertical(d) && InBounds(rows, p) && InBounds(rows, gap) && N.Beyond(p, d, gap)
    ensures |r| == |rows| && forall y :: 0 <= y < |rows| ==> |r[y]| == |rows[y]|
    decreases Span(p, gap)
  {
    var q := p.Add(Xy(d));
    var rows' := Update(rows, q, Box(s));
    if q == gap then rows' else Relay(rows', q, gap, d, Inverse(s))
  }

  /** The loop writes the cells after `p` up to `gap` with segments that
      alternate from `s`, and leaves every other cell alone. */
  lemma {:induction false} RelayMeaning(rows: seq<seq<WidePositionType>>, p: IVec2, gap: IVec2, d: Direction, s: BoxSegment)
    requires Rect(rows) && !Vertical(d) && InBounds(rows, p) && InBounds(rows, gap) && N.Beyond(p, d, gap)
    ensures var r := Relay(rows, p, gap, d, s);
      forall c :: InBounds(rows, c) ==>
        At(r, c) == if N.Beyond(p, d, c) && !N.Beyond(gap, d, c) then Box(Alternate(s, Span(p, c) - 1)) else At(rows, c)
    decreases Span(p, gap)
  {
    var q := p.Add(Xy(d));
    var rows' := Update(rows, q, Box(s));
    if q != gap {
      RelayMeaning(rows', q, gap, d, Inverse(s));
      forall c | N.Beyond(q, d, c)
        ensures Alternate(Inverse(s), Span(q, c) - 1) == Alternate(s, Span(p, c) - 1)
      {
        BeyondNext(p, d, c);
        AlternateInverse(s, Span(q, c) - 1);
      }
    }
    forall c
      ensures N.Beyond(p, d, c) <==> c == q || N.Beyond(q, d, c)
    {
      BeyondNext(p, d, c);
    }
    assert Span(p, q) == 1;
  }

  /** The ray from `p` is the next cell and the ray from there. */
  lemma BeyondNext(p: IVec2, d: Direction, c: IVec2)
    requires !Vertical(d)
    ensures N.Beyond(p, d, c) <==> c == p.Add(Xy(d)) || N.Beyond(p.Add(Xy(d)), d, c)
    ensures N.Beyond(p.Add(Xy(d)), d, c) ==> Span(p, c) == Span(p.Add(Xy(d)), c) + 1
  {
  }

  lemma AlternateInverse(s: BoxSegment, k: nat)
    ensures Alternate(Inverse(s), k) == Alternate(s, k + 1)
  {
  }

  /** One horizontal movement of `try_move`, as a value: no gap, nothing
      moves; a gap next to the robot, the robot steps; otherwise the cell
      next to the robot is emptied, the run up to the gap is rewritten with
      alternating segments, and the robot steps. */
  function HorizontalMove(rows: seq<seq<WidePositionType>>, robot: IVec2, d: Direction): (seq<seq<WidePositionType>>, IVec2)
    requires Ready(rows, robot) && !Vertical(d)
  {
    KindsReady(rows, robot);
    match N.Gap(Kinds(rows), robot, d)
    case None => (rows, robot)
    case Some(gap) =>
      var next := robot.Add(Xy(d));
      N.GapMeaning(Kinds(rows), robot, d);
      if gap == next then (rows, next)
      else
        assert N.Between(robot, d, next, gap);
        (Relay(Update(rows, next, Empty), next, gap, d, At(rows, next).segment), next)
  }

  /** From `p` on in direction `d` there are only box segments up to the
      empty cell `gap`. */
  ghost predicate RunTo(rows: seq<seq<WidePositionType>>, p: IVec2, d: Direction, gap: IVec2) {
    && N.Beyond(p, d, gap) && InBounds(rows, gap) && At(rows, gap) == Empty
    && forall c :: N.Between(p, d, c, gap) ==> InBounds(rows, c) && At(rows, c).Box?
  }

  /** The gap the horizontal scan finds ends a run of segments. */
  lemma GapRun(rows: seq<seq<WidePositionType>>, robot: IVec2, d: Direction)
    requires Ready(rows, robot)
    ensures N.Ready(Kinds(rows), robot)
    ensures N.Gap(Kinds(rows), robot, d).Some? ==> RunTo(rows, robot, d, N.Gap(Kinds(rows), robot, d).value)
  {
    KindsReady(rows, robot);
    N.GapMeaning(Kinds(rows), robot, d);
  }

  lemma AlternateSucc(s: BoxSegment, k: nat)
    ensures Alternate(s, k + 1) == Inverse(Alternate(s, k))
  {
  }

  /** Between the robot and the gap the segments alternate, starting with
      the one that leads in the push direction, and the run is made of
      whole boxes: the last cell before the gap is the other segment. */
  lemma {:induction false} RunAlternates(rows: seq<seq<WidePositionType>>, robot: IVec2, d: Direction, gap: IVec2, c: IVec2)
    requires Ready(rows, robot) && !Vertical(d)
    requires RunTo(rows, robot, d, gap) && N.Between(robot, d, c, gap)
    ensures At(rows, c) == Box(Alternate(Lead(d), Span(robot, c) - 1))
    ensures c.Add(Xy(d)) == gap ==> At(rows, c) == Box(Inverse(Lead(d)))
    decreases Span(robot, c)
  {
    var back := c.Sub(Xy(d));
    assert PairedAt(rows, c) && At(rows, c).Box?;
    if back != robot {
      assert N.Between(robot, d, back, gap);
      RunAlternates(rows, robot, d, gap, back);
      assert PairedAt(rows, back);
      assert Span(robot, c) == Span(robot, back) + 1;
      AlternateSucc(Lead(d), Span(robot, back) - 1);
      var a := Alternate(Lead(d), Span(robot, back) - 1);
      if d == East {
        assert East1(back) == c && West1(c) == back;
        assert At(rows, c) == Box(Inverse(a));
      } else {
        assert West1(back) == c && East1(c) == back;
        assert At(rows, c) == Box(Inverse(a));
      }
    } else {
      var s := At(rows, c).segment;
      assert At(rows, c) == Box(s);
      if d == East {
        assert West1(c) == robot && s != Right;
      } else {
        assert East1(c) == robot && s != Left;
      }
      assert s == Lead(d);
      assert Span(robot, c) == 1 && Alternate(Lead(d), 0) == Lead(d);
    }
  }

  /** A cell of the run after the robot's new cell holds, in the old map,
      the segment the loop writes one cell further on. */
  lemma ShiftedCell(rows: seq<seq<WidePositionType>>, robot: IVec2, d: Direction, gap: IVec2, c: IVec2)
    requires Ready(rows, robot) && !Vertical(d) && RunTo(rows, robot, d, gap)
    requires InBounds(rows, c) && N.Beyond(robot.Add(Xy(d)), d, c) && !N.Beyond(gap, d, c)
    ensures InBounds(rows, c.Sub(Xy(d))) && At(rows, c.Sub(Xy(d))) == Box(Alternate(Lead(d), Span(robot.Add(Xy(d)), c) - 1))
  {
    var back := c.Sub(Xy(d));
    assert N.Between(robot, d, back, gap);
    RunAlternates(rows, robot, d, gap, back);
    assert Span(robot, back) == Span(robot.Add(Xy(d)), c);
  }

  /** Cell `c` of `rows'` is cell `c` of `rows` after the cell next to
      `robot` is emptied and the run up to `gap` is shifted one cell in
      direction `d`. */
  ghost predicate ShiftedAt(rows: seq<seq<WidePositionType>>, rows': seq<seq<WidePositionType>>, robot: IVec2, d: Direction, gap: IVec2, c: IVec2)
    requires InBounds(rows, c) && InBounds(rows', c)
  {
    At(rows', c) == if c == robot.Add(Xy(d)) && gap != c then Empty
                    else if N.Beyond(robot.Add(Xy(d)), d, c) && !N.Beyond(gap, d, c) && InBounds(rows, c.Sub(Xy(d)))
                    then At(rows, c.Sub(Xy(d)))
                    else At(rows, c)
  }

  /** `rows'` is `rows` with the run shifted, cell by cell. */
  ghost predicate ShiftedRun(rows: seq<seq<WidePositionType>>, rows': seq<seq<WidePositionType>>, robot: IVec2, d: Direction, gap: IVec2) {
    && |rows'| == |rows| && (forall y :: 0 <= y < |rows| ==> |rows'[y]| == |rows[y]|)
    && forall c :: InBounds(rows, c) ==> InBounds(rows', c) && ShiftedAt(rows, rows', robot, d, gap, c)
  }

  /** The rewrite of a push that moves boxes shifts the run. */
  lemma PushedRun(rows: seq<seq<WidePositionType>>, robot: IVec2, d: Direction, gap: IVec2)
    requires Ready(rows, robot) && !Vertical(d) && RunTo(rows, robot, d, gap) && gap != robot.Add(Xy(d))
    ensures var next := robot.Add(Xy(d));
      && InBounds(rows, next) && At(rows, next).Box? && N.Beyond(next, d, gap)
      && ShiftedRun(rows, Relay(Update(rows, next, Empty), next, gap, d, At(rows, next).segment), robot, d, gap)
  {
    var next := robot.Add(Xy(d));
    assert N.Between(robot, d, next, gap);
    var s := At(rows, next).segment;
    RunAlternates(rows, robot, d, gap, next);
    assert s == Lead(d);
    var emptied := Update(rows, next, Empty);
    RelayMeaning(emptied, next, gap, d, s);
    var rows' := Relay(emptied, next, gap, d, s);
    forall c | InBounds(rows, c)
      ensures InBounds(rows', c) && ShiftedAt(rows, rows', robot, d, gap, c)
    {
      if N.Beyond(next, d, c) && !N.Beyond(gap, d, c) {
        ShiftedCell(rows, robot, d, gap, c);
      }
    }
  }

  /** From the cell after `next` up to `gap` the segments alternate,
      starting with the one that leads in direction `d`, and the one at
      `gap` trails. */
  ghost predicate Alternating(rows: seq<seq<WidePositionType>>, next: IVec2, d: Direction, gap: IVec2)
    requires !Vertical(d)
  {
    && (forall c :: N.Beyond(next, d, c) && !N.Beyond(gap, d, c) ==>
          InBounds(rows, c) && At(rows, c) == Box(Alternate(Lead(d), Span(next, c) - 1)))
    && InBounds(rows, gap) && At(rows, gap) == Box(Inverse(Lead(d)))
  }

  /** A cell after the robot's new cell and not beyond the gap is the gap
      or lies between the robot and it. */
  lemma InRun(robot: IVec2, d: Direction, gap: IVec2, c: IVec2)
    requires !Vertical(d) && N.Beyond(robot.Add(Xy(d)), d, c) && !N.Beyond(gap, d, c) && N.Beyond(robot, d, gap)
    ensures c == gap || N.Between(robot, d, c, gap)
  {
  }

  /** The rewrite of a push that moves boxes leaves an alternating run
      that ends with a whole box at the gap. */
  lemma PushedAlternates(rows: seq<seq<WidePositionType>>, robot: IVec2, d: Direction, gap: IVec2)
    requires Ready(rows, robot) && !Vertical(d) && RunTo(rows, robot, d, gap) && gap != robot.Add(Xy(d))
    ensures var next := robot.Add(Xy(d));
      && InBounds(rows, next) && At(rows, next).Box? && N.Beyond(next, d, gap)
      && Alternating(Relay(Update(rows, next, Empty), next, gap, d, At(rows, next).segment), next, d, gap)
  {
    var next := robot.Add(Xy(d));
    assert N.Between(robot, d, next, gap);
    var s := At(rows, next).segment;
    RunAlternates(rows, robot, d, gap, next);
    assert s == Lead(d);
    var emptied := Update(rows, next, Empty);
    RelayMeaning(emptied, next, gap, d, s);
    var rows' := Relay(emptied, next, gap, d, s);
    forall c | N.Beyond(next, d, c) && !N.Beyond(gap, d, c)
      ensures InBounds(rows', c) && At(rows', c) == Box(Alternate(Lead(d), Span(next, c) - 1))
    {
      InRun(robot, d, gap, c);
    }
    var back := gap.Sub(Xy(d));
    assert N.Between(robot, d, back, gap);
    RunAlternates(rows, robot, d, gap, back);
    assert Span(robot, back) == Span(next, gap);
  }

  /** The horizontal push in plain terms: with no gap nothing changes;
      otherwise the robot steps, the cell next to it is emptied and every
      cell after it up to the gap takes the value of the cell before it,
      that is the run of boxes shifts one cell. */
  lemma HorizontalShifts(rows: seq<seq<WidePositionType>>, robot: IVec2, d: Direction)
    requires Ready(rows, robot) && !Vertical(d)
    ensures var (rows', robot') := HorizontalMove(rows, robot, d);
      match N.Gap(Kinds(rows), robot, d)
      case None => rows' == rows && robot' == robot
      case Some(gap) =>
        && robot' == robot.Add(Xy(d)) && RunTo(rows, robot, d, gap) && ShiftedRun(rows, rows', robot, d, gap)
        && (gap != robot' ==> Alternating(rows', robot', d, gap))
  {
    GapRun(rows, robot, d);
    if gap :| N.Gap(Kinds(rows), robot, d) == Some(gap) {
      if gap != robot.Add(Xy(d)) {
        PushedRun(rows, robot, d, gap);
        PushedAlternates(rows, robot, d, gap);
      } else {
        var (rows', _) := HorizontalMove(rows, robot, d);
        assert ShiftedRun(rows, rows', robot, d, gap);
      }
    }
  }

  /** After a push, every cell is still paired, and it is a wall exactly
      when it was one. */
  lemma ShiftedCellReady(rows: seq<seq<WidePositionType>>, rows': seq<seq<WidePositionType>>, robot: IVec2, d: Direction, gap: IVec2, c: IVec2)
    requires Ready(rows, robot) && !Vertical(d) && RunTo(rows, robot, d, gap) && gap != robot.Add(Xy(d))
    requires ShiftedRun(rows, rows', robot, d, gap) && Alternating(rows', robot.Add(Xy(d)), d, gap) && InBounds(rows, c)
    ensures InBounds(rows', c) && PairedAt(rows', c)
    ensures At(rows', c) == Wall <==> At(rows, c) == Wall
  {
    var next := robot.Add(Xy(d));
    assert N.Between(robot, d, next, gap);
    assert InBounds(rows', c) && ShiftedAt(rows, rows', robot, d, gap, c);
    if c == next {
    } else if N.Beyond(next, d, c) && !N.Beyond(gap, d, c) {
      RunCellPaired(rows', next, d, gap, c);
    } else {
      assert At(rows', c) == At(rows, c);
      assert PairedAt(rows, c);
      if At(rows, c) == Box(Left) {
        NeighbourOutside(rows, rows', robot, d, gap, c, East1(c));
      } else if At(rows, c) == Box(Right) {
        NeighbourOutside(rows, rows', robot, d, gap, c, West1(c));
      }
    }
  }

  /** A cell of an alternating run has its partner in the run. */
  lemma RunCellPaired(rows: seq<seq<WidePositionType>>, next: IVec2, d: Direction, gap: IVec2, c: IVec2)
    requires !Vertical(d) && Alternating(rows, next, d, gap)
    requires N.Beyond(next, d, c) && !N.Beyond(gap, d, c)
    ensures InBounds(rows, c) && PairedAt(rows, c) && At(rows, c).Box?
  {
    var k := Span(next, c) - 1;
    RunNeighbours(next, d, gap, c);
    if Alternate(Lead(d), k) == Lead(d) {
      // the partner lies ahead, inside the run
      assert c != gap;
      AlternateSucc(Lead(d), k);
      PartnerAhead(rows, c, d, Lead(d));
    } else {
      // the partner lies behind, inside the run
      assert k != 0;
      AlternateSucc(Lead(d), k - 1);
      PartnerBehind(rows, c, d, Inverse(Lead(d)));
    }
  }

  /** The neighbours of a cell of the run from `next` to `gap`: the one
      ahead is in the run unless the cell is the gap, the one behind unless
      the cell is the first. */
  lemma RunNeighbours(next: IVec2, d: Direction, gap: IVec2, c: IVec2)
    requires !Vertical(d) && N.Beyond(next, d, c) && !N.Beyond(gap, d, c)
    ensures Span(next, c) >= 1
    ensures c != gap ==> N.Beyond(next, d, c.Add(Xy(d))) && !N.Beyond(gap, d, c.Add(Xy(d))) && Span(next, c.Add(Xy(d))) == Span(next, c) + 1
    ensures Span(next, c) > 1 ==> N.Beyond(next, d, c.Sub(Xy(d))) && !N.Beyond(gap, d, c.Sub(Xy(d))) && Span(next, c.Sub(Xy(d))) + 1 == Span(next, c)
  {
  }

  /** A leading segment whose next cell ahead is the trailing one is paired. */
  lemma PartnerAhead(rows: seq<seq<WidePositionType>>, c: IVec2, d: Direction, s: BoxSegment)
    requires !Vertical(d) && s == Lead(d)
    requires InBounds(rows, c) && At(rows, c) == Box(s)
    requires InBounds(rows, c.Add(Xy(d))) && At(rows, c.Add(Xy(d))) == Box(Inverse(s))
    ensures PairedAt(rows, c)
  {
    if d == East {
      assert East1(c) == c.Add(Xy(d));
    } else {
      assert West1(c) == c.Add(Xy(d));
    }
  }

  /** A trailing segment whose cell behind is the leading one is paired. */
  lemma PartnerBehind(rows: seq<seq<WidePositionType>>, c: IVec2, d: Direction, s: BoxSegment)
    requires !Vertical(d) && s == Inverse(Lead(d))
    requires InBounds(rows, c) && At(rows, c) == Box(s)
    requires InBounds(rows, c.Sub(Xy(d))) && At(rows, c.Sub(Xy(d))) == Box(Lead(d))
    ensures PairedAt(rows, c)
  {
    if d == East {
      assert West1(c) == c.Sub(Xy(d));
    } else {
      assert East1(c) == c.Sub(Xy(d));
    }
  }

  /** The partner of a box outside the run lies outside it too: the cell
      before the run is the robot's, the one after it is the gap, and
      neither holds a box. */
  lemma NeighbourOutside(rows: seq<seq<WidePositionType>>, rows': seq<seq<WidePositionType>>, robot: IVec2, d: Direction, gap: IVec2, c: IVec2, n: IVec2)
    requires Ready(rows, robot) && !Vertical(d) && RunTo(rows, robot, d, gap) && gap != robot.Add(Xy(d))
    requires ShiftedRun(rows, rows', robot, d, gap) && InBounds(rows, c) && At(rows, c).Box? && c != robot
    requires c != robot.Add(Xy(d)) && !(N.Beyond(robot.Add(Xy(d)), d, c) && !N.Beyond(gap, d, c))
    requires n == East1(c) || n == West1(c)
    requires InBounds(rows, n) && At(rows, n).Box?
    ensures InBounds(rows', n) && At(rows', n) == At(rows, n)
  {
    var next := robot.Add(Xy(d));
    assert InBounds(rows', n) && ShiftedAt(rows, rows', robot, d, gap, n);
    assert n != gap;
    assert n != next && !(N.Beyond(next, d, n) && !N.Beyond(gap, d, n));
  }

  /** `rows'` has the shape of `rows` and its walls in the same cells. */
  ghost predicate SameWalls(rows: seq<seq<WidePositionType>>, rows': seq<seq<WidePositionType>>) {
    && |rows'| == |rows| && (forall y :: 0 <= y < |rows| ==> |rows'[y]| == |rows[y]|)
    && forall c :: InBounds(rows, c) ==> InBounds(rows', c) && (At(rows', c) == Wall <==> At(rows, c) == Wall)
  }

  /** A move that keeps the walls, leaves every cell paired and puts the
      robot on an empty cell keeps the invariant. */
  lemma KeepsReady(rows: seq<seq<WidePositionType>>, rows': seq<seq<WidePositionType>>, robot': IVec2)
    requires Rect(rows) && Walled(rows) && SameWalls(rows, rows')
    requires forall c :: InBounds(rows, c) ==> InBounds(rows', c) && PairedAt(rows', c)
    requires InBounds(rows, robot') && At(rows', robot') == Empty
    ensures Ready(rows', robot')
  {
    assert forall c :: InBounds(rows', c) ==> InBounds(rows, c);
    assert forall c :: InBounds(rows', c) && OnBorder(rows', c) ==> OnBorder(rows, c);
  }

  /** The horizontal push keeps the invariant: walls stay where they are,
      every box stays a pair, and the robot stands on an empty cell. */
  lemma HorizontalKeepsReady(rows: seq<seq<WidePositionType>>, robot: IVec2, d: Direction)
    requires Ready(rows, robot) && !Vertical(d)
    ensures var (rows', robot') := HorizontalMove(rows, robot, d);
      Ready(rows', robot') && SameWalls(rows, rows')
  {
    HorizontalShifts(rows, robot, d);
    var (rows', robot') := HorizontalMove(rows, robot, d);
    if gap :| N.Gap(Kinds(rows), robot, d) == Some(gap) {
      var next := robot.Add(Xy(d));
      if gap != next {
        forall c | InBounds(rows, c)
          ensures InBounds(rows', c) && PairedAt(rows', c) && (At(rows', c) == Wall <==> At(rows, c) == Wall)
        {
          ShiftedCellReady(rows, rows', robot, d, gap, c);
        }
        assert N.Between(robot, d, next, gap);
        assert InBounds(rows', next) && ShiftedAt(rows, rows', robot, d, gap, next);
        KeepsReady(rows, rows', robot');
      }
    }
  }
}

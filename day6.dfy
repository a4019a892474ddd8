/** Day 6 of src/bin/day6.rs: a guard walks a lab north from the `^`, steps
    forward onto empty cells, turns right in front of an obstruction, and
    leaves when the next step is off the map. Part 1 counts the cells the
    guard visits. This module holds the lab, its parse and the walk. */
module Day6 {
  import opened Wrappers
  import opened Text
  import opened Vectors

  datatype PositionType = Empty | Obstruction

  datatype Lab = Lab(colCount: nat, rows: seq<seq<PositionType>>, rowCount: nat)

  /** Why a lab is refused. Each is a panic of the source: an unwrapped
      `try_from` error, an unwrapped second `OnceCell::set`, the two
      assertions of `Lab::from_iter`, and the unwrapped empty `OnceCell`. */
  datatype LabError = UnknownCharacter | SecondStart | NoRows | RaggedRows | NoStart

  /** `PositionType::try_from`: the start marker is an empty cell. */
  function Decode(c: char): (r: Option<PositionType>)
    ensures r.Some? <==> c == '.' || c == '^' || c == '#'
    ensures r == Some(Obstruction) <==> c == '#'
  {
    match c
    case '.' => Some(Empty)
    case '^' => Some(Empty)
    case '#' => Some(Obstruction)
    case _ => None
  }

  /** A lab `from_iter` builds: at least one row, all of one length. */
  predicate Valid(lab: Lab) {
    && |lab.rows| == lab.rowCount > 0
    && forall y :: 0 <= y < |lab.rows| ==> |lab.rows[y]| == lab.colCount
  }

  /** `Lab::in_bounds`. */
  function InBounds(lab: Lab, p: IVec2): (r: bool)
    ensures r <==> 0 <= p.x < lab.colCount && 0 <= p.y < lab.rowCount
  {
    p.MinElement() >= 0 && p.x < lab.colCount && p.y < lab.rowCount
  }

  function Cell(lab: Lab, p: IVec2): PositionType
    requires Valid(lab) && InBounds(lab, p)
  {
    lab.rows[p.y][p.x]
  }

  // Parsing

  /** The character of the lab text at `p`, if there is one. */
  function CharAt(lines: seq<string>, p: IVec2): Option<char> {
    if 0 <= p.y < |lines| && 0 <= p.x < |lines[p.y]| then Some(lines[p.y][p.x]) else None
  }

  /** `p` is at or after column `x` of row `y` in reading order. */
  predicate From(p: IVec2, x: int, y: int) {
    p.y > y || (p.y == y && p.x >= x)
  }

  /** Every character from (x, y) on is a lab character. */
  ghost predicate CharsFrom(lines: seq<string>, x: int, y: int) {
    forall p :: From(p, x, y) && CharAt(lines, p).Some? ==> Decode(CharAt(lines, p).value).Some?
  }

  /** There are no two start markers from (x, y) on. */
  ghost predicate AtMostOneFrom(lines: seq<string>, x: int, y: int) {
    forall p, q :: From(p, x, y) && From(q, x, y) && CharAt(lines, p) == Some('^') && CharAt(lines, q) == Some('^') ==> p == q
  }

  /** There is no start marker from (x, y) on. */
  ghost predicate NoStartFrom(lines: seq<string>, x: int, y: int) {
    forall p :: From(p, x, y) ==> CharAt(lines, p) != Some('^')
  }

  /** The lazy scan that `collect` drives in reading order: at each
      character a `^` sets the start (a second one panics), and then the
      character is decoded (any other character panics). */
  function ParseFrom(lines: seq<string>, x: nat, y: nat, start: Option<IVec2>): Result<Option<IVec2>, LabError>
    requires y <= |lines| && (y < |lines| ==> x <= |lines[y]|)
    decreases |lines| - y, if y < |lines| then |lines[y]| - x else 0
  {
    if y == |lines| then Ok(start)
    else if x == |lines[y]| then ParseFrom(lines, 0, y + 1, start)
    else
      var c := lines[y][x];
      if c == '^' && start.Some? then Err(SecondStart)
      else if Decode(c).None? then Err(UnknownCharacter)
      else ParseFrom(lines, x + 1, y, if c == '^' then Some(IVec2(x, y)) else start)
  }

  /** What the scan from (x, y) decides, given a start found only before
      (x, y): it succeeds exactly when the rest of the text holds lab
      characters and at most one start, none if one was already found; the
      start it ends with is the one it meets or the one it was given; and
      each error names a real defect. */
  lemma {:induction false} ParseFromMeaning(lines: seq<string>, x: nat, y: nat, start: Option<IVec2>)
    requires y <= |lines| && (y < |lines| ==> x <= |lines[y]|)
    requires start.Some? ==> CharAt(lines, start.value) == Some('^') && !From(start.value, x, y)
    ensures var r := ParseFrom(lines, x, y, start);
      && (r.Ok? <==> CharsFrom(lines, x, y) && AtMostOneFrom(lines, x, y) && (start.Some? ==> NoStartFrom(lines, x, y)))
      && (r.Ok? ==> forall p :: From(p, x, y) && CharAt(lines, p) == Some('^') ==> r.value == Some(p))
      && (r.Ok? && NoStartFrom(lines, x, y) ==> r.value == start)
      && (r.Err? ==> r.error == UnknownCharacter || r.error == SecondStart)
      && (r == Err(UnknownCharacter) ==> !CharsFrom(lines, x, y))
      && (r == Err(SecondStart) ==> exists p, q :: p != q && CharAt(lines, p) == Some('^') && CharAt(lines, q) == Some('^'))
    decreases |lines| - y, if y < |lines| then |lines[y]| - x else 0
  {
    if y == |lines| {
      assert forall p :: !(From(p, x, y) && CharAt(lines, p).Some?);
    } else if x == |lines[y]| {
      ParseFromMeaning(lines, 0, y + 1, start);
      forall p | From(p, x, y) && CharAt(lines, p).Some?
        ensures From(p, 0, y + 1)
      {
      }
    } else {
      var c, here := lines[y][x], IVec2(x, y);
      assert CharAt(lines, here) == Some(c);
      forall p | From(p, x, y) && p != here
        ensures From(p, x + 1, y)
      {
      }
      if c == '^' && start.Some? {
        assert start.value != here;
      } else if Decode(c).None? {
      } else {
        var start' := if c == '^' then Some(here) else start;
        ParseFromMeaning(lines, x + 1, y, start');
      }
    }
  }

  /** The lab text `from_iter` and the start marker accept: characters of
      the lab only, at least one row, rows of one length, one `^`. */
  ghost predicate WellFormed(lines: seq<string>) {
    && CharsFrom(lines, 0, 0)
    && |lines| > 0
    && (forall y :: 0 <= y < |lines| ==> |lines[y]| == |lines[0]|)
    && exists p :: CharAt(lines, p) == Some('^') && forall q :: CharAt(lines, q) == Some('^') ==> q == p
  }

  predicate LabRow(line: string) {
    forall x :: 0 <= x < |line| ==> Decode(line[x]).Some?
  }

  function DecodeRow(line: string): (r: seq<PositionType>)
    requires LabRow(line)
    ensures |r| == |line| && forall x :: 0 <= x < |line| ==> Some(r[x]) == Decode(line[x])
  {
    seq(|line|, x requires 0 <= x < |line| => Decode(line[x]).value)
  }

  /** The parse at the head of `part1` and `part2`: the character scan
      first, then `from_iter`'s two assertions, then the start. */
  function FromLines(lines: seq<string>): (r: Result<(Lab, IVec2), LabError>)
    ensures r.Ok? <==> WellFormed(lines)
    ensures r.Ok? ==> var (lab, start) := r.value;
      && Valid(lab) && lab.rowCount == |lines|
      && (forall y :: 0 <= y < |lines| ==> LabRow(lines[y]) && lab.rows[y] == DecodeRow(lines[y]))
      && CharAt(lines, start) == Some('^') && InBounds(lab, start) && Cell(lab, start) == Empty
    ensures r == Err(UnknownCharacter) ==> !CharsFrom(lines, 0, 0)
    ensures r == Err(SecondStart) ==> exists p, q :: p != q && CharAt(lines, p) == Some('^') && CharAt(lines, q) == Some('^')
    ensures r.Err? && CharsFrom(lines, 0, 0) && AtMostOneFrom(lines, 0, 0) ==>
      r.error == (if |lines| == 0 then NoRows
        else if exists y :: 0 <= y < |lines| && |lines[y]| != |lines[0]| then RaggedRows
        else NoStart)
  {
    ParseFromMeaning(lines, 0, 0, None);
    assert forall p :: CharAt(lines, p).Some? ==> From(p, 0, 0);
    match ParseFrom(lines, 0, 0, None)
    case Err(e) => Err(e)
    case Ok(start) =>
      if |lines| == 0 then Err(NoRows)
      else if exists y :: 1 <= y < |lines| && |lines[y]| != |lines[0]| then Err(RaggedRows)
      else if start.None? then Err(NoStart)
      else
        assert forall y, x :: 0 <= y < |lines| && 0 <= x < |lines[y]| ==> CharAt(lines, IVec2(x, y)) == Some(lines[y][x]);
        var rows := seq(|lines|, y requires 0 <= y < |lines| => DecodeRow(lines[y]));
        Ok((Lab(|lines[0]|, rows, |lines|), start.value))
  }

  // Directions

  datatype Direction = East | North | South | West

  /** `Direction::ALL`, in the order the source walks it. */
  const ALL: seq<Direction> := [East, North, South, West]

  /** `Direction::xy`: y grows downwards, so North is (0, -1). */
  function Xy(d: Direction): (v: IVec2)
    ensures Abs(v.x) + Abs(v.y) == 1
  {
    match d
    case East => IVec2(1, 0)
    case North => IVec2(0, -1)
    case South => IVec2(0, 1)
    case West => IVec2(-1, 0)
  }

  /** `Direction::next`: a right turn, which rotates the step a quarter turn
      clockwise on a map whose y grows downwards. */
  function Next(d: Direction): (r: Direction)
    ensures Xy(r) == IVec2(-Xy(d).y, Xy(d).x)
  {
    match d
    case East => South
    case North => East
    case South => West
    case West => North
  }

  /** Four right turns face the guard the way it started. */
  lemma FourTurns(d: Direction)
    ensures Next(Next(Next(Next(d)))) == d
    ensures Next(d) != d && Next(Next(d)) != d && Next(Next(Next(d))) != d
  {
  }

  // The walk

  datatype Guard = Guard(pos: IVec2, dir: Direction)

  /** One turn of the loop of `visited_positions`: `None` once the next
      step leaves the lab; otherwise a step onto an empty cell, or a right
      turn on the spot in front of an obstruction. */
  function Step(lab: Lab, g: Guard): (r: Option<Guard>)
    requires Valid(lab)
    ensures r.None? <==> !InBounds(lab, g.pos.Add(Xy(g.dir)))
    ensures r.Some? ==> (InBounds(lab, g.pos.Add(Xy(g.dir)))
      && (r.value.pos == g.pos <==> Cell(lab, g.pos.Add(Xy(g.dir))) == Obstruction))
    ensures r.Some? && r.value.pos == g.pos ==> r.value.dir == Next(g.dir)
    ensures r.Some? && r.value.pos != g.pos ==> r.value == Guard(g.pos.Add(Xy(g.dir)), g.dir) && Cell(lab, r.value.pos) == Empty
  {
    var next := g.pos.Add(Xy(g.dir));
    if !InBounds(lab, next) then None
    else match Cell(lab, next)
      case Empty => Some(Guard(next, g.dir))
      case Obstruction => Some(Guard(g.pos, Next(g.dir)))
  }

  /** The guard leaves the lab within `n` turns of the loop. */
  ghost predicate ExitsWithin(lab: Lab, g: Guard, n: nat)
    requires Valid(lab)
    decreases n
  {
    n > 0 && match Step(lab, g)
      case None => true
      case Some(h) => ExitsWithin(lab, h, n - 1)
  }

  /** The guard leaves the lab. */
  ghost predicate Exits(lab: Lab, g: Guard)
    requires Valid(lab)
  {
    exists n :: ExitsWithin(lab, g, n)
  }

  /** The cells the guard stands on until it leaves. */
  ghost function RouteWithin(lab: Lab, g: Guard, n: nat): set<IVec2>
    requires Valid(lab) && ExitsWithin(lab, g, n)
    decreases n
  {
    {g.pos} + match Step(lab, g)
      case None => {}
      case Some(h) => RouteWithin(lab, h, n - 1)
  }

  /** The route does not depend on the bound it was counted with. */
  lemma {:induction false} RouteFuel(lab: Lab, g: Guard, n: nat, k: nat)
    requires Valid(lab) && ExitsWithin(lab, g, n) && ExitsWithin(lab, g, k)
    ensures RouteWithin(lab, g, n) == RouteWithin(lab, g, k)
    decreases n
  {
    match Step(lab, g)
    case None =>
    case Some(h) => RouteFuel(lab, h, n - 1, k - 1);
  }

  ghost function Route(lab: Lab, g: Guard): set<IVec2>
    requires Valid(lab) && Exits(lab, g)
  {
    var n :| ExitsWithin(lab, g, n); RouteWithin(lab, g, n)
  }

  /** `Lab::visited_positions`: the loop inserts each cell the guard
      stands on, and breaks once the next step would leave the lab. */
  method VisitedPositions(lab: Lab, start: IVec2) returns (visited: set<IVec2>)
    requires Valid(lab) && Exits(lab, Guard(start, North))
    ensures visited == Route(lab, Guard(start, North))
  {
    ghost var n: nat :| ExitsWithin(lab, Guard(start, North), n);
    ghost var k: nat := n;
    var g := Guard(start, North);
    visited := {};
    while true
      invariant ExitsWithin(lab, g, k)
      invariant visited + RouteWithin(lab, g, k) == RouteWithin(lab, Guard(start, North), n)
      decreases k
    {
      visited := visited + {g.pos};
      var next := g.pos.Add(Xy(g.dir));
      if !InBounds(lab, next) {
        break;
      }
      if Cell(lab, next) == Empty {
        g := Guard(next, g.dir);
      } else {
        g := Guard(g.pos, Next(g.dir));
      }
      k := k - 1;
    }
    RouteIs(lab, Guard(start, North), n);
  }

  /** The route counted with any bound that suffices. */
  lemma RouteIs(lab: Lab, g: Guard, n: nat)
    requires Valid(lab) && ExitsWithin(lab, g, n)
    ensures Route(lab, g) == RouteWithin(lab, g, n)
  {
    var m :| ExitsWithin(lab, g, m) && Route(lab, g) == RouteWithin(lab, g, m);
    RouteFuel(lab, g, m, n);
  }

  /** A route from an empty cell holds its start, and only empty cells of
      the lab. */
  lemma {:induction false} RouteWithinSafe(lab: Lab, g: Guard, n: nat)
    requires Valid(lab) && InBounds(lab, g.pos) && Cell(lab, g.pos) == Empty && ExitsWithin(lab, g, n)
    ensures g.pos in RouteWithin(lab, g, n)
    ensures forall p :: p in RouteWithin(lab, g, n) ==> InBounds(lab, p) && Cell(lab, p) == Empty
    decreases n
  {
    match Step(lab, g)
    case None =>
    case Some(h) => RouteWithinSafe(lab, h, n - 1);
  }

  lemma RouteSafe(lab: Lab, start: IVec2)
    requires Valid(lab) && InBounds(lab, start) && Cell(lab, start) == Empty && Exits(lab, Guard(start, North))
    ensures start in Route(lab, Guard(start, North))
    ensures forall p :: p in Route(lab, Guard(start, North)) ==> InBounds(lab, p) && Cell(lab, p) == Empty
  {
    var n: nat :| ExitsWithin(lab, Guard(start, North), n);
    RouteIs(lab, Guard(start, North), n);
    RouteWithinSafe(lab, Guard(start, North), n);
  }

  /** The guard of a parsed lab leaves it. A guard that walks forever makes
      `visited_positions` loop forever. */
  ghost predicate Escapes(input: string) {
    var parsed := FromLines(Lines(input));
    parsed.Ok? ==> Exits(parsed.value.0, Guard(parsed.value.1, North))
  }

  /** `part1`: the number of distinct cells on the guard's route; a lab
      the parse refuses is an error. */
  method Part1(input: string) returns (r: Result<nat, LabError>)
    requires Escapes(input)
    ensures r.Ok? <==> FromLines(Lines(input)).Ok?
    ensures r.Err? ==> r.error == FromLines(Lines(input)).error
    ensures r.Ok? ==> var (lab, start) := FromLines(Lines(input)).value;
      r.value == |Route(lab, Guard(start, North))| && r.value >= 1
  {
    var parsed := FromLines(Lines(input));
    if parsed.Err? {
      return Err(parsed.error);
    }
    var (lab, start) := parsed.value;
    var visited := VisitedPositions(lab, start);
    RouteSafe(lab, start);
    r := Ok(|visited|);
  }
}

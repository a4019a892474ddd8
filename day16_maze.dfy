/** Day 16, the maze: cells, facings, and the parse of the maze text
    (src/bin/day16.rs, `PositionType`, `Direction` and the start of `part1`/`part2`). */
module Day16Maze {
  import opened Wrappers
  import opened Vectors

  datatype PositionType = Empty | Wall

  datatype ParseError = InvalidChar | DuplicateStart | DuplicateEnd | MissingStart | MissingEnd

  /** `PositionType::try_from`: the start and end markers are open floor. */
  function PositionTypeOf(c: char): (r: Result<PositionType, ParseError>)
    ensures r.Ok? <==> c == '.' || c == 'S' || c == 'E' || c == '#'
    ensures r.Ok? ==> (r.value == Wall <==> c == '#')
    ensures r.Err? ==> r.error == InvalidChar
  {
    match c
    case '.' => Ok(Empty)
    case 'S' => Ok(Empty)
    case 'E' => Ok(Empty)
    case '#' => Ok(Wall)
    case _ => Err(InvalidChar)
  }

  /** The `Debug` rendering of a cell, which decodes back to the same cell. */
  function DebugChar(t: PositionType): (c: char)
    ensures PositionTypeOf(c) == Ok(t)
    ensures c != 'S' && c != 'E'
  {
    match t
    case Empty => '.'
    case Wall => '#'
  }

  datatype Direction = East | North | South | West

  /** `Direction::ALL`, in the order the source walks it. */
  const ALL: seq<Direction> := [East, North, South, West]

  /** `Direction::xy`: y grows downwards, so North is (0, -1). */
  function Xy(d: Direction): (v: IVec2)
    ensures Abs(v.x) + Abs(v.y) == 1
  {
    match d
    case East => IVec2(1, 0)
    case North => IVec2(0, -1)
    case South => IVec2(0, 1)
    case West => IVec2(-1, 0)
  }

  /** `Direction::inverse`: the opposite facing, whose step undoes this one. */
  function Inverse(d: Direction): (r: Direction)
    ensures r != d
    ensures Xy(r) == Xy(d).Neg()
  {
    match d
    case East => West
    case North => South
    case South => North
    case West => East
  }

  /** Turning round twice faces the original way. */
  lemma InverseInvolutive(d: Direction)
    ensures Inverse(Inverse(d)) == d
  {
    match d
    case East =>
    case North =>
    case South =>
    case West =>
  }

  /** The maze as the parse leaves it: one row per line (rows may differ in
      length), and the start and end positions. */
  datatype Maze = Maze(grid: seq<seq<PositionType>>, start: IVec2, end: IVec2)

  /** `maze.get(y).and_then(|row| row.get(x))`: negative coordinates turn into
      huge `usize` values and miss like any other out-of-range index. */
  function Cell(grid: seq<seq<PositionType>>, p: IVec2): Option<PositionType> {
    if 0 <= p.y < |grid| && 0 <= p.x < |grid[p.y]| then Some(grid[p.y][p.x]) else None
  }

  predicate Open(grid: seq<seq<PositionType>>, p: IVec2) {
    Cell(grid, p) == Some(Empty)
  }

  /** The character of the maze text at `p`, if there is one. */
  function CharAt(lines: seq<string>, p: IVec2): Option<char> {
    if 0 <= p.y < |lines| && 0 <= p.x < |lines[p.y]| then Some(lines[p.y][p.x]) else None
  }

  predicate ValidMazeChars(lines: seq<string>) {
    forall y, x :: 0 <= y < |lines| && 0 <= x < |lines[y]| ==> PositionTypeOf(lines[y][x]).Ok?
  }

  /** `c` stands at `p` and nowhere else. */
  ghost predicate UniqueAt(lines: seq<string>, c: char, p: IVec2) {
    CharAt(lines, p) == Some(c) && forall q :: CharAt(lines, q) == Some(c) ==> q == p
  }

  /** What the parse accepts: only maze characters, one start and one end. */
  ghost predicate WellFormedText(lines: seq<string>) {
    ValidMazeChars(lines) && (exists p :: UniqueAt(lines, 'S', p)) && (exists p :: UniqueAt(lines, 'E', p))
  }

  /** Row-major scan order: `p` comes before cell (x, y). */
  predicate ScannedBefore(p: IVec2, x: int, y: int) {
    0 <= p.y && (p.y < y || (p.y == y && 0 <= p.x < x))
  }

  /** The inner loop of the parse, over row `y`: the cells of the row, with
      the start and end found so far carried along. */
  method ParseRow(lines: seq<string>, y: nat, start0: Option<IVec2>, end0: Option<IVec2>)
    returns (r: Result<seq<PositionType>, ParseError>, start: Option<IVec2>, end: Option<IVec2>)
    requires y < |lines|
    requires ScanState(lines, 'S', start0, 0, y) && ScanState(lines, 'E', end0, 0, y)
    ensures r.Ok? ==> |r.value| == |lines[y]|
    ensures r.Ok? ==> forall x :: 0 <= x < |lines[y]| ==> Ok(r.value[x]) == PositionTypeOf(lines[y][x])
    ensures r.Ok? ==> ScanState(lines, 'S', start, 0, y + 1) && ScanState(lines, 'E', end, 0, y + 1)
    ensures r.Err? ==> r.error != MissingStart && r.error != MissingEnd
    ensures r == Err(InvalidChar) ==> !ValidMazeChars(lines)
    ensures r == Err(DuplicateStart) ==>
      exists p, q :: p != q && CharAt(lines, p) == Some('S') && CharAt(lines, q) == Some('S')
    ensures r == Err(DuplicateEnd) ==>
      exists p, q :: p != q && CharAt(lines, p) == Some('E') && CharAt(lines, q) == Some('E')
  {
    start, end := start0, end0;
    var row: seq<PositionType> := [];
    var x := 0;
    while x < |lines[y]|
      invariant 0 <= x <= |lines[y]| && |row| == x
      invariant forall x' :: 0 <= x' < x ==> Ok(row[x']) == PositionTypeOf(lines[y][x'])
      invariant ScanState(lines, 'S', start, x, y)
      invariant ScanState(lines, 'E', end, x, y)
    {
      var c := lines[y][x];
      var p := IVec2(x, y);
      ghost var start1, end1 := start, end;
      if c == 'S' {
        if start.Some? {
          Duplicated(lines, 'S', start.value, p);
          return Err(DuplicateStart), start, end;
        }
        start := Some(p);
      } else if c == 'E' {
        if end.Some? {
          Duplicated(lines, 'E', end.value, p);
          return Err(DuplicateEnd), start, end;
        }
        end := Some(p);
      }
      var t := PositionTypeOf(c);
      if t.Err? {
        assert !ValidMazeChars(lines) by { assert !PositionTypeOf(lines[y][x]).Ok?; }
        return Err(InvalidChar), start, end;
      }
      ScanStep(lines, 'S', start1, start, x, y);
      ScanStep(lines, 'E', end1, end, x, y);
      row := row + [t.value];
      x := x + 1;
    }
    RowDone(lines, 'S', start, y);
    RowDone(lines, 'E', end, y);
    r := Ok(row);
  }

  /** The parse loop at the head of `part1` (and, verbatim, `part2`): the
      first second 'S' or 'E' in row-major order, or the first character
      that is not a maze character, ends it with an error; a missing start or
      end is reported after the scan. */
  method ParseMaze(lines: seq<string>) returns (r: Result<Maze, ParseError>)
    ensures r.Ok? ==> |r.value.grid| == |lines|
    ensures r.Ok? ==> forall y :: 0 <= y < |lines| ==> |r.value.grid[y]| == |lines[y]|
    ensures r.Ok? ==> forall y, x :: 0 <= y < |lines| && 0 <= x < |lines[y]| ==>
      Ok(r.value.grid[y][x]) == PositionTypeOf(lines[y][x])
    ensures r.Ok? ==> UniqueAt(lines, 'S', r.value.start) && UniqueAt(lines, 'E', r.value.end)
    ensures r == Err(InvalidChar) ==> !ValidMazeChars(lines)
    ensures r == Err(DuplicateStart) ==>
      exists p, q :: p != q && CharAt(lines, p) == Some('S') && CharAt(lines, q) == Some('S')
    ensures r == Err(DuplicateEnd) ==>
      exists p, q :: p != q && CharAt(lines, p) == Some('E') && CharAt(lines, q) == Some('E')
    ensures r == Err(MissingStart) ==> forall p :: CharAt(lines, p) != Some('S')
    ensures r == Err(MissingEnd) ==> forall p :: CharAt(lines, p) != Some('E')
    ensures r.Ok? <==> WellFormedText(lines)
  {
    var grid: seq<seq<PositionType>> := [];
    var start: Option<IVec2> := None;
    var end: Option<IVec2> := None;
    var y := 0;
    while y < |lines|
      invariant 0 <= y <= |lines| && |grid| == y
      invariant forall y' :: 0 <= y' < y ==> |grid[y']| == |lines[y']|
      invariant forall y', x :: 0 <= y' < y && 0 <= x < |lines[y']| ==>
        Ok(grid[y'][x]) == PositionTypeOf(lines[y'][x])
      invariant ScanState(lines, 'S', start, 0, y)
      invariant ScanState(lines, 'E', end, 0, y)
    {
      var row;
      row, start, end := ParseRow(lines, y, start, end);
      if row.Err? {
        return Err(row.error);
      }
      grid := grid + [row.value];
      y := y + 1;
    }
    if start.None? {
      Missing(lines, 'S', |lines|);
      return Err(MissingStart);
    }
    if end.None? {
      Missing(lines, 'E', |lines|);
      return Err(MissingEnd);
    }
    Complete(lines, 'S', start);
    Complete(lines, 'E', end);
    r := Ok(Maze(grid, start.value, end.value));
  }

  /** What the scan knows after visiting every cell before (x, y): every
      character seen is a maze character, and `found` is the one place it saw
      `c`, if any. */
  ghost predicate ScanState(lines: seq<string>, c: char, found: Option<IVec2>, x: int, y: int) {
    && (forall p :: ScannedBefore(p, x, y) && CharAt(lines, p).Some? ==> PositionTypeOf(CharAt(lines, p).value).Ok?)
    && (found.None? ==> forall p :: ScannedBefore(p, x, y) ==> CharAt(lines, p) != Some(c))
    && (found.Some? ==> (ScannedBefore(found.value, x, y) && CharAt(lines, found.value) == Some(c)
          && forall p :: ScannedBefore(p, x, y) && CharAt(lines, p) == Some(c) ==> p == found.value))
  }

  /** One more cell scanned. */
  lemma ScanStep(lines: seq<string>, c: char, found: Option<IVec2>, found': Option<IVec2>, x: int, y: int)
    requires 0 <= y < |lines| && 0 <= x < |lines[y]| && PositionTypeOf(lines[y][x]).Ok?
    requires ScanState(lines, c, found, x, y)
    requires lines[y][x] == c ==> found.None? && found' == Some(IVec2(x, y))
    requires lines[y][x] != c ==> found' == found
    ensures ScanState(lines, c, found', x + 1, y)
  {
    forall p | ScannedBefore(p, x + 1, y) && !ScannedBefore(p, x, y)
      ensures p == IVec2(x, y)
    {
    }
  }

  /** The scan moves from the end of one row to the start of the next: the
      cells past the end of a row hold no character. */
  lemma RowDone(lines: seq<string>, c: char, found: Option<IVec2>, y: int)
    requires 0 <= y < |lines| && ScanState(lines, c, found, |lines[y]|, y)
    ensures ScanState(lines, c, found, 0, y + 1)
  {
    forall p | ScannedBefore(p, 0, y + 1) && !ScannedBefore(p, |lines[y]|, y)
      ensures CharAt(lines, p).None?
    {
    }
  }

  /** Two places holding `c` leave no place where it is unique. */
  lemma Duplicated(lines: seq<string>, c: char, p: IVec2, q: IVec2)
    requires p != q && CharAt(lines, p) == Some(c) && CharAt(lines, q) == Some(c)
    ensures !exists u :: UniqueAt(lines, c, u)
  {
  }

  /** A scan of every row that never saw `c`. */
  lemma Missing(lines: seq<string>, c: char, y: int)
    requires y == |lines| && ScanState(lines, c, None, 0, y)
    ensures forall p :: CharAt(lines, p) != Some(c)
    ensures !exists u :: UniqueAt(lines, c, u)
  {
    forall p | CharAt(lines, p).Some?
      ensures CharAt(lines, p) != Some(c)
    {
      assert ScannedBefore(p, 0, y);
    }
  }

  /** A finished scan that saw `c` once, and only maze characters. */
  lemma Complete(lines: seq<string>, c: char, found: Option<IVec2>)
    requires found.Some? && ScanState(lines, c, found, 0, |lines|)
    ensures UniqueAt(lines, c, found.value)
    ensures ValidMazeChars(lines)
  {
    forall q | CharAt(lines, q) == Some(c)
      ensures q == found.value
    {
      assert ScannedBefore(q, 0, |lines|);
    }
    forall y, x | 0 <= y < |lines| && 0 <= x < |lines[y]|
      ensures PositionTypeOf(lines[y][x]).Ok?
    {
      assert CharAt(lines, IVec2(x, y)).Some?;
      assert ScannedBefore(IVec2(x, y), 0, |lines|);
    }
  }
}

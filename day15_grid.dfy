/** The grid shared by both warehouses of src/bin/day15.rs: rows of cells
    indexed by `IVec2` (y grows downwards), the four push directions, and
    the GPS sum, 100·y + x over the cells of one kind. */
module Day15Grid {
  import opened Vectors

  datatype Direction = East | North | South | West

  /** `Direction::xy`. */
  function Xy(d: Direction): (v: IVec2)
    ensures Abs(v.x) + Abs(v.y) == 1
    ensures v.x == 0 <==> Vertical(d)
  {
    match d
    case East => IVec2(1, 0)
    case North => IVec2(0, -1)
    case South => IVec2(0, 1)
    case West => IVec2(-1, 0)
  }

  /** The directions `try_move` handles with the box stack. */
  predicate Vertical(d: Direction) {
    d == North || d == South
  }

  /** What `from_iter` accepts: at least one row, and rows of one length. */
  predicate Rect<T>(rows: seq<seq<T>>) {
    && |rows| > 0
    && forall y :: 0 <= y < |rows| ==> |rows[y]| == |rows[0]|
  }

  predicate InBounds<T>(rows: seq<seq<T>>, p: IVec2) {
    0 <= p.y < |rows| && 0 <= p.x < |rows[p.y]|
  }

  /** `self[p.y as usize][p.x as usize]`. */
  function At<T>(rows: seq<seq<T>>, p: IVec2): T
    requires InBounds(rows, p)
  {
    rows[p.y][p.x]
  }

  /** `self[p.y as usize][p.x as usize] = v`. */
  function Update<T>(rows: seq<seq<T>>, p: IVec2, v: T): (r: seq<seq<T>>)
    requires InBounds(rows, p)
    ensures |r| == |rows| && forall y :: 0 <= y < |rows| ==> |r[y]| == |rows[y]|
    ensures At(r, p) == v
    ensures forall q :: InBounds(rows, q) && q != p ==> At(r, q) == At(rows, q)
  {
    rows[p.y := rows[p.y][p.x := v]]
  }

  /** A cell of the outermost ring. */
  predicate OnBorder<T>(rows: seq<seq<T>>, p: IVec2)
    requires InBounds(rows, p)
  {
    p.x == 0 || p.y == 0 || p.y == |rows| - 1 || p.x == |rows[p.y]| - 1
  }

  /** The number of cells beyond `p` in direction `d`. */
  function Room<T>(rows: seq<seq<T>>, p: IVec2, d: Direction): nat
    requires InBounds(rows, p)
  {
    match d
    case East => |rows[p.y]| - 1 - p.x
    case North => p.y
    case South => |rows| - 1 - p.y
    case West => p.x
  }

  /** A step from a cell off the border stays on the grid, with less room
      ahead. */
  lemma StepInside<T>(rows: seq<seq<T>>, p: IVec2, d: Direction)
    requires Rect(rows) && InBounds(rows, p) && !OnBorder(rows, p)
    ensures InBounds(rows, p.Add(Xy(d))) && Room(rows, p.Add(Xy(d)), d) < Room(rows, p, d)
  {
  }

  /** Two grids of one shape that agree on every cell are equal. */
  lemma GridsEqual<T>(a: seq<seq<T>>, b: seq<seq<T>>)
    requires |a| == |b| && forall y :: 0 <= y < |a| ==> |a[y]| == |b[y]|
    requires forall p :: InBounds(a, p) ==> At(a, p) == At(b, p)
    ensures a == b
  {
    forall y | 0 <= y < |a|
      ensures a[y] == b[y]
    {
      forall x | 0 <= x < |a[y]|
        ensures a[y][x] == b[y][x]
      {
        assert InBounds(a, IVec2(x, y));
      }
    }
  }

  /** The cells holding `kind`. */
  function Cells<T(==)>(rows: seq<seq<T>>, kind: T): (r: set<IVec2>)
    ensures forall p :: p in r <==> InBounds(rows, p) && At(rows, p) == kind
  {
    set y, x | 0 <= y < |rows| && 0 <= x < |rows[y]| && rows[y][x] == kind :: IVec2(x, y)
  }

  /** Writing `v` at `p` takes `p` out of every other kind's cells and puts
      it into `v`'s. */
  lemma CellsUpdate<T>(rows: seq<seq<T>>, p: IVec2, v: T, kind: T)
    requires InBounds(rows, p)
    ensures Cells(Update(rows, p, v), kind) == if v == kind then Cells(rows, kind) + {p} else Cells(rows, kind) - {p}
  {
  }

  // The GPS sum

  /** A cell's GPS coordinate. */
  function Coordinate(p: IVec2): int {
    100 * p.y + p.x
  }

  /** What a cell at `p` holding `cell` adds to the sum. */
  function Weight<T(==)>(cell: T, counted: T, p: IVec2): int {
    if cell == counted then Coordinate(p) else 0
  }

  /** The sum over the first `n` cells of row `y`. */
  function RowGps<T(==)>(row: seq<T>, y: int, n: nat, counted: T): int
    requires n <= |row|
  {
    if n == 0 then 0 else RowGps(row, y, n - 1, counted) + Weight(row[n - 1], counted, IVec2(n - 1, y))
  }

  /** The sum over the first `n` rows. */
  function Gps<T(==)>(rows: seq<seq<T>>, n: nat, counted: T): int
    requires n <= |rows|
  {
    if n == 0 then 0 else Gps(rows, n - 1, counted) + RowGps(rows[n - 1], n - 1, |rows[n - 1]|, counted)
  }

  /** On a grid, every cell adds a non-negative weight. */
  lemma {:induction false} GpsNonNegative<T>(rows: seq<seq<T>>, n: nat, counted: T)
    requires n <= |rows|
    ensures Gps(rows, n, counted) >= 0
  {
    if n > 0 {
      GpsNonNegative(rows, n - 1, counted);
      RowGpsNonNegative(rows[n - 1], n - 1, |rows[n - 1]|, counted);
    }
  }

  lemma {:induction false} RowGpsNonNegative<T>(row: seq<T>, y: nat, n: nat, counted: T)
    requires n <= |row|
    ensures RowGps(row, y, n, counted) >= 0
  {
    if n > 0 {
      RowGpsNonNegative(row, y, n - 1, counted);
    }
  }

  lemma {:induction false} RowGpsUpdate<T>(row: seq<T>, y: int, n: nat, x: nat, v: T, counted: T)
    requires n <= |row| && x < |row|
    ensures RowGps(row[x := v], y, n, counted) + (if x < n then Weight(row[x], counted, IVec2(x, y)) else 0)
         == RowGps(row, y, n, counted) + (if x < n then Weight(v, counted, IVec2(x, y)) else 0)
  {
    if n > 0 {
      RowGpsUpdate(row, y, n - 1, x, v, counted);
    }
  }

  /** Writing one cell changes the sum by the difference of the two
      weights of that cell: the sum is a sum over the cells. */
  lemma {:induction false} GpsUpdate<T>(rows: seq<seq<T>>, n: nat, p: IVec2, v: T, counted: T)
    requires n <= |rows| && InBounds(rows, p)
    ensures Gps(Update(rows, p, v), n, counted) + (if p.y < n then Weight(At(rows, p), counted, p) else 0)
         == Gps(rows, n, counted) + (if p.y < n then Weight(v, counted, p) else 0)
  {
    if n > 0 {
      GpsUpdate(rows, n - 1, p, v, counted);
      var r := Update(rows, p, v);
      if p.y == n - 1 {
        RowGpsUpdate(rows[p.y], p.y, |rows[p.y]|, p.x, v, counted);
        assert r[p.y] == rows[p.y][p.x := v];
      } else {
        assert r[n - 1] == rows[n - 1];
      }
    }
  }

  /** The sum before column `x` of row `y`. */
  ghost predicate Summed<T>(rows: seq<seq<T>>, y: nat, x: nat, counted: T, sum: int)
    requires y < |rows| && x <= |rows[y]|
  {
    sum == Gps(rows, y, counted) + RowGps(rows[y], y, x, counted)
  }

  /** The closing loops of `part1` and `part2`: for each row, for each
      cell, add 100·y + x when the cell is the counted kind. */
  method GpsSum<T(==)>(rows: seq<seq<T>>, counted: T) returns (sum: nat)
    ensures sum == Gps(rows, |rows|, counted)
  {
    GpsNonNegative(rows, |rows|, counted);
    var total := 0;
    for y := 0 to |rows|
      invariant total == Gps(rows, y, counted)
    {
      var row := rows[y];
      for x := 0 to |row|
        invariant Summed(rows, y, x, counted, total)
      {
        if row[x] == counted {
          total := total + 100 * y + x;
        }
      }
    }
    sum := total;
  }
}

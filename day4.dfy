/** Day 4 of src/bin/day4.rs: a word search. Part 1 counts every way to read
    XMAS in one of the eight directions; part 2 counts the cells where two
    MAS cross in an X. */
module Day4 {
  import opened Wrappers
  import opened Vectors
  import opened Text

  datatype Direction = East | North | Northeast | Northwest | South | Southeast | Southwest | West

  const ALL: seq<Direction> := [East, North, Northeast, Northwest, South, Southeast, Southwest, West]

  function Opposite(d: Direction): (r: Direction) {
    match d
    case East => West
    case North => South
    case Northeast => Southwest
    case Northwest => Southeast
    case South => North
    case Southeast => Northwest
    case Southwest => Northeast
    case West => East
  }

  /** The step for `d`; `y` grows downward, so North is `-y`. */
  function Xy(d: Direction): (v: IVec2)
    ensures -1 <= v.x <= 1 && -1 <= v.y <= 1 && v != IVec2(0, 0)
  {
    match d
    case East => IVec2(1, 0)
    case North => IVec2(0, -1)
    case Northeast => IVec2(1, -1)
    case Northwest => IVec2(-1, -1)
    case South => IVec2(0, 1)
    case Southeast => IVec2(1, 1)
    case Southwest => IVec2(-1, 1)
    case West => IVec2(-1, 0)
  }

  /** `opposite` undoes itself and points the other way. */
  lemma OppositeReverses(d: Direction)
    ensures Opposite(Opposite(d)) == d
    ensures Xy(Opposite(d)) == Xy(d).Neg()
  {
    match d
    case East =>
    case North =>
    case Northeast =>
    case Northwest =>
    case South =>
    case Southeast =>
    case Southwest =>
    case West =>
  }

  /** The grid of letters with its dimensions. */
  datatype WordSearch = WordSearch(colCount: nat, rows: seq<seq<char>>, rowCount: nat)

  predicate Rectangular(ws: WordSearch) {
    |ws.rows| == ws.rowCount && ws.rowCount > 0
    && forall y :: 0 <= y < |ws.rows| ==> |ws.rows[y]| == ws.colCount
  }

  /** `WordSearch::from_iter`: the rows of the text, refused when there are
      none or when they differ in length (where the source panics). */
  function FromLines(lines: seq<string>): (r: Result<WordSearch, string>)
    ensures r.Ok? <==> |lines| > 0 && forall y :: 0 <= y < |lines| ==> |lines[y]| == |lines[0]|
    ensures r.Ok? ==> Rectangular(r.value) && r.value.rows == lines
  {
    if |lines| == 0 then Err("No rows in word search.")
    else if exists y :: 1 <= y < |lines| && |lines[y]| != |lines[0]| then
      Err("Word search rows are not all of equal length.")
    else Ok(WordSearch(|lines[0]|, lines, |lines|))
  }

  predicate InBounds(ws: WordSearch, p: IVec2) {
    0 <= p.x < ws.colCount && 0 <= p.y < ws.rowCount
  }

  function At(ws: WordSearch, p: IVec2): char
    requires Rectangular(ws) && InBounds(ws, p)
  {
    ws.rows[p.y][p.x]
  }

  /** `k` steps from `c` toward `d`. */
  function Ahead(c: IVec2, d: Direction, k: int): IVec2 {
    c.Add(Xy(d).Scale(k))
  }

  /** A line whose ends are in the grid lies in the grid. */
  lemma AheadInBounds(ws: WordSearch, c: IVec2, d: Direction, k: int)
    requires InBounds(ws, c) && InBounds(ws, Ahead(c, d, 3)) && 0 <= k <= 3
    ensures InBounds(ws, Ahead(c, d, k))
  {
  }

  /** `valid_directions`: the directions, in the order of `ALL`, whose third
      step from `cell` stays in the grid. */
  function ValidDirections(ws: WordSearch, cell: IVec2): (r: seq<Direction>)
    ensures forall d :: d in r <==> InBounds(ws, Ahead(cell, d, 3))
  {
    Filter(ws, cell, ALL)
  }

  function Filter(ws: WordSearch, cell: IVec2, ds: seq<Direction>): (r: seq<Direction>)
    ensures forall d :: d in r <==> d in ds && InBounds(ws, Ahead(cell, d, 3))
    ensures |r| <= |ds|
  {
    if ds == [] then []
    else if InBounds(ws, Ahead(cell, ds[0], 3)) then [ds[0]] + Filter(ws, cell, ds[1..])
    else Filter(ws, cell, ds[1..])
  }

  /** XMAS reads from `c` toward `d`: X at `c`, then M, A and S one, two
      and three steps ahead, all in the grid. */
  predicate XmasAt(ws: WordSearch, c: IVec2, d: Direction)
    requires Rectangular(ws)
  {
    InBounds(ws, c) && InBounds(ws, Ahead(c, d, 3))
    && At(ws, c) == 'X' && At(ws, Ahead(c, d, 1)) == 'M'
    && At(ws, Ahead(c, d, 2)) == 'A' && At(ws, Ahead(c, d, 3)) == 'S'
  }

  /** The same, letter by letter along the line. */
  lemma XmasAtLetters(ws: WordSearch, c: IVec2, d: Direction)
    requires Rectangular(ws)
    ensures XmasAt(ws, c, d) <==>
      forall k :: 0 <= k < 4 ==> InBounds(ws, Ahead(c, d, k)) && At(ws, Ahead(c, d, k)) == "XMAS"[k]
  {
    assert Ahead(c, d, 0) == c;
    if InBounds(ws, c) && InBounds(ws, Ahead(c, d, 3)) {
      AheadInBounds(ws, c, d, 1);
      AheadInBounds(ws, c, d, 2);
    }
  }

  /** The number of directions among `ds` along which XMAS reads from `c`. */
  function CountDirections(ws: WordSearch, c: IVec2, ds: seq<Direction>): nat
    requires Rectangular(ws)
  {
    if ds == [] then 0
    else (if XmasAt(ws, c, ds[0]) then 1 else 0) + CountDirections(ws, c, ds[1..])
  }

  /** Leaving out the directions that leave the grid within three steps loses
      no reading. */
  lemma {:induction false} FilterKeepsCount(ws: WordSearch, c: IVec2, ds: seq<Direction>)
    requires Rectangular(ws)
    ensures CountDirections(ws, c, Filter(ws, c, ds)) == CountDirections(ws, c, ds)
  {
    if ds != [] {
      FilterKeepsCount(ws, c, ds[1..]);
      if !InBounds(ws, Ahead(c, ds[0], 3)) {
        assert !XmasAt(ws, c, ds[0]);
      }
    }
  }

  /** A cell not holding X starts no reading. */
  lemma {:induction false} NoXNoCount(ws: WordSearch, c: IVec2, ds: seq<Direction>)
    requires Rectangular(ws) && InBounds(ws, c) && At(ws, c) != 'X'
    ensures CountDirections(ws, c, ds) == 0
  {
    if ds != [] {
      assert Ahead(c, ds[0], 0) == c;
      NoXNoCount(ws, c, ds[1..]);
    }
  }

  /** The inner loop over the letters M, A, S after an X. */
  method ReadsMas(ws: WordSearch, cell: IVec2, d: Direction) returns (found: bool)
    requires Rectangular(ws) && InBounds(ws, cell) && At(ws, cell) == 'X'
    requires InBounds(ws, Ahead(cell, d, 3))
    ensures found <==> XmasAt(ws, cell, d)
  {
    assert Ahead(cell, d, 0) == cell;
    found := false;
    var k := 1;
    while k < 4
      invariant 1 <= k <= 4
      invariant forall j :: 0 <= j < k ==> InBounds(ws, Ahead(cell, d, j)) && At(ws, Ahead(cell, d, j)) == "XMAS"[j]
      invariant found <==> k == 4
    {
      AheadInBounds(ws, cell, d, k);
      var next := Ahead(cell, d, k);
      if At(ws, next) != "XMAS"[k] {
        break;
      } else if "XMAS"[k] == 'S' {
        found := true;
      }
      k := k + 1;
    }
    XmasAtLetters(ws, cell, d);
  }

  /** The directions loop for one X cell. */
  method CountAtCell(ws: WordSearch, cell: IVec2) returns (n: nat)
    requires Rectangular(ws) && InBounds(ws, cell) && At(ws, cell) == 'X'
    ensures n == CountDirections(ws, cell, ALL)
  {
    var ds := ValidDirections(ws, cell);
    n := CountAlong(ws, cell, ds);
    FilterKeepsCount(ws, cell, ALL);
  }

  /** The loop over directions that stay in the grid for three steps. */
  method CountAlong(ws: WordSearch, cell: IVec2, ds: seq<Direction>) returns (n: nat)
    requires Rectangular(ws) && InBounds(ws, cell) && At(ws, cell) == 'X'
    requires forall i :: 0 <= i < |ds| ==> InBounds(ws, Ahead(cell, ds[i], 3))
    ensures n == CountDirections(ws, cell, ds)
  {
    n := 0;
    var i := 0;
    while i < |ds|
      invariant 0 <= i <= |ds|
      invariant n + CountDirections(ws, cell, ds[i..]) == CountDirections(ws, cell, ds)
    {
      var found := ReadsMas(ws, cell, ds[i]);
      CountDirectionsAt(ws, cell, ds, i, found);
      if found {
        n := n + 1;
      }
      i := i + 1;
    }
  }

  /** Counting from direction `i` on: direction `i`, then the rest. */
  lemma CountDirectionsAt(ws: WordSearch, c: IVec2, ds: seq<Direction>, i: nat, found: bool)
    requires Rectangular(ws) && i < |ds| && (found <==> XmasAt(ws, c, ds[i]))
    ensures CountDirections(ws, c, ds[i..]) == (if found then 1 else 0) + CountDirections(ws, c, ds[i + 1..])
  {
    assert ds[i..][1..] == ds[i + 1..];
  }

  /** Readings starting in the first `x` cells of row `y`. */
  function RowCount(ws: WordSearch, y: nat, x: nat): nat
    requires Rectangular(ws)
  {
    if x == 0 then 0 else RowCount(ws, y, x - 1) + CountDirections(ws, IVec2(x - 1, y), ALL)
  }

  /** Readings starting in the first `y` rows. */
  function GridCount(ws: WordSearch, y: nat): nat
    requires Rectangular(ws)
  {
    if y == 0 then 0 else GridCount(ws, y - 1) + RowCount(ws, y - 1, ws.colCount)
  }

  /** The number of (cell, direction) pairs along which XMAS reads. */
  function XmasCount(ws: WordSearch): nat
    requires Rectangular(ws)
  {
    GridCount(ws, ws.rowCount)
  }

  /** The scan of one row for X cells. */
  method ScanRowForXmas(ws: WordSearch, y: nat) returns (n: nat)
    requires Rectangular(ws) && y < ws.rowCount
    ensures n == RowCount(ws, y, ws.colCount)
  {
    n := 0;
    var x := 0;
    while x < ws.colCount
      invariant 0 <= x <= ws.colCount
      invariant n == RowCount(ws, y, x)
    {
      var cell := IVec2(x, y);
      if ws.rows[y][x] == 'X' {
        var m := CountAtCell(ws, cell);
        n := n + m;
      } else {
        NoXNoCount(ws, cell, ALL);
      }
      x := x + 1;
    }
  }

  /** `part1`. */
  method Part1(input: string) returns (r: Result<nat, string>)
    ensures r.Ok? <==> FromLines(Lines(input)).Ok?
    ensures r.Ok? ==> r.value == XmasCount(FromLines(Lines(input)).value)
  {
    var parsed := FromLines(Lines(input));
    if parsed.Err? {
      return Err(parsed.error);
    }
    var ws := parsed.value;
    var count := 0;
    var y := 0;
    while y < ws.rowCount
      invariant 0 <= y <= ws.rowCount
      invariant count == GridCount(ws, y)
    {
      var n := ScanRowForXmas(ws, y);
      count := count + n;
      y := y + 1;
    }
    r := Ok(count);
  }

  /** The cell is an interior cell, the only ones part 2 looks at. */
  predicate Interior(ws: WordSearch, c: IVec2) {
    0 < c.x < ws.colCount - 1 && 0 < c.y < ws.rowCount - 1
  }

  /** The diagonal through `c` toward `d` and its opposite reads MAS one way
      or the other. */
  predicate MasAcross(ws: WordSearch, c: IVec2, d: Direction)
    requires Rectangular(ws) && InBounds(ws, c.Add(Xy(d))) && InBounds(ws, c.Add(Xy(Opposite(d))))
  {
    var a, b := At(ws, c.Add(Xy(d))), At(ws, c.Add(Xy(Opposite(d))));
    (a == 'M' && b == 'S') || (a == 'S' && b == 'M')
  }

  /** Two MAS cross at `c`: an interior A with both diagonals reading MAS. */
  predicate XMasAt(ws: WordSearch, c: IVec2)
    requires Rectangular(ws)
  {
    InBounds(ws, c) && Interior(ws, c) && At(ws, c) == 'A'
    && MasAcross(ws, c, Northeast) && MasAcross(ws, c, Northwest)
  }

  function CrossRowCount(ws: WordSearch, y: nat, x: nat): nat
    requires Rectangular(ws)
  {
    if x == 0 then 0 else CrossRowCount(ws, y, x - 1) + if XMasAt(ws, IVec2(x - 1, y)) then 1 else 0
  }

  function CrossGridCount(ws: WordSearch, y: nat): nat
    requires Rectangular(ws)
  {
    if y == 0 then 0 else CrossGridCount(ws, y - 1) + CrossRowCount(ws, y - 1, ws.colCount)
  }

  /** The number of cells where two MAS cross. */
  function XMasCount(ws: WordSearch): nat
    requires Rectangular(ws)
  {
    CrossGridCount(ws, ws.rowCount)
  }

  /** The loop over the two diagonals of an interior A cell: the first that
      fails to read MAS stops it, and the cell counts when the second reads. */
  method CrossesAt(ws: WordSearch, cell: IVec2) returns (counted: bool)
    requires Rectangular(ws) && InBounds(ws, cell) && Interior(ws, cell) && At(ws, cell) == 'A'
    ensures counted <==> XMasAt(ws, cell)
  {
    counted := false;
    var diagonals := [Northeast, Northwest];
    var i := 0;
    while i < 2
      invariant 0 <= i <= 2
      invariant forall j :: 0 <= j < i ==> MasAcross(ws, cell, diagonals[j])
      invariant counted <==> i == 2
    {
      var direction := diagonals[i];
      var adjacent := At(ws, cell.Add(Xy(direction)));
      var oppositeAdjacent := At(ws, cell.Add(Xy(Opposite(direction))));
      if !((adjacent == 'M' && oppositeAdjacent == 'S') || (adjacent == 'S' && oppositeAdjacent == 'M')) {
        assert !MasAcross(ws, cell, direction);
        break;
      }
      if direction == Northwest {
        counted := true;
      }
      i := i + 1;
    }
    assert counted ==> MasAcross(ws, cell, diagonals[0]) && MasAcross(ws, cell, diagonals[1]);
  }

  method ScanRowForCrosses(ws: WordSearch, y: nat) returns (n: nat)
    requires Rectangular(ws) && y < ws.rowCount
    ensures n == CrossRowCount(ws, y, ws.colCount)
  {
    n := 0;
    var x := 0;
    while x < ws.colCount
      invariant 0 <= x <= ws.colCount
      invariant n == CrossRowCount(ws, y, x)
    {
      var cell := IVec2(x, y);
      if ws.rows[y][x] == 'A' && Interior(ws, cell) {
        var counted := CrossesAt(ws, cell);
        if counted {
          n := n + 1;
        }
      }
      x := x + 1;
    }
  }

  /** `part2`. */
  method Part2(input: string) returns (r: Result<nat, string>)
    ensures r.Ok? <==> FromLines(Lines(input)).Ok?
    ensures r.Ok? ==> r.value == XMasCount(FromLines(Lines(input)).value)
  {
    var parsed := FromLines(Lines(input));
    if parsed.Err? {
      return Err(parsed.error);
    }
    var ws := parsed.value;
    var count := 0;
    var y := 0;
    while y < ws.rowCount
      invariant 0 <= y <= ws.rowCount
      invariant count == CrossGridCount(ws, y)
    {
      var n := ScanRowForCrosses(ws, y);
      count := count + n;
      y := y + 1;
    }
    r := Ok(count);
  }
}

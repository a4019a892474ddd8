/** Day 10 of src/bin/day10.rs: a map of digit heights; a hiking trail climbs
    from a 0 to a 9 one height at a time through the four neighbours. Part 1
    sums, over the trailheads, how many 9s each reaches; part 2 sums how many
    trails each starts. */
module Day10 {
  import opened Wrappers
  import opened Text
  import opened Digits
  import opened Vectors

  const DIGIT_PANIC := "All chars in input should be digits in the range 0-9."
  const EMPTY_PANIC := "No rows in Lab."
  const RAGGED_PANIC := "Lab rows are not all of equal length."

  datatype TopographicMap = TopographicMap(colCount: nat, rows: seq<seq<nat>>, rowCount: nat)

  /** A map the constructor accepts: rows of one length, heights 0 to 9. */
  predicate Valid(m: TopographicMap) {
    && |m.rows| == m.rowCount > 0
    && (forall y :: 0 <= y < |m.rows| ==> |m.rows[y]| == m.colCount)
    && (forall y, x :: 0 <= y < |m.rows| && 0 <= x < |m.rows[y]| ==> m.rows[y][x] <= 9)
  }

  function HeightRow(line: string): (r: seq<nat>)
    requires AllDigits(line)
    ensures |r| == |line| && forall x :: 0 <= x < |line| ==> r[x] == ToDigit(line[x]).value && r[x] <= 9
  {
    seq(|line|, x requires 0 <= x < |line| => ToDigit(line[x]).value)
  }

  /** `TopographicMap::from_iter` over the parsed lines: a character that is
      not a digit panics while the rows are collected, then an empty or a
      ragged grid panics; the panics are errors here. */
  function FromLines(lines: seq<string>): (r: Result<TopographicMap, string>)
    ensures r.Ok? <==>
      && (forall y :: 0 <= y < |lines| ==> AllDigits(lines[y]))
      && |lines| > 0 && forall y :: 0 <= y < |lines| ==> |lines[y]| == |lines[0]|
    ensures r.Err? ==> r.error == (if exists y :: 0 <= y < |lines| && !AllDigits(lines[y]) then DIGIT_PANIC
      else if |lines| == 0 then EMPTY_PANIC else RAGGED_PANIC)
    ensures r.Ok? ==> (Valid(r.value) && |r.value.rows| == |lines|
      && forall y :: 0 <= y < |lines| ==> r.value.rows[y] == HeightRow(lines[y]))
  {
    if exists y :: 0 <= y < |lines| && !AllDigits(lines[y]) then Err(DIGIT_PANIC)
    else if |lines| == 0 then Err(EMPTY_PANIC)
    else if exists y :: 1 <= y < |lines| && |lines[y]| != |lines[0]| then Err(RAGGED_PANIC)
    else Ok(TopographicMap(|lines[0]|, seq(|lines|, y requires 0 <= y < |lines| => HeightRow(lines[y])), |lines|))
  }

  predicate InBounds(m: TopographicMap, p: IVec2) {
    0 <= p.x < m.colCount && 0 <= p.y < m.rowCount
  }

  function Height(m: TopographicMap, p: IVec2): (h: nat)
    requires Valid(m) && InBounds(m, p)
    ensures h <= 9
  {
    m.rows[p.y][p.x]
  }

  function Cells(m: TopographicMap): set<IVec2> {
    set x: int, y: int | 0 <= x < m.colCount && 0 <= y < m.rowCount :: IVec2(x, y)
  }

  /** Every cell of `s` is on the map. */
  predicate Placed(m: TopographicMap, s: seq<IVec2>) {
    forall i :: 0 <= i < |s| ==> InBounds(m, s[i])
  }

  /** What the search stacks hold: cells on the map below 9. */
  predicate Pending(m: TopographicMap, s: seq<IVec2>)
    requires Valid(m)
  {
    Placed(m, s) && forall i :: 0 <= i < |s| ==> Height(m, s[i]) < 9
  }

  datatype Direction = East | North | South | West

  /** `Direction::ALL`. */
  const ALL := [East, North, South, West]

  function Xy(d: Direction): IVec2 {
    match d
    case East => IVec2(1, 0)
    case North => IVec2(0, -1)
    case South => IVec2(0, 1)
    case West => IVec2(-1, 0)
  }

  /** The four neighbours, in the order of `ALL`; they are distinct. */
  function Neighbours(p: IVec2): (r: seq<IVec2>)
    ensures |r| == 4 && forall i :: 0 <= i < 4 ==> r[i] == p.Add(Xy(ALL[i]))
    ensures forall i, j :: 0 <= i < j < 4 ==> r[i] != r[j]
  {
    [p.Add(Xy(East)), p.Add(Xy(North)), p.Add(Xy(South)), p.Add(Xy(West))]
  }

  /** A trail step: to a neighbour in the map exactly one higher. */
  predicate Climbs(m: TopographicMap, p: IVec2, q: IVec2)
    requires Valid(m)
  {
    InBounds(m, p) && InBounds(m, q) && q in Neighbours(p) && Height(m, q) == Height(m, p) + 1
  }

  /** A path that climbs at every step. */
  ghost predicate Trail(m: TopographicMap, t: seq<IVec2>)
    requires Valid(m)
  {
    && |t| >= 1 && (forall i :: 0 <= i < |t| ==> InBounds(m, t[i]))
    && forall i :: 0 <= i < |t| - 1 ==> Climbs(m, t[i], t[i + 1])
  }

  ghost predicate Reaches(m: TopographicMap, c: IVec2, p: IVec2)
    requires Valid(m)
  {
    exists t :: Trail(m, t) && t[0] == c && t[|t| - 1] == p
  }

  lemma {:induction false} TrailHeights(m: TopographicMap, t: seq<IVec2>, i: nat)
    requires Valid(m) && Trail(m, t) && i < |t|
    ensures InBounds(m, t[i]) && Height(m, t[i]) == Height(m, t[0]) + i
    decreases i
  {
    if i > 0 {
      TrailHeights(m, t, i - 1);
    }
  }

  lemma ReachesStep(m: TopographicMap, c: IVec2, q: IVec2, r: IVec2)
    requires Valid(m) && Climbs(m, q, r) && (q == c || Reaches(m, c, q))
    ensures Reaches(m, c, r)
  {
    if q == c {
      assert Trail(m, [c, r]);
    } else {
      var t :| Trail(m, t) && t[0] == c && t[|t| - 1] == q;
      var t' := t + [r];
      forall i | 0 <= i < |t'| - 1
        ensures Climbs(m, t'[i], t'[i + 1])
      {
        if i < |t| - 1 {
          assert t'[i] == t[i] && t'[i + 1] == t[i + 1];
        }
      }
      assert Trail(m, t');
    }
  }

  // The trailheads

  /** The height-0 cells of row `y` before column `x`, left to right. */
  function ZerosInRow(m: TopographicMap, y: nat, x: nat): (r: seq<IVec2>)
    requires Valid(m) && y < m.rowCount && x <= m.colCount
    ensures forall p :: p in r <==> p.y == y && 0 <= p.x < x && Height(m, p) == 0
    ensures forall i, j :: 0 <= i < j < |r| ==> r[i].y == y && r[i].x < r[j].x
  {
    if x == 0 then []
    else ZerosInRow(m, y, x - 1) + if m.rows[y][x - 1] == 0 then [IVec2(x - 1, y)] else []
  }

  /** The height-0 cells of the rows before `y`, in reading order. */
  function ZerosAbove(m: TopographicMap, y: nat): (r: seq<IVec2>)
    requires Valid(m) && y <= m.rowCount
    ensures forall p :: p in r <==> 0 <= p.y < y && 0 <= p.x < m.colCount && Height(m, p) == 0
    ensures forall i, j :: 0 <= i < j < |r| ==> r[i].y < r[j].y || (r[i].y == r[j].y && r[i].x < r[j].x)
  {
    if y == 0 then []
    else
      var above, row := ZerosAbove(m, y - 1), ZerosInRow(m, y - 1, m.colCount);
      assert forall i :: 0 <= i < |above| ==> above[i] in above;
      ReadingOrdered(above, row, y - 1);
      above + row
  }

  lemma ReadingOrdered(above: seq<IVec2>, row: seq<IVec2>, y: int)
    requires forall i :: 0 <= i < |above| ==> above[i].y < y
    requires forall i, j :: 0 <= i < j < |above| ==> above[i].y < above[j].y || (above[i].y == above[j].y && above[i].x < above[j].x)
    requires forall i, j :: 0 <= i < j < |row| ==> row[i].y == y && row[i].x < row[j].x
    requires |row| > 0 ==> row[|row| - 1].y == y
    ensures var r := above + row;
      forall i, j :: 0 <= i < j < |r| ==> r[i].y < r[j].y || (r[i].y == r[j].y && r[i].x < r[j].x)
  {
    var r := above + row;
    forall i, j | 0 <= i < j < |r|
      ensures r[i].y < r[j].y || (r[i].y == r[j].y && r[i].x < r[j].x)
    {
      if j >= |above| && i < |above| {
        assert r[j] == row[j - |above|];
        if j - |above| < |row| - 1 {
          assert row[j - |above|].y == y;
        }
      }
    }
  }

  /** The initial `search_stack`: every height-0 cell, once, in reading
      order. */
  function Trailheads(m: TopographicMap): (r: seq<IVec2>)
    requires Valid(m)
    ensures forall p :: p in r <==> InBounds(m, p) && Height(m, p) == 0
    ensures forall i, j :: 0 <= i < j < |r| ==> r[i] != r[j]
  {
    ZerosAbove(m, m.rowCount)
  }

  // Part 1: the score

  /** The 9s a trail from `c` reaches. */
  ghost function Peaks(m: TopographicMap, c: IVec2): set<IVec2>
    requires Valid(m)
  {
    set p | p in Cells(m) && Height(m, p) == 9 && Reaches(m, c, p)
  }

  ghost function ScoreSum(m: TopographicMap, heads: seq<IVec2>): nat
    requires Valid(m)
  {
    if heads == [] then 0 else |Peaks(m, heads[0])| + ScoreSum(m, heads[1..])
  }

  /** The climbing neighbours of `p`. */
  function ClimbSet(m: TopographicMap, p: IVec2): (r: set<IVec2>)
    requires Valid(m)
    ensures forall q :: q in r <==> Climbs(m, p, q)
  {
    set q | q in Neighbours(p) && Climbs(m, p, q)
  }

  /** What the depth-first search from trailhead `c` has established: every
      visited cell is reached from `c`; the pending cells are the visited
      ones below 9 still on the stack; every climbing neighbour of `c` and
      of every other visited cell below 9 that is no longer pending is
      visited. */
  ghost predicate Explored(m: TopographicMap, c: IVec2, visited: set<IVec2>, work: seq<IVec2>)
    requires Valid(m)
  {
    && (forall p :: p in visited ==> InBounds(m, p) && Reaches(m, c, p) && Height(m, p) >= 1)
    && (forall i :: 0 <= i < |work| ==> work[i] in visited && Height(m, work[i]) < 9)
    && (forall r :: Climbs(m, c, r) ==> r in visited)
    && (forall q, r :: q in visited && Height(m, q) < 9 && q !in work && Climbs(m, q, r) ==> r in visited)
  }

  /** Once nothing from `c` is pending, the visited 9s are exactly the 9s a
      trail from `c` reaches. */
  lemma ExploredPeaks(m: TopographicMap, c: IVec2, visited: set<IVec2>)
    requires Valid(m) && InBounds(m, c) && Height(m, c) == 0 && Explored(m, c, visited, [])
    ensures (set p | p in visited && Height(m, p) == 9) == Peaks(m, c)
  {
    forall p | p in Peaks(m, c)
      ensures p in visited
    {
      var t :| Trail(m, t) && t[0] == c && t[|t| - 1] == p;
      TrailHeights(m, t, |t| - 1);
      OnTrail(m, c, visited, t, |t| - 1);
    }
    forall p | p in visited && Height(m, p) == 9
      ensures p in Peaks(m, c)
    {
      assert p in Cells(m);
    }
  }

  lemma {:induction false} OnTrail(m: TopographicMap, c: IVec2, visited: set<IVec2>, t: seq<IVec2>, i: nat)
    requires Valid(m) && Explored(m, c, visited, []) && Trail(m, t) && t[0] == c
    requires 1 <= i < |t|
    ensures t[i] in visited
    decreases i
  {
    if i > 1 {
      OnTrail(m, c, visited, t, i - 1);
      TrailHeights(m, t, i - 1);
      TrailHeights(m, t, |t| - 1);
      assert Climbs(m, t[i - 1], t[i]);
    } else {
      assert Climbs(m, t[0], t[1]);
    }
  }

  /** The search terminates: a pop at height `h` pushes at most four cells
      of height `h + 1`, so the sum of `5^(9 - height)` over the stack goes
      down. A cell off the map, which is never stacked, weighs nothing. */
  function Potential(m: TopographicMap, s: seq<IVec2>): nat
    requires Valid(m)
  {
    if s == [] then 0 else Potential(m, s[..|s| - 1]) + Weight(m, s[|s| - 1])
  }

  function Weight(m: TopographicMap, p: IVec2): nat
    requires Valid(m)
  {
    if InBounds(m, p) then Pow(5, 9 - Height(m, p)) else 0
  }

  lemma {:induction false} PotentialAppend(m: TopographicMap, s: seq<IVec2>, t: seq<IVec2>)
    requires Valid(m)
    ensures Potential(m, s + t) == Potential(m, s) + Potential(m, t)
    decreases |t|
  {
    if t == [] {
      assert s + t == s;
    } else {
      assert (s + t)[..|s + t| - 1] == s + t[..|t| - 1];
      PotentialAppend(m, s, t[..|t| - 1]);
    }
  }

  lemma {:induction false} PushedPotential(m: TopographicMap, pushed: seq<IVec2>, h: nat)
    requires Valid(m) && h < 9 && AtLevel(m, pushed, h + 1)
    ensures Potential(m, pushed) == |pushed| * Pow(5, 8 - h)
    decreases |pushed|
  {
    if pushed != [] {
      var init, last := pushed[..|pushed| - 1], pushed[|pushed| - 1];
      AtLevelSplit(m, pushed, h + 1);
      PushedPotential(m, init, h);
      var unit := Pow(5, 8 - h);
      assert Weight(m, last) == unit;
      MulSucc(|init|, unit);
    }
  }

  lemma AtLevelSplit(m: TopographicMap, s: seq<IVec2>, h: nat)
    requires Valid(m) && s != [] && AtLevel(m, s, h)
    ensures AtLevel(m, s[..|s| - 1], h) && InBounds(m, s[|s| - 1]) && Height(m, s[|s| - 1]) == h
  {
    assert forall i :: 0 <= i < |s| - 1 ==> s[..|s| - 1][i] == s[i];
  }

  lemma MulSucc(n: nat, d: nat)
    ensures n * d + d == (n + 1) * d
  {
  }

  /** The cells pushed for `pos`: climbing neighbours below 9. */
  predicate ClimbsFrom(m: TopographicMap, pos: IVec2, pushed: seq<IVec2>)
    requires Valid(m)
  {
    forall i :: 0 <= i < |pushed| ==> Climbs(m, pos, pushed[i]) && Height(m, pushed[i]) < 9
  }

  lemma PlacedAppend(m: TopographicMap, s: seq<IVec2>, t: seq<IVec2>)
    requires Placed(m, s) && Placed(m, t)
    ensures Placed(m, s + t)
  {
    assert forall i :: |s| <= i < |s + t| ==> (s + t)[i] == t[i - |s|];
  }

  /** A pass of either search's loop, popping `pos` off `rest + [pos]` and
      pushing at most four of its climbing neighbours: the stack stays
      pending and its potential drops. */
  lemma StackPending(m: TopographicMap, rest: seq<IVec2>, pos: IVec2, pushed: seq<IVec2>)
    requires Valid(m) && Pending(m, rest + [pos]) && ClimbsFrom(m, pos, pushed)
    ensures Placed(m, rest) && Placed(m, pushed) && InBounds(m, pos) && Height(m, pos) < 9
    ensures Pending(m, rest + pushed)
  {
    var before := rest + [pos];
    assert before[|rest|] == pos && before[..|rest|] == rest;
    assert forall i :: 0 <= i < |rest| ==> rest[i] == before[i];
    PlacedAppend(m, rest, pushed);
    var after := rest + pushed;
    assert forall i :: |rest| <= i < |after| ==> after[i] == pushed[i - |rest|];
  }

  lemma StackPotential(m: TopographicMap, rest: seq<IVec2>, pos: IVec2, pushed: seq<IVec2>)
    requires Valid(m) && InBounds(m, pos) && ClimbsFrom(m, pos, pushed) && |pushed| <= 4
    ensures Potential(m, rest + pushed) < Potential(m, rest + [pos])
  {
    PushedBound(m, pos, pushed);
    PotentialSnoc(m, rest, pos);
    PotentialAppend(m, rest, pushed);
  }

  lemma PotentialSnoc(m: TopographicMap, s: seq<IVec2>, p: IVec2)
    requires Valid(m)
    ensures Potential(m, s + [p]) == Potential(m, s) + Weight(m, p)
  {
    assert (s + [p])[..|s|] == s;
  }

  /** Every cell of `s` is on the map at height `h`. */
  predicate AtLevel(m: TopographicMap, s: seq<IVec2>, h: nat)
    requires Valid(m)
  {
    forall i :: 0 <= i < |s| ==> InBounds(m, s[i]) && Height(m, s[i]) == h
  }

  lemma ClimbsFromLevel(m: TopographicMap, pos: IVec2, pushed: seq<IVec2>)
    requires Valid(m) && InBounds(m, pos) && ClimbsFrom(m, pos, pushed)
    ensures AtLevel(m, pushed, Height(m, pos) + 1)
  {
  }

  /** The ratings of the stack split the same way. */
  lemma StackRatings(m: TopographicMap, rest: seq<IVec2>, pos: IVec2, pushed: seq<IVec2>)
    requires Valid(m) && InBounds(m, pos)
    ensures RatingSum(m, rest + [pos]) == RatingSum(m, rest) + Rating(m, pos)
    ensures RatingSum(m, rest + pushed) == RatingSum(m, rest) + RatingSum(m, pushed)
  {
    RatingSumOne(m, pos);
    RatingSumAppend(m, rest, [pos]);
    RatingSumAppend(m, rest, pushed);
  }

  /** At most four cells one higher than `pos` weigh less than `pos`. */
  lemma PushedBound(m: TopographicMap, pos: IVec2, pushed: seq<IVec2>)
    requires Valid(m) && InBounds(m, pos) && ClimbsFrom(m, pos, pushed) && |pushed| <= 4
    ensures Potential(m, pushed) < Weight(m, pos)
  {
    if pushed == [] {
      assert Weight(m, pos) >= 1;
    } else {
      var h := Height(m, pos);
      ClimbsFromLevel(m, pos, pushed);
      AtLevelSplit(m, pushed, h + 1);
      LevelBound(m, pushed, h);
      assert Weight(m, pos) == Pow(5, 9 - h);
    }
  }

  lemma LevelBound(m: TopographicMap, pushed: seq<IVec2>, h: nat)
    requires Valid(m) && h < 9 && AtLevel(m, pushed, h + 1) && |pushed| <= 4
    ensures Potential(m, pushed) < Pow(5, 9 - h)
  {
    PushedPotential(m, pushed, h);
    var unit := Pow(5, 8 - h);
    assert Pow(5, 9 - h) == 5 * unit;
    MulMonotone(|pushed|, 4, unit);
  }

  /** Part 1's `for direction in Direction::ALL`: every climbing neighbour of
      `pos` becomes visited, and those not visited before and below 9 are
      pushed, in the order of `ALL`. */
  method Look(m: TopographicMap, pos: IVec2, visited: set<IVec2>, stack: seq<IVec2>)
    returns (visited': set<IVec2>, stack': seq<IVec2>)
    requires Valid(m) && InBounds(m, pos)
    ensures Looked(m, pos, visited, stack, visited', stack')
  {
    visited' := visited;
    stack' := stack;
    ghost var pushed: seq<IVec2> := [];
    for k := 0 to 4
      invariant LookedUpTo(m, pos, k, visited, stack, visited', stack', pushed)
    {
      visited', stack', pushed := LookNeighbour(m, pos, k, visited, stack, visited', stack', pushed);
    }
    LookedAll(m, pos, visited, stack, visited', stack', pushed);
  }

  /** `Look`'s loop invariant: the first `k` neighbours have been looked at. */
  ghost predicate LookedUpTo(m: TopographicMap, pos: IVec2, k: nat, visited: set<IVec2>, stack: seq<IVec2>,
                             visited': set<IVec2>, stack': seq<IVec2>, pushed: seq<IVec2>)
    requires Valid(m) && k <= 4
  {
    var nbs := Neighbours(pos);
    && visited' == visited + ClimbsAmong(m, pos, k)
    && stack' == stack + pushed && |pushed| <= k
    && (forall i :: 0 <= i < |pushed| ==> Climbs(m, pos, pushed[i]) && pushed[i] !in visited && Height(m, pushed[i]) < 9)
    && (forall j :: 0 <= j < k && Climbs(m, pos, nbs[j]) && nbs[j] !in visited && Height(m, nbs[j]) < 9 ==> nbs[j] in pushed)
    && (forall j :: k <= j < 4 ==> nbs[j] in visited' ==> nbs[j] in visited)
  }

  /** One direction of Part 1's `for direction in Direction::ALL`. */
  method LookNeighbour(m: TopographicMap, pos: IVec2, k: nat, ghost visited: set<IVec2>, ghost stack: seq<IVec2>,
                       visited': set<IVec2>, stack': seq<IVec2>, ghost pushed: seq<IVec2>)
    returns (visited'': set<IVec2>, stack'': seq<IVec2>, ghost pushed': seq<IVec2>)
    requires Valid(m) && InBounds(m, pos) && k < 4 && LookedUpTo(m, pos, k, visited, stack, visited', stack', pushed)
    ensures LookedUpTo(m, pos, k + 1, visited, stack, visited'', stack'', pushed')
  {
    visited'', stack'', pushed' := visited', stack', pushed;
    var neighbour := pos.Add(Xy(ALL[k]));
    assert neighbour == Neighbours(pos)[k];
    if !InBounds(m, neighbour) || neighbour in visited' {
      return;
    }
    if Height(m, neighbour) == Height(m, pos) + 1 {
      if Height(m, neighbour) < 9 {
        stack'' := stack' + [neighbour];
        pushed' := pushed + [neighbour];
      }
      visited'' := visited' + {neighbour};
    }
  }

  lemma LookedAll(m: TopographicMap, pos: IVec2, visited: set<IVec2>, stack: seq<IVec2>,
                  visited': set<IVec2>, stack': seq<IVec2>, pushed: seq<IVec2>)
    requires Valid(m) && InBounds(m, pos) && LookedUpTo(m, pos, 4, visited, stack, visited', stack', pushed)
    ensures Looked(m, pos, visited, stack, visited', stack')
  {
    var nbs := Neighbours(pos);
    assert stack'[|stack|..] == pushed;
    assert forall q :: q in pushed ==> q !in visited;
    assert forall q :: Climbs(m, pos, q) ==> exists j :: 0 <= j < 4 && q == nbs[j];
    assert ClimbsAmong(m, pos, 4) == ClimbSet(m, pos);
  }

  /** The climbing cells among the first `k` neighbours of `p`. */
  ghost function ClimbsAmong(m: TopographicMap, p: IVec2, k: nat): (r: set<IVec2>)
    requires Valid(m) && k <= 4
    ensures forall q :: q in r ==> Climbs(m, p, q)
    ensures forall j :: 0 <= j < k && Climbs(m, p, Neighbours(p)[j]) ==> Neighbours(p)[j] in r
    ensures forall j :: k <= j < 4 ==> Neighbours(p)[j] !in r
  {
    if k == 0 then {}
    else
      var q := Neighbours(p)[k - 1];
      ClimbsAmong(m, p, k - 1) + (if Climbs(m, p, q) then {q} else {})
  }

  /** `visited_positions.drain()`, counting the 9s, in whatever order the
      set yields them. */
  method DrainPeaks(m: TopographicMap, visited: set<IVec2>) returns (count: nat)
    requires Valid(m) && forall p :: p in visited ==> InBounds(m, p)
    ensures count == |Nines(m, visited)|
  {
    count := 0;
    var rest := visited;
    while rest != {}
      invariant rest <= visited
      invariant count + |set p | p in rest && Height(m, p) == 9| == |set p | p in visited && Height(m, p) == 9|
      decreases |rest|
    {
      var p :| p in rest;
      var nines := set q | q in rest && Height(m, q) == 9;
      if Height(m, p) == 9 {
        count := count + 1;
        assert (set q | q in rest - {p} && Height(m, q) == 9) == nines - {p};
      } else {
        assert (set q | q in rest - {p} && Height(m, q) == 9) == nines;
      }
      rest := rest - {p};
    }
  }

  /** `part1`. */
  method Part1(input: string) returns (r: Result<nat, string>)
    ensures r.Ok? <==> FromLines(Lines(input)).Ok?
    ensures r.Err? ==> r.error == FromLines(Lines(input)).error
    ensures r.Ok? ==> var m := FromLines(Lines(input)).value; r.value == ScoreSum(m, Trailheads(m))
  {
    var parsed := FromLines(Lines(input));
    if parsed.Err? {
      return Err(parsed.error);
    }
    var m := parsed.value;
    var score := Score(m);
    r := Ok(score);
  }

  lemma TrailheadsPending(m: TopographicMap)
    requires Valid(m)
    ensures Pending(m, Trailheads(m))
  {
    var heads := Trailheads(m);
    assert forall i :: 0 <= i < |heads| ==> heads[i] in heads;
  }

  /** The visited 9s. */
  function Nines(m: TopographicMap, visited: set<IVec2>): set<IVec2>
    requires Valid(m) && forall p :: p in visited ==> InBounds(m, p)
  {
    set p | p in visited && Height(m, p) == 9
  }

  /** Part 1's search under way from the trailhead `heads[k]`: the later
      trailheads are summed, and the search from this one is explored. */
  ghost predicate Searching(m: TopographicMap, heads: seq<IVec2>, k: nat, visited: set<IVec2>, work: seq<IVec2>, sum: nat)
    requires Valid(m)
  {
    k < |heads| && sum == ScoreSum(m, heads[k + 1..]) && Explored(m, heads[k], visited, work)
  }

  /** A height-0 cell comes off the stack only once nothing is pending: it is
      the next trailhead. */
  lemma NextTrailhead(m: TopographicMap, heads: seq<IVec2>, k: nat, work: seq<IVec2>, pos: IVec2)
    requires Valid(m) && k <= |heads| && Placed(m, work) && forall i :: 0 <= i < |work| ==> Height(m, work[i]) >= 1
    requires heads[..k] + work != [] && pos == (heads[..k] + work)[|heads[..k] + work| - 1]
    requires InBounds(m, pos) && Height(m, pos) == 0
    ensures work == [] && k >= 1 && pos == heads[k - 1]
    ensures (heads[..k] + work)[..|heads[..k] + work| - 1] == heads[..k - 1]
  {
    LastOfConcat(heads[..k], work);
  }

  lemma LastOfConcat<T>(a: seq<T>, b: seq<T>)
    ensures b != [] ==> (a + b)[|a + b| - 1] == b[|b| - 1]
  {
  }

  /** Any other cell comes off the pending part of the stack. */
  lemma PendingTop(heads: seq<IVec2>, k: nat, work: seq<IVec2>, pos: IVec2)
    requires k <= |heads| && work != [] && pos == (heads[..k] + work)[|heads[..k] + work| - 1]
    ensures pos == work[|work| - 1]
    ensures (heads[..k] + work)[..|heads[..k] + work| - 1] == heads[..k] + work[..|work| - 1]
    ensures work == work[..|work| - 1] + [pos]
  {
  }

  /** When the search from `heads[k]` is over, its drained 9s complete the
      sum from `heads[k]` on. */
  lemma Finished(m: TopographicMap, heads: seq<IVec2>, k: nat, visited: set<IVec2>, sum: nat)
    requires Valid(m) && Searching(m, heads, k, visited, [], sum)
    requires InBounds(m, heads[k]) && Height(m, heads[k]) == 0
    ensures sum + |Nines(m, visited)| == ScoreSum(m, heads[k..])
  {
    ExploredPeaks(m, heads[k], visited);
    assert heads[k..] == [heads[k]] + heads[k + 1..];
  }

  /** Part 1's loop invariant: the stack is the trailheads not yet started
      below the pending cells of the current search, and before the first
      trailhead comes off nothing has been counted. */
  ghost predicate Scoring(m: TopographicMap, heads: seq<IVec2>, k: nat, stack: seq<IVec2>, work: seq<IVec2>,
                          visited: set<IVec2>, sum: nat, started: bool)
    requires Valid(m)
  {
    && heads == Trailheads(m)
    && k <= |heads| && stack == heads[..k] + work
    && Pending(m, stack) && Placed(m, work) && (forall i :: 0 <= i < |work| ==> Height(m, work[i]) >= 1)
    && (!started ==> k == |heads| && work == [] && visited == {} && sum == 0)
    && (started ==> Searching(m, heads, k, visited, work, sum))
  }

  /** Part 1's search: one stack holding the trailheads not yet started below
      the cells pending for the current one, and one visited set, drained
      into the sum each time the next trailhead comes up and at the end. */
  method Score(m: TopographicMap) returns (sum: nat)
    requires Valid(m)
    ensures sum == ScoreSum(m, Trailheads(m))
  {
    var heads := Trailheads(m);
    TrailheadsPending(m);
    var stack := heads;
    var visited: set<IVec2> := {};
    sum := 0;
    ghost var k: nat := |heads|;
    ghost var work: seq<IVec2> := [];
    ghost var started := false;
    while stack != []
      invariant Scoring(m, heads, k, stack, work, visited, sum, started)
      decreases Potential(m, stack)
    {
      stack, visited, sum, k, work := ScoreStep(m, heads, k, stack, work, visited, sum, started);
      started := true;
    }
    if started {
      Finished(m, heads, k, visited, sum);
      assert k == 0;
    }
    var drained := DrainPeaks(m, visited);
    sum := sum + drained;
  }

  /** One turn of Part 1's loop: pop a cell, drain the 9s if it is the next
      trailhead, and expand it. */
  method ScoreStep(m: TopographicMap, ghost heads: seq<IVec2>, ghost k: nat, stack: seq<IVec2>, ghost work: seq<IVec2>,
                   visited: set<IVec2>, sum: nat, ghost started: bool)
    returns (stack': seq<IVec2>, visited': set<IVec2>, sum': nat, ghost k': nat, ghost work': seq<IVec2>)
    requires Valid(m) && stack != [] && Scoring(m, heads, k, stack, work, visited, sum, started)
    ensures Scoring(m, heads, k', stack', work', visited', sum', true)
    ensures Potential(m, stack') < Potential(m, stack)
  {
    var pos := stack[|stack| - 1];
    assert InBounds(m, pos);
    visited', sum', k', work' := visited, sum, k, work;
    if Height(m, pos) == 0 {
      visited', sum' := NextSearch(m, heads, k, stack, work, visited, sum, started);
      k', work' := k - 1, [];
    } else {
      work' := PendingPopped(m, heads, k, stack, work, visited, sum, started);
    }
    stack', visited', work' := Expand(m, heads, k', stack, work', visited', sum');
  }

  /** The state just after popping `pos` in Part 1's loop: what `Expand`
      needs. */
  ghost predicate Popped(m: TopographicMap, heads: seq<IVec2>, k: nat, pos: IVec2, rest: seq<IVec2>,
                         work: seq<IVec2>, visited: set<IVec2>, sum: nat)
    requires Valid(m)
  {
    && heads == Trailheads(m) && k < |heads| && sum == ScoreSum(m, heads[k + 1..])
    && rest == heads[..k] + work && Pending(m, rest + [pos])
    && Placed(m, work) && (forall i :: 0 <= i < |work| ==> Height(m, work[i]) >= 1)
    && ((pos == heads[k] && visited == {} && work == []) || Explored(m, heads[k], visited, work + [pos]))
  }

  /** A popped trailhead: the 9s of the search before it are drained into
      the sum and the search from it starts. */
  method NextSearch(m: TopographicMap, ghost heads: seq<IVec2>, ghost k: nat, stack: seq<IVec2>,
                    ghost work: seq<IVec2>, visited: set<IVec2>, sum: nat, ghost started: bool)
    returns (visited': set<IVec2>, sum': nat)
    requires Valid(m) && stack != [] && Scoring(m, heads, k, stack, work, visited, sum, started)
    requires InBounds(m, stack[|stack| - 1]) && Height(m, stack[|stack| - 1]) == 0
    ensures k >= 1 && Popped(m, heads, k - 1, stack[|stack| - 1], stack[..|stack| - 1], [], visited', sum')
  {
    Pop(stack);
    NextTrailhead(m, heads, k, work, stack[|stack| - 1]);
    var drained := DrainPeaks(m, visited);
    Restart(m, heads, k, visited, sum, started);
    sum' := sum + drained;
    visited' := {};
    RestEmpty(heads[..k - 1]);
  }

  /** A popped pending cell: it was the top of the current search's work. */
  lemma PendingPopped(m: TopographicMap, heads: seq<IVec2>, k: nat, stack: seq<IVec2>,
                      work: seq<IVec2>, visited: set<IVec2>, sum: nat, started: bool)
    returns (work': seq<IVec2>)
    requires Valid(m) && stack != [] && Scoring(m, heads, k, stack, work, visited, sum, started)
    requires InBounds(m, stack[|stack| - 1]) && Height(m, stack[|stack| - 1]) != 0
    ensures Popped(m, heads, k, stack[|stack| - 1], stack[..|stack| - 1], work', visited, sum)
  {
    Pop(stack);
    PendingTop(heads, k, work, stack[|stack| - 1]);
    work' := work[..|work| - 1];
  }

  /** The second half of a turn of Part 1's loop: expanding the popped cell
      restores the invariant, with a smaller potential. */
  method Expand(m: TopographicMap, ghost heads: seq<IVec2>, ghost k: nat, stack: seq<IVec2>,
                ghost work: seq<IVec2>, visited: set<IVec2>, sum: nat)
    returns (stack': seq<IVec2>, visited': set<IVec2>, ghost work': seq<IVec2>)
    requires Valid(m) && stack != [] && Popped(m, heads, k, stack[|stack| - 1], stack[..|stack| - 1], work, visited, sum)
    ensures Scoring(m, heads, k, stack', work', visited', sum, true)
    ensures Potential(m, stack') < Potential(m, stack)
  {
    var pos, rest := stack[|stack| - 1], stack[..|stack| - 1];
    Pop(stack);
    assert stack[|rest|] == pos;
    visited', stack' := Look(m, pos, visited, rest);
    ExpandedPotential(m, pos, rest, stack');
    ExpandedScoring(m, heads, k, pos, rest, work, visited, sum, visited', stack');
    work' := work + stack'[|rest|..];
  }

  /** What `Look` promises, as one fact. */
  ghost predicate Looked(m: TopographicMap, pos: IVec2, visited: set<IVec2>, stack: seq<IVec2>,
                         visited': set<IVec2>, stack': seq<IVec2>)
    requires Valid(m) && InBounds(m, pos)
  {
    && visited' == visited + ClimbSet(m, pos)
    && |stack| <= |stack'| <= |stack| + 4 && stack'[..|stack|] == stack
    && ClimbsFrom(m, pos, stack'[|stack|..])
    && (forall q :: q in stack'[|stack|..] ==> q !in visited)
    && (forall q :: Climbs(m, pos, q) && q !in visited && Height(m, q) < 9 ==> q in stack'[|stack|..])
  }

  lemma ExpandedPotential(m: TopographicMap, pos: IVec2, rest: seq<IVec2>, stack': seq<IVec2>)
    requires Valid(m) && Pending(m, rest + [pos])
    requires |rest| <= |stack'| <= |rest| + 4 && stack'[..|rest|] == rest
    requires InBounds(m, pos) && ClimbsFrom(m, pos, stack'[|rest|..])
    ensures Pending(m, stack') && Potential(m, stack') < Potential(m, rest + [pos])
  {
    var pushed := stack'[|rest|..];
    assert stack' == rest + pushed;
    StackPending(m, rest, pos, pushed);
    StackPotential(m, rest, pos, pushed);
  }

  lemma ExpandedScoring(m: TopographicMap, heads: seq<IVec2>, k: nat, pos: IVec2, rest: seq<IVec2>,
                        work: seq<IVec2>, visited: set<IVec2>, sum: nat, visited': set<IVec2>, stack': seq<IVec2>)
    requires Valid(m) && heads == Trailheads(m) && k < |heads| && sum == ScoreSum(m, heads[k + 1..])
    requires rest == heads[..k] + work && Pending(m, rest + [pos])
    requires Placed(m, work) && forall i :: 0 <= i < |work| ==> Height(m, work[i]) >= 1
    requires (pos == heads[k] && visited == {} && work == []) || Explored(m, heads[k], visited, work + [pos])
    requires InBounds(m, pos) && Looked(m, pos, visited, rest, visited', stack')
    ensures Scoring(m, heads, k, stack', work + stack'[|rest|..], visited', sum, true)
  {
    ExpandedStack(m, heads, k, pos, rest, work, stack');
    Resumed(m, heads, k, pos, visited, work, visited', stack'[|rest|..], sum);
  }

  lemma ExpandedStack(m: TopographicMap, heads: seq<IVec2>, k: nat, pos: IVec2, rest: seq<IVec2>,
                      work: seq<IVec2>, stack': seq<IVec2>)
    requires Valid(m) && k <= |heads| && rest == heads[..k] + work && Pending(m, rest + [pos])
    requires Placed(m, work) && forall i :: 0 <= i < |work| ==> Height(m, work[i]) >= 1
    requires InBounds(m, pos) && |rest| <= |stack'| <= |rest| + 4 && stack'[..|rest|] == rest
    requires ClimbsFrom(m, pos, stack'[|rest|..])
    ensures stack' == heads[..k] + (work + stack'[|rest|..]) && Pending(m, stack')
    ensures Placed(m, work + stack'[|rest|..])
    ensures forall i :: 0 <= i < |work + stack'[|rest|..]| ==> Height(m, (work + stack'[|rest|..])[i]) >= 1
  {
    var pushed := stack'[|rest|..];
    Rejoin(stack', rest, heads[..k], work);
    StackPending(m, rest, pos, pushed);
    PlacedAppend(m, work, pushed);
    var work' := work + pushed;
    forall i | 0 <= i < |work'|
      ensures Height(m, work'[i]) >= 1
    {
      if i >= |work| {
        assert work'[i] == pushed[i - |work|];
      }
    }
  }

  /** The 9s drained when the next trailhead comes up complete the sum from
      the trailhead just finished on, if there was one. */
  lemma Restart(m: TopographicMap, heads: seq<IVec2>, k: nat, visited: set<IVec2>, sum: nat, started: bool)
    requires Valid(m) && heads == Trailheads(m) && 1 <= k <= |heads|
    requires !started ==> k == |heads| && visited == {} && sum == 0
    requires started ==> Searching(m, heads, k, visited, [], sum)
    requires forall p :: p in visited ==> InBounds(m, p)
    ensures sum + |Nines(m, visited)| == ScoreSum(m, heads[k..])
  {
    if started {
      assert InBounds(m, heads[k]) && Height(m, heads[k]) == 0 by {
        assert heads[k] in heads;
      }
      Finished(m, heads, k, visited, sum);
    } else {
      assert Nines(m, visited) == {};
    }
  }

  /** After expanding `pos`, the search from `heads[k]` is still under way. */
  lemma Resumed(m: TopographicMap, heads: seq<IVec2>, k: nat, pos: IVec2, visited: set<IVec2>, work: seq<IVec2>,
                visited': set<IVec2>, pushed: seq<IVec2>, sum: nat)
    requires Valid(m) && InBounds(m, pos) && k < |heads| && sum == ScoreSum(m, heads[k + 1..])
    requires (pos == heads[k] && visited == {} && work == []) || Explored(m, heads[k], visited, work + [pos])
    requires visited' == visited + ClimbSet(m, pos)
    requires ClimbsFrom(m, pos, pushed)
    requires forall q :: Climbs(m, pos, q) && q !in visited && Height(m, q) < 9 ==> q in pushed
    ensures Searching(m, heads, k, visited', work + pushed, sum)
  {
    LookExplores(m, heads[k], pos, visited, work, visited', pushed);
  }

  lemma Pop<T>(s: seq<T>)
    requires s != []
    ensures s == s[..|s| - 1] + [s[|s| - 1]]
  {
  }

  lemma RestEmpty<T>(s: seq<T>)
    ensures s == s + []
  {
  }

  /** A stack that kept `rest` as its prefix is `rest` then what was pushed. */
  lemma Rejoin<T>(stack: seq<T>, rest: seq<T>, below: seq<T>, work: seq<T>)
    requires |rest| <= |stack| && stack[..|rest|] == rest && rest == below + work
    ensures stack == rest + stack[|rest|..]
    ensures stack == below + (work + stack[|rest|..])
  {
  }

  /** Expanding `pos` keeps the search from `c` explored, `pos` being either
      `c` itself, just started, or the top pending cell. */
  lemma LookExplores(m: TopographicMap, c: IVec2, pos: IVec2, visited: set<IVec2>, work: seq<IVec2>,
                     visited': set<IVec2>, pushed: seq<IVec2>)
    requires Valid(m) && InBounds(m, pos)
    requires (pos == c && visited == {} && work == []) || Explored(m, c, visited, work + [pos])
    requires visited' == visited + ClimbSet(m, pos)
    requires ClimbsFrom(m, pos, pushed)
    requires forall q :: Climbs(m, pos, q) && q !in visited && Height(m, q) < 9 ==> q in pushed
    ensures Explored(m, c, visited', work + pushed)
  {
    LookReaches(m, c, pos, visited, work, visited');
    LookPending(m, c, pos, visited, work, visited', pushed);
    LookCloses(m, c, pos, visited, work, visited', pushed);
  }

  lemma LookReaches(m: TopographicMap, c: IVec2, pos: IVec2, visited: set<IVec2>, work: seq<IVec2>, visited': set<IVec2>)
    requires Valid(m) && InBounds(m, pos)
    requires (pos == c && visited == {}) || Explored(m, c, visited, work + [pos])
    requires visited' == visited + ClimbSet(m, pos)
    ensures forall p :: p in visited' ==> InBounds(m, p) && Reaches(m, c, p) && Height(m, p) >= 1
  {
    forall p | p in visited'
      ensures InBounds(m, p) && Reaches(m, c, p) && Height(m, p) >= 1
    {
      if p !in visited {
        if pos != c {
          assert (work + [pos])[|work|] == pos;
        }
        ReachesStep(m, c, pos, p);
      }
    }
  }

  lemma LookPending(m: TopographicMap, c: IVec2, pos: IVec2, visited: set<IVec2>, work: seq<IVec2>,
                    visited': set<IVec2>, pushed: seq<IVec2>)
    requires Valid(m) && InBounds(m, pos)
    requires work == [] || Explored(m, c, visited, work + [pos])
    requires visited' == visited + ClimbSet(m, pos)
    requires ClimbsFrom(m, pos, pushed)
    ensures forall i :: 0 <= i < |work + pushed| ==>
      (work + pushed)[i] in visited' && InBounds(m, (work + pushed)[i]) && Height(m, (work + pushed)[i]) < 9
  {
    var work' := work + pushed;
    forall i | 0 <= i < |work'|
      ensures work'[i] in visited' && InBounds(m, work'[i]) && Height(m, work'[i]) < 9
    {
      if i >= |work| {
        assert work'[i] == pushed[i - |work|];
      } else {
        assert work'[i] == (work + [pos])[i];
      }
    }
  }

  lemma LookCloses(m: TopographicMap, c: IVec2, pos: IVec2, visited: set<IVec2>, work: seq<IVec2>,
                   visited': set<IVec2>, pushed: seq<IVec2>)
    requires Valid(m) && InBounds(m, pos)
    requires (pos == c && visited == {}) || Explored(m, c, visited, work + [pos])
    requires visited' == visited + ClimbSet(m, pos)
    requires forall q :: Climbs(m, pos, q) && q !in visited && Height(m, q) < 9 ==> q in pushed
    ensures forall r :: Climbs(m, c, r) ==> r in visited'
    ensures forall q, r :: q in visited' && Height(m, q) < 9 && q !in work + pushed && Climbs(m, q, r) ==> r in visited'
  {
    forall q, r | q in visited' && Height(m, q) < 9 && q !in work + pushed && Climbs(m, q, r)
      ensures r in visited'
    {
      if q != pos && q in visited {
        assert q !in work + [pos];
      }
    }
  }

  // Part 2: the rating

  /** The number of trails from `p` to a 9: one from a 9, otherwise the sum
      over the directions of `ALL` of the trails through each climbing
      neighbour. */
  ghost function Rating(m: TopographicMap, p: IVec2): nat
    requires Valid(m) && InBounds(m, p)
    decreases 10 - Height(m, p), 1
  {
    if Height(m, p) == 9 then 1
    else Via(m, p, East) + Via(m, p, North) + Via(m, p, South) + Via(m, p, West)
  }

  ghost function Via(m: TopographicMap, p: IVec2, d: Direction): nat
    requires Valid(m) && InBounds(m, p)
    decreases 10 - Height(m, p), 0
  {
    var q := p.Add(Xy(d));
    if Climbs(m, p, q) then Rating(m, q) else 0
  }

  /** The ratings of the cells of `s`; a cell off the map, which is never
      stacked, counts nothing. */
  ghost function RatingSum(m: TopographicMap, s: seq<IVec2>): nat
    requires Valid(m)
  {
    if s == [] then 0
    else RatingSum(m, s[..|s| - 1]) + (if InBounds(m, s[|s| - 1]) then Rating(m, s[|s| - 1]) else 0)
  }

  lemma {:induction false} RatingSumAppend(m: TopographicMap, s: seq<IVec2>, t: seq<IVec2>)
    requires Valid(m)
    ensures RatingSum(m, s + t) == RatingSum(m, s) + RatingSum(m, t)
    decreases |t|
  {
    if t == [] {
      assert s + t == s;
    } else {
      assert (s + t)[..|s + t| - 1] == s + t[..|t| - 1];
      RatingSumAppend(m, s, t[..|t| - 1]);
    }
  }

  lemma RatingSumOne(m: TopographicMap, p: IVec2)
    requires Valid(m) && InBounds(m, p)
    ensures RatingSum(m, [p]) == Rating(m, p)
  {
    assert [p][..0] == [];
  }

  /** Part 2's `for direction in Direction::ALL`: a climbing neighbour below
      9 is pushed and a climbing 9 counted, so what is counted now plus what
      the pushed cells will count is the rating of `pos`. */
  method LookRating(m: TopographicMap, pos: IVec2, stack: seq<IVec2>) returns (stack': seq<IVec2>, found: nat)
    requires Valid(m) && InBounds(m, pos) && Height(m, pos) < 9
    ensures |stack| <= |stack'| <= |stack| + 4 && stack'[..|stack|] == stack
    ensures ClimbsFrom(m, pos, stack'[|stack|..])
    ensures found + RatingSum(m, stack'[|stack|..]) == Rating(m, pos)
  {
    stack' := stack;
    found := 0;
    ghost var pushed: seq<IVec2> := [];
    for k := 0 to 4
      invariant RatedUpTo(m, pos, k, stack, stack', pushed, found)
    {
      stack', pushed, found := RateNeighbour(m, pos, k, stack, stack', pushed, found);
    }
    assert stack'[|stack|..] == pushed;
    ViaSumRating(m, pos);
  }

  /** `LookRating`'s loop invariant: the cells pushed so far climb from
      `pos`, and with the 9s found they account for the first `k` terms of
      its rating. */
  ghost predicate RatedUpTo(m: TopographicMap, pos: IVec2, k: nat, stack: seq<IVec2>, stack': seq<IVec2>,
                            pushed: seq<IVec2>, found: nat)
    requires Valid(m) && InBounds(m, pos) && k <= 4
  {
    stack' == stack + pushed && |pushed| <= k && ClimbsFrom(m, pos, pushed)
    && found + RatingSum(m, pushed) == ViaSum(m, pos, k)
  }

  /** One direction of Part 2's `for direction in Direction::ALL`. */
  method RateNeighbour(m: TopographicMap, pos: IVec2, k: nat, ghost stack: seq<IVec2>, stack': seq<IVec2>,
                       ghost pushed: seq<IVec2>, found: nat)
    returns (stack'': seq<IVec2>, ghost pushed': seq<IVec2>, found': nat)
    requires Valid(m) && InBounds(m, pos) && k < 4 && RatedUpTo(m, pos, k, stack, stack', pushed, found)
    ensures RatedUpTo(m, pos, k + 1, stack, stack'', pushed', found')
  {
    stack'', pushed', found' := stack', pushed, found;
    var neighbour := pos.Add(Xy(ALL[k]));
    ViaStep(m, pos, k);
    if !InBounds(m, neighbour) {
      return;
    }
    if Height(m, neighbour) == Height(m, pos) + 1 {
      if Height(m, neighbour) < 9 {
        ClimbsFromSnoc(m, pos, pushed, neighbour);
        RatingSumAppend(m, pushed, [neighbour]);
        RatingSumOne(m, neighbour);
        stack'' := stack' + [neighbour];
        pushed' := pushed + [neighbour];
      } else {
        found' := found + 1;
      }
    }
  }

  lemma ClimbsFromSnoc(m: TopographicMap, pos: IVec2, pushed: seq<IVec2>, q: IVec2)
    requires Valid(m) && ClimbsFrom(m, pos, pushed) && Climbs(m, pos, q) && Height(m, q) < 9
    ensures ClimbsFrom(m, pos, pushed + [q])
  {
    assert forall i :: 0 <= i < |pushed| ==> (pushed + [q])[i] == pushed[i];
  }

  /** The next term of `Rating`'s sum, in the terms `LookRating` tests. */
  lemma ViaStep(m: TopographicMap, p: IVec2, k: nat)
    requires Valid(m) && InBounds(m, p) && k < 4
    ensures var q := p.Add(Xy(ALL[k]));
      ViaSum(m, p, k + 1) == ViaSum(m, p, k)
        + (if InBounds(m, q) && Height(m, q) == Height(m, p) + 1 then Rating(m, q) else 0)
    ensures var q := p.Add(Xy(ALL[k])); InBounds(m, q) && Height(m, q) == 9 ==> Rating(m, q) == 1
    ensures var q := p.Add(Xy(ALL[k])); InBounds(m, q) && Height(m, q) == Height(m, p) + 1 ==> Climbs(m, p, q)
  {
    assert p.Add(Xy(ALL[k])) == Neighbours(p)[k];
  }

  lemma ViaSumRating(m: TopographicMap, p: IVec2)
    requires Valid(m) && InBounds(m, p) && Height(m, p) < 9
    ensures ViaSum(m, p, 4) == Rating(m, p)
  {
    assert ViaSum(m, p, 1) == Via(m, p, East);
    assert ViaSum(m, p, 2) == Via(m, p, East) + Via(m, p, North);
    assert ViaSum(m, p, 3) == Via(m, p, East) + Via(m, p, North) + Via(m, p, South);
  }

  /** The first `k` terms of `Rating`'s sum. */
  ghost function ViaSum(m: TopographicMap, p: IVec2, k: nat): nat
    requires Valid(m) && InBounds(m, p) && k <= 4
  {
    if k == 0 then 0 else ViaSum(m, p, k - 1) + Via(m, p, ALL[k - 1])
  }

  /** Part 2's search: every stack entry stands for the trails through it, so
      what has been counted plus the ratings of the stack entries stays the
      sum of the trailheads' ratings. */
  method Rate(m: TopographicMap) returns (sum: nat)
    requires Valid(m)
    ensures sum == RatingSum(m, Trailheads(m))
  {
    var heads := Trailheads(m);
    TrailheadsPending(m);
    var stack := heads;
    sum := 0;
    while stack != []
      invariant Pending(m, stack)
      invariant sum + RatingSum(m, stack) == RatingSum(m, heads)
      decreases Potential(m, stack)
    {
      var pos := stack[|stack| - 1];
      ghost var rest := stack[..|stack| - 1];
      Pop(stack);
      stack := stack[..|stack| - 1];
      var found;
      stack, found := LookRating(m, pos, stack);
      RateStep(m, heads, rest, pos, stack, found, sum);
      sum := sum + found;
    }
  }

  /** A pass of Part 2's loop keeps its invariant and lowers the potential. */
  lemma RateStep(m: TopographicMap, heads: seq<IVec2>, rest: seq<IVec2>, pos: IVec2, stack': seq<IVec2>,
                 found: nat, sum: nat)
    requires Valid(m) && Pending(m, rest + [pos])
    requires sum + RatingSum(m, rest + [pos]) == RatingSum(m, heads)
    requires |rest| <= |stack'| <= |rest| + 4 && stack'[..|rest|] == rest
    requires InBounds(m, pos) && ClimbsFrom(m, pos, stack'[|rest|..])
    requires found + RatingSum(m, stack'[|rest|..]) == Rating(m, pos)
    ensures Pending(m, stack') && sum + found + RatingSum(m, stack') == RatingSum(m, heads)
    ensures Potential(m, stack') < Potential(m, rest + [pos])
  {
    ExpandedPotential(m, pos, rest, stack');
    RateSum(m, heads, rest, pos, stack', found, sum);
  }

  lemma RateSum(m: TopographicMap, heads: seq<IVec2>, rest: seq<IVec2>, pos: IVec2, stack': seq<IVec2>,
                found: nat, sum: nat)
    requires Valid(m) && InBounds(m, pos)
    requires sum + RatingSum(m, rest + [pos]) == RatingSum(m, heads)
    requires |rest| <= |stack'| && stack'[..|rest|] == rest
    requires found + RatingSum(m, stack'[|rest|..]) == Rating(m, pos)
    ensures sum + found + RatingSum(m, stack') == RatingSum(m, heads)
  {
    var pushed := stack'[|rest|..];
    assert stack' == rest + pushed;
    StackRatings(m, rest, pos, pushed);
  }

  /** `part2`. */
  method Part2(input: string) returns (r: Result<nat, string>)
    ensures r.Ok? <==> FromLines(Lines(input)).Ok?
    ensures r.Err? ==> r.error == FromLines(Lines(input)).error
    ensures r.Ok? ==> var m := FromLines(Lines(input)).value; r.value == RatingSum(m, Trailheads(m))
  {
    var parsed := FromLines(Lines(input));
    if parsed.Err? {
      return Err(parsed.error);
    }
    var rating := Rate(parsed.value);
    r := Ok(rating);
  }
}

/** The wide warehouse of part 2 of src/bin/day15.rs as the source keeps
    it: a map whose rows `try_move` rewrites in place. Each movement is
    proved to do what `HorizontalMove` and `VerticalMove` describe, and
    `Part2` sums the GPS coordinates of the Left segments at the end. */
module Day15WideMap {
  import opened Wrappers
  import opened Vectors
  import opened Day15Grid
  import opened Day15Wide
  import opened Day15Push
  import N = Day15
  import Seqs

  /** One movement of `try_move`, as a value: the box stack north and
      south, the run of segments east and west. Every movement keeps the
      invariant and the walls. */
  ghost function WideMove(rows: seq<seq<WidePositionType>>, robot: IVec2, d: Direction): (r: (seq<seq<WidePositionType>>, IVec2))
    requires Ready(rows, robot)
    ensures Ready(r.0, r.1) && SameWalls(rows, r.0)
  {
    if Vertical(d) then
      VerticalKeepsReady(rows, robot, d);
      VerticalMove(rows, robot, d)
    else
      HorizontalKeepsReady(rows, robot, d);
      HorizontalMove(rows, robot, d)
  }

  /** The warehouse after the movements `moves`, one after another. */
  ghost function WideRun(rows: seq<seq<WidePositionType>>, robot: IVec2, moves: seq<Direction>): (r: (seq<seq<WidePositionType>>, IVec2))
    requires Ready(rows, robot)
    ensures Ready(r.0, r.1)
  {
    if moves == [] then (rows, robot)
    else
      var (rows', robot') := WideRun(rows, robot, moves[..|moves| - 1]);
      WideMove(rows', robot', moves[|moves| - 1])
  }

  /** `SameWalls` is transitive. */
  lemma SameWallsTrans(a: seq<seq<WidePositionType>>, b: seq<seq<WidePositionType>>, c: seq<seq<WidePositionType>>)
    requires SameWalls(a, b) && SameWalls(b, c)
    ensures SameWalls(a, c)
  {
  }

  /** Over any movements the walls never move and the map keeps its
      shape. */
  lemma {:induction false} WideRunKeepsWalls(rows: seq<seq<WidePositionType>>, robot: IVec2, moves: seq<Direction>)
    requires Ready(rows, robot)
    ensures SameWalls(rows, WideRun(rows, robot, moves).0)
  {
    if moves == [] {
      SameWallsItself(rows);
    } else {
      WideRunKeepsWalls(rows, robot, moves[..|moves| - 1]);
      var (rows', robot') := WideRun(rows, robot, moves[..|moves| - 1]);
      SameWallsTrans(rows, rows', WideMove(rows', robot', moves[|moves| - 1]).0);
    }
  }

  // The box stack

  /** Every box on the stack is reached by the search. */
  ghost predicate AllReached(rows: seq<seq<WidePositionType>>, first: Pair, d: Direction, stack: seq<Pair>) {
    forall e :: e in stack ==> Reached(rows, first, d, e)
  }

  /** The children of every remembered box are remembered or on the
      stack. */
  predicate Covered(rows: seq<seq<WidePositionType>>, d: Direction, stack: seq<Pair>, visited: set<Pair>) {
    forall a, c :: a in visited && c in Children(rows, a, d) ==> c in visited || c in stack
  }

  /** The state of the box stack search from `first`: everything on the
      stack or remembered is reached, nothing remembered has a wall ahead,
      and the children of every remembered box are remembered or on the
      stack. */
  ghost predicate Searching(rows: seq<seq<WidePositionType>>, first: Pair, d: Direction, stack: seq<Pair>, visited: set<Pair>) {
    && Rect(rows) && Walled(rows) && WellPaired(rows) && Vertical(d) && IsBox(rows, first)
    && AllReached(rows, first, d, stack)
    && (forall e :: e in visited ==> Reached(rows, first, d, e) && !Blocked(rows, e, d))
    && (first in visited || first in stack)
    && Covered(rows, d, stack, visited)
  }

  /** The search starts from the box ahead of the robot. */
  lemma SearchStart(rows: seq<seq<WidePositionType>>, first: Pair, d: Direction)
    requires Rect(rows) && Walled(rows) && WellPaired(rows) && Vertical(d) && IsBox(rows, first)
    ensures Searching(rows, first, d, [first], {})
  {
    ReachedFirst(rows, first, d);
  }

  /** Replacing the top of the stack by its children keeps every box on
      it reached. */
  lemma PushReached(rows: seq<seq<WidePositionType>>, first: Pair, d: Direction, stack: seq<Pair>)
    requires stack != [] && AllReached(rows, first, d, stack)
    ensures AllReached(rows, first, d, stack[..|stack| - 1] + Children(rows, stack[|stack| - 1], d))
  {
    var e := stack[|stack| - 1];
    assert e in stack;
    forall x | x in stack[..|stack| - 1] + Children(rows, e, d)
      ensures Reached(rows, first, d, x)
    {
      if x in Children(rows, e, d) {
        ReachedChild(rows, first, d, e, x);
      } else {
        assert x in stack[..|stack| - 1];
      }
    }
  }

  /** Remembering the top of the stack and replacing it by its children
      keeps the remembered boxes covered, and keeps every box that was on
      the stack remembered or on it. */
  lemma PushCovered(rows: seq<seq<WidePositionType>>, d: Direction, stack: seq<Pair>, visited: set<Pair>)
    requires stack != [] && Covered(rows, d, stack, visited)
    ensures var e := stack[|stack| - 1];
      && Covered(rows, d, stack[..|stack| - 1] + Children(rows, e, d), visited + {e})
      && forall x :: x in stack ==> x in visited + {e} || x in stack[..|stack| - 1] + Children(rows, e, d)
  {
    var e := stack[|stack| - 1];
    var stack' := stack[..|stack| - 1] + Children(rows, e, d);
    forall x | x in stack
      ensures x in visited + {e} || x in stack'
    {
      Seqs.InInit(stack, x);
    }
    forall a, c | a in visited + {e} && c in Children(rows, a, d)
      ensures c in visited + {e} || c in stack'
    {
      if a != e {
        assert c in visited || c in stack;
      }
    }
  }

  /** Remembering a popped box with no wall ahead and pushing its children
      keeps the search state. */
  lemma SearchPush(rows: seq<seq<WidePositionType>>, first: Pair, d: Direction, stack: seq<Pair>, visited: set<Pair>)
    requires Searching(rows, first, d, stack, visited) && stack != []
    requires !Blocked(rows, stack[|stack| - 1], d)
    ensures var e := stack[|stack| - 1];
      Searching(rows, first, d, stack[..|stack| - 1] + Children(rows, e, d), visited + {e})
  {
    var e := stack[|stack| - 1];
    assert e in stack;
    PushReached(rows, first, d, stack);
    PushCovered(rows, d, stack, visited);
  }

  /** With the stack empty, the remembered boxes are the boxes the push
      moves, and none of the boxes it reaches has a wall ahead. */
  lemma SearchDone(rows: seq<seq<WidePositionType>>, first: Pair, d: Direction, visited: set<Pair>)
    requires Searching(rows, first, d, [], visited)
    ensures visited == Forced(rows, first, d)
    ensures !exists e :: Reached(rows, first, d, e) && Blocked(rows, e, d)
  {
    CoveredEmpty(rows, d, visited);
    forall e | Reached(rows, first, d, e)
      ensures e in visited
    {
      ClosedHoldsReached(rows, first, d, visited, e);
    }
    forall e
      ensures e in visited <==> e in Forced(rows, first, d)
    {
      ForcedMeaning(rows, first, d, e);
    }
  }

  /** With the stack empty, the remembered boxes hold the children of
      each of them. */
  lemma CoveredEmpty(rows: seq<seq<WidePositionType>>, d: Direction, visited: set<Pair>)
    requires Covered(rows, d, [], visited)
    ensures forall a, c :: a in visited && c in Children(rows, a, d) ==> c in visited
  {
    forall a, c | a in visited && c in Children(rows, a, d)
      ensures c in visited
    {
      assert c in visited || c in [];
    }
  }

  /** The box on top of the stack is a box of the map, reached by the
      search, and the cells ahead of both its halves are on the map. */
  lemma SearchTop(rows: seq<seq<WidePositionType>>, first: Pair, d: Direction, stack: seq<Pair>, visited: set<Pair>)
    requires Searching(rows, first, d, stack, visited) && stack != []
    ensures var e := stack[|stack| - 1];
      && Reached(rows, first, d, e) && IsBox(rows, e)
      && InBounds(rows, e.0.Add(Xy(d))) && InBounds(rows, e.1.Add(Xy(d)))
      && PairedAt(rows, e.0.Add(Xy(d))) && PairedAt(rows, e.1.Add(Xy(d)))
  {
    var e := stack[|stack| - 1];
    assert e in stack;
    ReachedIsBox(rows, first, d, e);
    StepWithin(rows, e.0, d);
    StepWithin(rows, e.1, d);
  }

  /** One turn of the `while let Some(..) = box_stack.pop()` loop of a
      vertical push: pop a box and remember it, then look at the cell
      ahead of its Left half and, unless a Left segment there covers both
      cells (`continue`), at the cell ahead of its Right half. A wall ends
      the push (`blocked`); otherwise the boxes whose segments are ahead
      are pushed, which are the popped box's children. */
  method PopBox(rows: seq<seq<WidePositionType>>, d: Direction, stack: seq<Pair>, visited: set<Pair>)
    returns (stack': seq<Pair>, visited': set<Pair>, blocked: bool)
    requires stack != [] && IsBox(rows, stack[|stack| - 1])
    requires var e := stack[|stack| - 1];
      && InBounds(rows, e.0.Add(Xy(d))) && InBounds(rows, e.1.Add(Xy(d)))
      && PairedAt(rows, e.0.Add(Xy(d))) && PairedAt(rows, e.1.Add(Xy(d)))
    ensures visited' == visited + {stack[|stack| - 1]}
    ensures blocked <==> Blocked(rows, stack[|stack| - 1], d)
    ensures !blocked ==> stack' == stack[..|stack| - 1] + Children(rows, stack[|stack| - 1], d)
  {
    var e := stack[|stack| - 1];
    stack' := stack[..|stack| - 1];
    visited' := visited + {e};
    var nl := e.0.Add(Xy(d));
    var nr := e.1.Add(Xy(d));
    assert nr == East1(nl) && nl == West1(nr);
    blocked := false;
    if At(rows, nl) == Box(Left) {
      stack' := stack' + [(nl, nr)];
    } else if At(rows, nl) == Wall {
      return stack', visited', true;
    } else {
      if At(rows, nl) == Box(Right) {
        stack' := stack' + [(West1(nl), nl)];
      }
      match At(rows, nr)
      case Box(Left) =>
        stack' := stack' + [(nr, East1(nr))];
      case Box(Right) =>
        assert false;
      case Empty =>
      case Wall =>
        return stack', visited', true;
    }
  }

  /** A wall ahead of a box the search reaches blocks the push. */
  lemma SearchBlocked(rows: seq<seq<WidePositionType>>, first: Pair, d: Direction, stack: seq<Pair>, visited: set<Pair>)
    requires Searching(rows, first, d, stack, visited) && stack != [] && Blocked(rows, stack[|stack| - 1], d)
    ensures exists e :: Reached(rows, first, d, e) && Blocked(rows, e, d)
  {
    assert stack[|stack| - 1] in stack;
  }

  /** The box stack loop of a vertical push: when the stack runs empty
      the remembered boxes are exactly the ones the push moves; a wall
      ahead of any box it reaches ends it with None. */
  method FindBoxes(rows: seq<seq<WidePositionType>>, first: Pair, d: Direction) returns (r: Option<set<Pair>>)
    requires Rect(rows) && Walled(rows) && WellPaired(rows) && Vertical(d) && IsBox(rows, first)
    ensures r.None? <==> exists e :: Reached(rows, first, d, e) && Blocked(rows, e, d)
    ensures r.Some? ==> r.value == Forced(rows, first, d)
  {
    var stack := [first];
    var visited: set<Pair> := {};
    SearchStart(rows, first, d);
    while stack != []
      invariant Searching(rows, first, d, stack, visited)
      decreases StackSize(rows, stack, d)
    {
      SearchTop(rows, first, d, stack, visited);
      PopSize(rows, stack, d);
      ghost var before, remembered := stack, visited;
      var blocked;
      stack, visited, blocked := PopBox(rows, d, stack, visited);
      if blocked {
        SearchBlocked(rows, first, d, before, remembered);
        return None;
      }
      SearchPush(rows, first, d, before, remembered);
    }
    SearchDone(rows, first, d, visited);
    return Some(visited);
  }

  // The two loops over `visited_boxes`

  /** The map with every cell of the boxes of `s` emptied. */
  function Cleared(rows: seq<seq<WidePositionType>>, s: set<Pair>): (r: seq<seq<WidePositionType>>)
    ensures |r| == |rows| && forall y :: 0 <= y < |rows| ==> |r[y]| == |rows[y]|
  {
    seq(|rows|, y requires 0 <= y < |rows| =>
      seq(|rows[y]|, x requires 0 <= x < |rows[y]| =>
        if IVec2(x, y) in Lefts(s) || IVec2(x, y) in Rights(s) then Empty else rows[y][x]))
  }

  /** The map with the boxes of `s` written one row on in direction `d`. */
  function Placed(rows: seq<seq<WidePositionType>>, s: set<Pair>, d: Direction): (r: seq<seq<WidePositionType>>)
    ensures |r| == |rows| && forall y :: 0 <= y < |rows| ==> |r[y]| == |rows[y]|
  {
    seq(|rows|, y requires 0 <= y < |rows| =>
      seq(|rows[y]|, x requires 0 <= x < |rows[y]| =>
        var back := IVec2(x, y).Sub(Xy(d));
        if back in Lefts(s) then Box(Left) else if back in Rights(s) then Box(Right) else rows[y][x]))
  }

  /** A cleared cell is empty exactly when it is a half of a box of `s`. */
  lemma ClearedAt(rows: seq<seq<WidePositionType>>, s: set<Pair>, c: IVec2)
    requires InBounds(rows, c)
    ensures InBounds(Cleared(rows, s), c)
    ensures At(Cleared(rows, s), c) == if c in Lefts(s) || c in Rights(s) then Empty else At(rows, c)
  {
  }

  /** A placed cell holds the half of a box of `s` one row behind it, if
      any, and is otherwise unchanged. */
  lemma PlacedAt(rows: seq<seq<WidePositionType>>, s: set<Pair>, d: Direction, c: IVec2)
    requires InBounds(rows, c)
    ensures InBounds(Placed(rows, s, d), c)
    ensures At(Placed(rows, s, d), c) ==
      if c.Sub(Xy(d)) in Lefts(s) then Box(Left) else if c.Sub(Xy(d)) in Rights(s) then Box(Right) else At(rows, c)
  {
  }

  /** Clearing no boxes leaves the map as it is. */
  lemma ClearedNone(rows: seq<seq<WidePositionType>>)
    ensures Cleared(rows, {}) == rows
  {
    GridsEqual(Cleared(rows, {}), rows);
  }

  /** Placing no boxes leaves the map as it is. */
  lemma PlacedNone(rows: seq<seq<WidePositionType>>, d: Direction)
    ensures Placed(rows, {}, d) == rows
  {
    GridsEqual(Placed(rows, {}, d), rows);
  }

  /** Adding a box to a set adds its halves. */
  lemma HalvesAdd(s: set<Pair>, e: Pair)
    ensures Lefts(s + {e}) == Lefts(s) + {e.0} && Rights(s + {e}) == Rights(s) + {e.1}
  {
    assert e.0 in Lefts(s + {e}) && e.1 in Rights(s + {e});
  }

  /** Emptying one more box's cells is clearing one more box. */
  lemma ClearStep(rows0: seq<seq<WidePositionType>>, done: set<Pair>, e: Pair)
    requires InBounds(rows0, e.0) && InBounds(rows0, e.1)
    ensures InBounds(Cleared(rows0, done), e.0) && InBounds(Cleared(rows0, done), e.1)
    ensures Update(Update(Cleared(rows0, done), e.0, Empty), e.1, Empty) == Cleared(rows0, done + {e})
  {
    HalvesAdd(done, e);
    var a := Update(Update(Cleared(rows0, done), e.0, Empty), e.1, Empty);
    var b := Cleared(rows0, done + {e});
    forall c | InBounds(a, c)
      ensures At(a, c) == At(b, c)
    {
      ClearedAt(rows0, done, c);
      ClearedAt(rows0, done + {e}, c);
    }
    GridsEqual(a, b);
  }

  /** Boxes whose halves sit side by side and never overlap: the Right
      half of one box is never the Left half of another. */
  predicate Separate(s: set<Pair>) {
    && (forall e :: e in s ==> e.1 == East1(e.0))
    && (forall a, b :: a in s && b in s ==> a.0 != b.1)
  }

  /** Writing one more box one row on is placing one more box. */
  lemma PlaceStep(rows1: seq<seq<WidePositionType>>, done: set<Pair>, e: Pair, d: Direction)
    requires Separate(done + {e})
    requires InBounds(rows1, e.0.Add(Xy(d))) && InBounds(rows1, e.1.Add(Xy(d)))
    ensures InBounds(Placed(rows1, done, d), e.0.Add(Xy(d))) && InBounds(Placed(rows1, done, d), e.1.Add(Xy(d)))
    ensures Update(Update(Placed(rows1, done, d), e.0.Add(Xy(d)), Box(Left)), e.1.Add(Xy(d)), Box(Right)) == Placed(rows1, done + {e}, d)
  {
    HalvesAdd(done, e);
    var a := Update(Update(Placed(rows1, done, d), e.0.Add(Xy(d)), Box(Left)), e.1.Add(Xy(d)), Box(Right));
    var b := Placed(rows1, done + {e}, d);
    forall c | InBounds(a, c)
      ensures At(a, c) == At(b, c)
    {
      PlacedAt(rows1, done, d, c);
      PlacedAt(rows1, done + {e}, d, c);
      assert e.0.Add(Xy(d)).Sub(Xy(d)) == e.0 && e.1.Add(Xy(d)).Sub(Xy(d)) == e.1;
      if c == e.1.Add(Xy(d)) {
        assert e.1 !in Lefts(done + {e});
      } else if c == e.0.Add(Xy(d)) {
      } else {
        assert c.Sub(Xy(d)) != e.0 && c.Sub(Xy(d)) != e.1;
      }
    }
    GridsEqual(a, b);
  }

  /** The two loops leave the map `Shift` describes. */
  lemma PlacedCleared(rows: seq<seq<WidePositionType>>, s: set<Pair>, d: Direction)
    ensures Placed(Cleared(rows, s), s, d) == Shift(rows, s, d)
  {
    forall c | InBounds(rows, c)
      ensures At(Placed(Cleared(rows, s), s, d), c) == At(Shift(rows, s, d), c)
    {
      ClearedAt(rows, s, c);
      PlacedAt(Cleared(rows, s), s, d, c);
    }
    GridsEqual(Placed(Cleared(rows, s), s, d), Shift(rows, s, d));
  }

  /** The boxes of a movable set are separate. */
  lemma ClosedSeparate(rows: seq<seq<WidePositionType>>, s: set<Pair>, d: Direction)
    requires Closed(rows, s, d)
    ensures Separate(s)
  {
    forall a, b | a in s && b in s
      ensures a.0 != b.1
    {
      assert At(rows, a.0) == Box(Left) && At(rows, b.1) == Box(Right);
    }
  }

  /** Moving one box from the boxes still to do to the boxes done. */
  lemma TakeOne(done: set<Pair>, todo: set<Pair>, boxes: set<Pair>, e: Pair)
    requires done !! todo && done + todo == boxes && e in todo
    ensures e in boxes && |todo - {e}| < |todo|
    ensures done + {e} !! todo - {e} && (done + {e}) + (todo - {e}) == boxes
  {
  }

  /** With nothing left to do, every box is done. */
  lemma TakeNone(done: set<Pair>, boxes: set<Pair>)
    requires done + {} == boxes
    ensures done == boxes
  {
  }

  /** One turn of the first loop over `visited_boxes`. */
  method ClearBox(grid: seq<seq<WidePositionType>>, ghost rows: seq<seq<WidePositionType>>, ghost done: set<Pair>, e: Pair)
    returns (grid': seq<seq<WidePositionType>>)
    requires grid == Cleared(rows, done) && InBounds(rows, e.0) && InBounds(rows, e.1)
    ensures grid' == Cleared(rows, done + {e})
  {
    ClearStep(rows, done, e);
    grid' := Update(grid, e.0, Empty);
    grid' := Update(grid', e.1, Empty);
  }

  /** The first loop over `visited_boxes` of `try_move`: both cells of
      every box are emptied. */
  method ClearBoxes(rows: seq<seq<WidePositionType>>, boxes: set<Pair>) returns (grid: seq<seq<WidePositionType>>)
    requires forall e :: e in boxes ==> InBounds(rows, e.0) && InBounds(rows, e.1)
    ensures grid == Cleared(rows, boxes)
  {
    grid := rows;
    ghost var done: set<Pair> := {};
    var todo := boxes;
    ClearedNone(rows);
    while todo != {}
      invariant done !! todo && done + todo == boxes
      invariant grid == Cleared(rows, done)
      decreases |todo|
    {
      var e :| e in todo;
      TakeOne(done, todo, boxes, e);
      grid := ClearBox(grid, rows, done, e);
      done := done + {e};
      todo := todo - {e};
    }
    TakeNone(done, boxes);
  }

  /** One turn of the second loop over `visited_boxes`. */
  method PlaceBox(grid: seq<seq<WidePositionType>>, ghost rows: seq<seq<WidePositionType>>, ghost done: set<Pair>, e: Pair, d: Direction)
    returns (grid': seq<seq<WidePositionType>>)
    requires grid == Placed(rows, done, d) && Separate(done + {e})
    requires InBounds(rows, e.0.Add(Xy(d))) && InBounds(rows, e.1.Add(Xy(d)))
    ensures grid' == Placed(rows, done + {e}, d)
  {
    PlaceStep(rows, done, e, d);
    grid' := Update(grid, e.0.Add(Xy(d)), Box(Left));
    grid' := Update(grid', e.1.Add(Xy(d)), Box(Right));
  }

  /** The second loop over `visited_boxes` of `try_move`: every box is
      written one row on, its Left half and then its Right half. */
  method PlaceBoxes(rows: seq<seq<WidePositionType>>, boxes: set<Pair>, d: Direction) returns (grid: seq<seq<WidePositionType>>)
    requires Separate(boxes)
    requires forall e :: e in boxes ==> InBounds(rows, e.0.Add(Xy(d))) && InBounds(rows, e.1.Add(Xy(d)))
    ensures grid == Placed(rows, boxes, d)
  {
    grid := rows;
    ghost var done: set<Pair> := {};
    var todo := boxes;
    PlacedNone(rows, d);
    while todo != {}
      invariant done !! todo && done + todo == boxes
      invariant grid == Placed(rows, done, d)
      decreases |todo|
    {
      var e :| e in todo;
      TakeOne(done, todo, boxes, e);
      assert done + {e} <= boxes;
      grid := PlaceBox(grid, rows, done, e, d);
      done := done + {e};
      todo := todo - {e};
    }
    TakeNone(done, boxes);
  }

  /** The scan of the horizontal push: step over box segments to the
      first empty cell; a wall means there is none. */
  method FindGap(rows: seq<seq<WidePositionType>>, robot: IVec2, d: Direction) returns (r: Option<IVec2>)
    requires Ready(rows, robot) && N.Ready(Kinds(rows), robot)
    ensures r == N.Gap(Kinds(rows), robot, d)
  {
    ghost var kinds := Kinds(rows);
    var gap := robot;
    while true
      invariant InBounds(rows, gap) && At(rows, gap) != Wall
      invariant N.Gap(kinds, gap, d) == N.Gap(kinds, robot, d)
      decreases Room(rows, gap, d)
    {
      N.StepOff(kinds, gap, d);
      gap := gap.Add(Xy(d));
      match At(rows, gap)
      case Box(_) =>
      case Empty => return Some(gap);
      case Wall => return None;
    }
  }

  /** The writing loop of the horizontal push: from the cell after `p` up
      to `gap`, write a segment and switch to the other one. */
  method RelayBoxes(rows: seq<seq<WidePositionType>>, p: IVec2, gap: IVec2, d: Direction, segment: BoxSegment)
    returns (grid: seq<seq<WidePositionType>>)
    requires Rect(rows) && !Vertical(d) && InBounds(rows, p) && InBounds(rows, gap) && N.Beyond(p, d, gap)
    ensures grid == Relay(rows, p, gap, d, segment)
  {
    grid := rows;
    var q := p;
    var s := segment;
    while true
      invariant Rect(grid) && InBounds(grid, q) && InBounds(grid, gap) && N.Beyond(q, d, gap)
      invariant Relay(grid, q, gap, d, s) == Relay(rows, p, gap, d, segment)
      decreases Span(q, gap)
    {
      q := q.Add(Xy(d));
      grid := Update(grid, q, Box(s));
      s := Inverse(s);
      if q == gap {
        return;
      }
    }
  }

  /** The warehouse map of part 2, whose rows `try_move` rewrites. */
  class WideWarehouseMap {
    var rows: seq<seq<WidePositionType>>

    constructor (rows: seq<seq<WidePositionType>>)
      ensures this.rows == rows
    {
      this.rows := rows;
    }

    /** The North and South arm of `try_move`. */
    method PushVertically(robot: IVec2, d: Direction) returns (robot': IVec2)
      requires Ready(rows, robot) && Vertical(d)
      modifies this
      ensures (rows, robot') == VerticalMove(old(rows), robot, d)
    {
      var next := robot.Add(Xy(d));
      StepWithin(rows, robot, d);
      if At(rows, next) == Empty {
        return next;
      }
      if At(rows, next) == Wall {
        return robot;
      }
      var first := BoxOf(next, At(rows, next).segment);
      BoxOfIsBox(rows, next);
      var boxes := FindBoxes(rows, first, d);
      if boxes.None? {
        return robot;
      }
      ForcedClosed(rows, first, d);
      ClosedSeparate(rows, boxes.value, d);
      ghost var rows0 := rows;
      rows := ClearBoxes(rows, boxes.value);
      rows := PlaceBoxes(rows, boxes.value, d);
      PlacedCleared(rows0, boxes.value, d);
      robot' := next;
    }

    /** The East and West arm of `try_move`: find the empty cell past the
        run of segments, then shift the run one cell, rewriting it with
        alternating segments. */
    method PushHorizontally(robot: IVec2, d: Direction) returns (robot': IVec2)
      requires Ready(rows, robot) && !Vertical(d)
      modifies this
      ensures (rows, robot') == HorizontalMove(old(rows), robot, d)
    {
      KindsReady(rows, robot);
      var found := FindGap(rows, robot, d);
      if found.None? {
        return robot;
      }
      var gap := found.value;
      var next := robot.Add(Xy(d));
      N.StepOff(Kinds(rows), robot, d);
      if gap != next {
        N.GapMeaning(Kinds(rows), robot, d);
        assert N.Between(robot, d, next, gap);
        rows := RelayBoxes(Update(rows, next, Empty), next, gap, d, At(rows, next).segment);
      }
      robot' := next;
    }

    /** `try_move`. */
    method TryMove(robot: IVec2, d: Direction) returns (robot': IVec2)
      requires Ready(rows, robot)
      modifies this
      ensures (rows, robot') == WideMove(old(rows), robot, d)
    {
      if Vertical(d) {
        robot' := PushVertically(robot, d);
      } else {
        robot' := PushHorizontally(robot, d);
      }
    }
  }

  /** The movement loop of `part2`. */
  method RunWideMoves(warehouse: WideWarehouseMap, robot: IVec2, moves: seq<Direction>) returns (robot': IVec2)
    requires Ready(warehouse.rows, robot)
    modifies warehouse
    ensures (warehouse.rows, robot') == WideRun(old(warehouse.rows), robot, moves)
  {
    robot' := robot;
    for i := 0 to |moves|
      invariant (warehouse.rows, robot') == WideRun(old(warehouse.rows), robot, moves[..i])
    {
      assert moves[..i + 1][..i] == moves[..i];
      robot' := warehouse.TryMove(robot', moves[i]);
    }
    assert moves[..|moves|] == moves;
  }

  /** A parsed wide map of an enclosed input is ready to move on. */
  lemma WideParseReady(input: string)
    requires N.Enclosed(input) && WideParse(input).Ok?
    ensures var (rows, robot, _) := WideParse(input).value; Ready(rows, robot)
  {
    WideParseIsWidened(input);
    var (rows, robot, _) := N.Parse(input).value;
    WidenReady(rows, robot);
  }

  /** `part2`: the GPS sum of the Left segments after all the movements. */
  method Part2(input: string) returns (r: Result<nat, N.WarehouseError>)
    requires N.Enclosed(input)
    ensures r.Ok? <==> N.Parse(input).Ok?
    ensures r.Err? ==> r.error == N.Parse(input).error
    ensures r.Ok? ==> WideParse(input).Ok? && var (rows, robot, moves) := WideParse(input).value;
      && Ready(rows, robot)
      && var final := WideRun(rows, robot, moves).0; r.value == Gps(final, |final|, Box(Left))
  {
    WideParseIsWidened(input);
    var parsed := WideParse(input);
    if parsed.Err? {
      return Err(parsed.error);
    }
    WideParseReady(input);
    var (rows, robot, moves) := parsed.value;
    var warehouse := new WideWarehouseMap(rows);
    var _ := RunWideMoves(warehouse, robot, moves);
    var sum := GpsSum(warehouse.rows, Box(Left));
    r := Ok(sum);
  }
}

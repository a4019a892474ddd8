/** The vertical push of part 2 of src/bin/day15.rs, as a value. Pushing
    north or south moves a whole tree of boxes: every box one of whose
    halves is ahead of a moving box moves too. `try_move` finds that tree
    with a stack of boxes; here it is the union of its layers, one row
    further per layer. If a wall is ahead of any box of the tree nothing
    moves; otherwise all of them move one row. */
module Day15Push {
  import opened Vectors
  import opened Day15Grid
  import opened Day15Wide

  /** A box as the stack of `try_move` holds it: the cell of its Left and
      the cell of its Right segment. */
  type Pair = (IVec2, IVec2)

  /** `e` is a whole box of `rows`. */
  predicate IsBox(rows: seq<seq<WidePositionType>>, e: Pair) {
    && e.1 == East1(e.0) && InBounds(rows, e.0) && InBounds(rows, e.1)
    && At(rows, e.0) == Box(Left) && At(rows, e.1) == Box(Right)
  }

  /** The box a segment at `p` belongs to, as `try_move` builds it. */
  function BoxOf(p: IVec2, s: BoxSegment): (e: Pair)
    ensures e.1 == East1(e.0)
    ensures s == Left ==> e.0 == p
    ensures s == Right ==> e.1 == p
  {
    match s
    case Left => (p, East1(p))
    case Right => (West1(p), p)
  }

  /** On a paired map, every segment belongs to the box `BoxOf` names. */
  lemma BoxOfIsBox(rows: seq<seq<WidePositionType>>, p: IVec2)
    requires WellPaired(rows) && InBounds(rows, p) && At(rows, p).Box?
    ensures IsBox(rows, BoxOf(p, At(rows, p).segment))
  {
    assert PairedAt(rows, p);
  }

  /** A cell that is not a wall has its neighbour in direction `d` on a
      walled map. */
  lemma StepWithin(rows: seq<seq<WidePositionType>>, p: IVec2, d: Direction)
    requires Rect(rows) && Walled(rows) && InBounds(rows, p) && At(rows, p) != Wall
    ensures InBounds(rows, p.Add(Xy(d)))
  {
    StepInside(rows, p, d);
  }

  /** The boxes `try_move` pushes onto the stack after popping `e`: the box
      whose Left segment is ahead of `e`'s Left segment (it covers both
      cells ahead), otherwise the box covering the cell ahead of each
      half. Nothing is followed from a pair that is not a box of the map
      whose cells ahead are on it; a box of a walled map always is. */
  function Children(rows: seq<seq<WidePositionType>>, e: Pair, d: Direction): (r: seq<Pair>)
    ensures |r| <= 2
    ensures forall c :: c in r ==> 0 <= e.0.y < |rows| && c.0.y == e.0.y + Xy(d).y && 0 <= c.0.y < |rows|
  {
    var nl := e.0.Add(Xy(d));
    var nr := e.1.Add(Xy(d));
    if !(IsBox(rows, e) && InBounds(rows, nl) && InBounds(rows, nr)) then []
    else if At(rows, nl) == Box(Left) then [(nl, nr)]
    else
      (if At(rows, nl) == Box(Right) then [BoxOf(nl, Right)] else [])
      + (if At(rows, nr) == Box(Left) then [BoxOf(nr, Left)] else [])
  }

  /** A wall is ahead of one of `e`'s halves: `try_move` returns. */
  predicate Blocked(rows: seq<seq<WidePositionType>>, e: Pair, d: Direction) {
    var nl := e.0.Add(Xy(d));
    var nr := e.1.Add(Xy(d));
    InBounds(rows, nl) && InBounds(rows, nr) && (At(rows, nl) == Wall || At(rows, nr) == Wall)
  }

  /** The rows left ahead of row `y` in a vertical direction. */
  function RowsAhead(rows: seq<seq<WidePositionType>>, y: int, d: Direction): nat
    requires Vertical(d) && 0 <= y < |rows|
  {
    if d == North then y else |rows| - 1 - y
  }

  /** The number of pops the search makes below `e`, counting `e`: every
      child is one row further on. */
  ghost function TreeSize(rows: seq<seq<WidePositionType>>, e: Pair, d: Direction): nat
    requires Vertical(d)
    decreases if 0 <= e.0.y < |rows| then RowsAhead(rows, e.0.y, d) + 1 else 0
  {
    var cs := Children(rows, e, d);
    1 + (if |cs| > 0 then TreeSize(rows, cs[0], d) else 0) + (if |cs| > 1 then TreeSize(rows, cs[1], d) else 0)
  }

  /** The pops the search has left with `stack` on the stack. */
  ghost function StackSize(rows: seq<seq<WidePositionType>>, stack: seq<Pair>, d: Direction): nat
    requires Vertical(d)
  {
    if stack == [] then 0 else StackSize(rows, stack[..|stack| - 1], d) + TreeSize(rows, stack[|stack| - 1], d)
  }

  lemma {:induction false} StackSizeAppend(rows: seq<seq<WidePositionType>>, a: seq<Pair>, b: seq<Pair>, d: Direction)
    requires Vertical(d)
    ensures StackSize(rows, a + b, d) == StackSize(rows, a, d) + StackSize(rows, b, d)
    decreases |b|
  {
    if b != [] {
      assert (a + b)[..|a + b| - 1] == a + b[..|b| - 1];
      StackSizeAppend(rows, a, b[..|b| - 1], d);
    } else {
      assert a + b == a;
    }
  }

  /** The pops below a stack of at most two pairs. */
  lemma ShortStackSize(rows: seq<seq<WidePositionType>>, cs: seq<Pair>, d: Direction)
    requires Vertical(d) && |cs| <= 2
    ensures StackSize(rows, cs, d) == (if |cs| > 0 then TreeSize(rows, cs[0], d) else 0) + (if |cs| > 1 then TreeSize(rows, cs[1], d) else 0)
  {
    if |cs| == 0 {
      assert cs == [];
    } else if |cs| == 1 {
      assert cs[..0] == [];
      assert StackSize(rows, cs, d) == StackSize(rows, [], d) + TreeSize(rows, cs[0], d);
    } else {
      var one := cs[..1];
      assert one[..0] == [];
      assert StackSize(rows, one, d) == StackSize(rows, [], d) + TreeSize(rows, cs[0], d);
      assert StackSize(rows, cs, d) == StackSize(rows, one, d) + TreeSize(rows, cs[1], d);
    }
  }

  /** The children of `e` account for every pop below it but its own. */
  lemma ChildrenSize(rows: seq<seq<WidePositionType>>, e: Pair, d: Direction)
    requires Vertical(d)
    ensures StackSize(rows, Children(rows, e, d), d) + 1 == TreeSize(rows, e, d)
  {
    ShortStackSize(rows, Children(rows, e, d), d);
  }

  /** Popping `e` and pushing its children takes one pop off what is left. */
  lemma PopSize(rows: seq<seq<WidePositionType>>, stack: seq<Pair>, d: Direction)
    requires Vertical(d) && stack != []
    ensures StackSize(rows, stack[..|stack| - 1] + Children(rows, stack[|stack| - 1], d), d) + 1 == StackSize(rows, stack, d)
  {
    var e := stack[|stack| - 1];
    StackSizeAppend(rows, stack[..|stack| - 1], Children(rows, e, d), d);
    ChildrenSize(rows, e, d);
  }

  // The boxes a push moves

  /** The children of the boxes of `layer`. */
  ghost function NextLayer(rows: seq<seq<WidePositionType>>, layer: set<Pair>, d: Direction): set<Pair> {
    set a, e | a in layer && e in Children(rows, a, d) :: e
  }

  /** A child of a box of a layer is in the next layer. */
  lemma InNextLayer(rows: seq<seq<WidePositionType>>, layer: set<Pair>, d: Direction, a: Pair, c: Pair)
    requires a in layer && c in Children(rows, a, d)
    ensures c in NextLayer(rows, layer, d)
  {
  }

  /** Every box of the next layer is a child of a box of the layer. */
  lemma FromLayer(rows: seq<seq<WidePositionType>>, layer: set<Pair>, d: Direction, c: Pair)
    requires c in NextLayer(rows, layer, d)
    ensures exists a :: a in layer && c in Children(rows, a, d)
  {
  }

  /** The boxes `k` rows on from `first`: the children of the layer
      before. */
  ghost function Layer(rows: seq<seq<WidePositionType>>, first: Pair, d: Direction, k: nat): set<Pair> {
    if k == 0 then {first} else NextLayer(rows, Layer(rows, first, d, k - 1), d)
  }

  /** `e` is in some layer: the search pops it. */
  ghost predicate Reached(rows: seq<seq<WidePositionType>>, first: Pair, d: Direction, e: Pair) {
    exists k: nat :: e in Layer(rows, first, d, k)
  }

  lemma ReachedFirst(rows: seq<seq<WidePositionType>>, first: Pair, d: Direction)
    ensures Reached(rows, first, d, first)
  {
    assert first in Layer(rows, first, d, 0);
  }

  lemma ReachedAt(rows: seq<seq<WidePositionType>>, first: Pair, d: Direction, e: Pair, k: nat)
    requires e in Layer(rows, first, d, k)
    ensures Reached(rows, first, d, e)
  {
  }

  /** The children of a box the search reaches are reached. */
  lemma ReachedChild(rows: seq<seq<WidePositionType>>, first: Pair, d: Direction, e: Pair, c: Pair)
    requires Reached(rows, first, d, e) && c in Children(rows, e, d)
    ensures Reached(rows, first, d, c)
  {
    var k: nat :| e in Layer(rows, first, d, k);
    InNextLayer(rows, Layer(rows, first, d, k), d, e, c);
    ReachedAt(rows, first, d, c, k + 1);
  }

  /** `v` holds the children of each of its members. */
  ghost predicate ChildClosed(rows: seq<seq<WidePositionType>>, v: set<Pair>, d: Direction) {
    forall a, c :: a in v && c in Children(rows, a, d) ==> c in v
  }

  /** A set holding `first` and the children of each of its members holds
      every layer. */
  lemma ClosedHoldsLayers(rows: seq<seq<WidePositionType>>, first: Pair, d: Direction, v: set<Pair>, k: nat)
    requires first in v && ChildClosed(rows, v, d)
    ensures Layer(rows, first, d, k) <= v
  {
    var j := 0;
    while j < k
      invariant j <= k && Layer(rows, first, d, j) <= v
    {
      NextLayerWithin(rows, Layer(rows, first, d, j), d, v);
      j := j + 1;
    }
  }

  /** The children of a set within a set closed under children stay
      within it. */
  lemma NextLayerWithin(rows: seq<seq<WidePositionType>>, layer: set<Pair>, d: Direction, v: set<Pair>)
    requires layer <= v && ChildClosed(rows, v, d)
    ensures NextLayer(rows, layer, d) <= v
  {
    forall c | c in NextLayer(rows, layer, d)
      ensures c in v
    {
      FromLayer(rows, layer, d, c);
    }
  }

  /** Such a set holds every box the search reaches. */
  lemma ClosedHoldsReached(rows: seq<seq<WidePositionType>>, first: Pair, d: Direction, v: set<Pair>, e: Pair)
    requires first in v && ChildClosed(rows, v, d)
    requires Reached(rows, first, d, e)
    ensures e in v
  {
    var k: nat :| e in Layer(rows, first, d, k);
    ClosedHoldsLayers(rows, first, d, v, k);
  }

  /** On a paired map the children of a pair are boxes. */
  lemma ChildIsBox(rows: seq<seq<WidePositionType>>, e: Pair, d: Direction, c: Pair)
    requires WellPaired(rows) && c in Children(rows, e, d)
    ensures IsBox(rows, c)
  {
    var nl := e.0.Add(Xy(d));
    var nr := e.1.Add(Xy(d));
    assert nr == East1(nl);
    if At(rows, nl) == Box(Left) {
      BoxOfIsBox(rows, nl);
    } else if c == BoxOf(nl, Right) && At(rows, nl) == Box(Right) {
      BoxOfIsBox(rows, nl);
    } else {
      BoxOfIsBox(rows, nr);
    }
  }

  lemma {:induction false} LayerBoxes(rows: seq<seq<WidePositionType>>, first: Pair, d: Direction, k: nat)
    requires WellPaired(rows) && IsBox(rows, first)
    ensures forall e :: e in Layer(rows, first, d, k) ==> IsBox(rows, e)
  {
    if k > 0 {
      LayerBoxes(rows, first, d, k - 1);
      forall e | e in Layer(rows, first, d, k)
        ensures IsBox(rows, e)
      {
        FromLayer(rows, Layer(rows, first, d, k - 1), d, e);
        var a :| a in Layer(rows, first, d, k - 1) && e in Children(rows, a, d);
        ChildIsBox(rows, a, d, e);
      }
    }
  }

  lemma ReachedIsBox(rows: seq<seq<WidePositionType>>, first: Pair, d: Direction, e: Pair)
    requires WellPaired(rows) && IsBox(rows, first) && Reached(rows, first, d, e)
    ensures IsBox(rows, e)
  {
    var k: nat :| e in Layer(rows, first, d, k);
    LayerBoxes(rows, first, d, k);
  }

  /** The boxes a push from `first` moves. */
  ghost function Forced(rows: seq<seq<WidePositionType>>, first: Pair, d: Direction): set<Pair> {
    set l | l in Cells(rows, Box(Left)) && Reached(rows, first, d, (l, East1(l))) :: (l, East1(l))
  }

  /** On a paired map the boxes moved are exactly those the search
      reaches. */
  lemma ForcedMeaning(rows: seq<seq<WidePositionType>>, first: Pair, d: Direction, e: Pair)
    requires WellPaired(rows) && IsBox(rows, first)
    ensures e in Forced(rows, first, d) <==> Reached(rows, first, d, e)
  {
    if Reached(rows, first, d, e) {
      ReachedIsBox(rows, first, d, e);
      assert e.0 in Cells(rows, Box(Left));
    }
  }

  /** The cell ahead `q` of a half of a moving box is free or holds a
      segment of a moving box. */
  ghost predicate AheadIn(rows: seq<seq<WidePositionType>>, s: set<Pair>, q: IVec2) {
    InBounds(rows, q) && At(rows, q) != Wall && (At(rows, q).Box? ==> BoxOf(q, At(rows, q).segment) in s)
  }

  /** `s` is a set of boxes that can all move one row in direction `d`:
      nothing ahead of them is a wall or a box that does not move. */
  ghost predicate Closed(rows: seq<seq<WidePositionType>>, s: set<Pair>, d: Direction) {
    forall e :: e in s ==> IsBox(rows, e) && AheadIn(rows, s, e.0.Add(Xy(d))) && AheadIn(rows, s, e.1.Add(Xy(d)))
  }

  /** The segment ahead of a box is a segment of one of its children. */
  lemma AheadIsChild(rows: seq<seq<WidePositionType>>, e: Pair, d: Direction, q: IVec2)
    requires WellPaired(rows) && IsBox(rows, e)
    requires q == e.0.Add(Xy(d)) || q == e.1.Add(Xy(d))
    requires InBounds(rows, e.0.Add(Xy(d))) && InBounds(rows, e.1.Add(Xy(d)))
    requires At(rows, q).Box?
    ensures BoxOf(q, At(rows, q).segment) in Children(rows, e, d)
  {
    var nl := e.0.Add(Xy(d));
    var nr := e.1.Add(Xy(d));
    assert nr == East1(nl) && nl == West1(nr);
    assert PairedAt(rows, nl) && PairedAt(rows, nr);
  }

  /** With no wall ahead of any box the search reaches, the boxes it
      reaches can all move. */
  lemma ForcedClosed(rows: seq<seq<WidePositionType>>, first: Pair, d: Direction)
    requires Rect(rows) && Walled(rows) && WellPaired(rows) && IsBox(rows, first)
    requires forall e :: Reached(rows, first, d, e) ==> !Blocked(rows, e, d)
    ensures Closed(rows, Forced(rows, first, d), d)
  {
    var s := Forced(rows, first, d);
    forall e | e in s
      ensures IsBox(rows, e) && AheadIn(rows, s, e.0.Add(Xy(d))) && AheadIn(rows, s, e.1.Add(Xy(d)))
    {
      ForcedMeaning(rows, first, d, e);
      ReachedIsBox(rows, first, d, e);
      StepWithin(rows, e.0, d);
      StepWithin(rows, e.1, d);
      assert !Blocked(rows, e, d);
      forall q | (q == e.0.Add(Xy(d)) || q == e.1.Add(Xy(d))) && At(rows, q).Box?
        ensures BoxOf(q, At(rows, q).segment) in s
      {
        var c := BoxOf(q, At(rows, q).segment);
        AheadIsChild(rows, e, d, q);
        ReachedChild(rows, first, d, e, c);
        ForcedMeaning(rows, first, d, c);
      }
    }
  }

  // The map after the push

  function Lefts(s: set<Pair>): set<IVec2> {
    set e | e in s :: e.0
  }

  function Rights(s: set<Pair>): set<IVec2> {
    set e | e in s :: e.1
  }

  /** Cell `c` after the boxes of `s` move one row in direction `d`: the
      halves of a moved box land one row on, the cells the boxes leave
      are emptied, every other cell stays. */
  function MovedCell(rows: seq<seq<WidePositionType>>, s: set<Pair>, d: Direction, c: IVec2): WidePositionType
    requires InBounds(rows, c)
  {
    var back := c.Sub(Xy(d));
    if back in Lefts(s) then Box(Left)
    else if back in Rights(s) then Box(Right)
    else if c in Lefts(s) || c in Rights(s) then Empty
    else At(rows, c)
  }

  /** The two loops over `visited_boxes`: the map with the boxes of `s`
      moved one row. */
  function Shift(rows: seq<seq<WidePositionType>>, s: set<Pair>, d: Direction): (r: seq<seq<WidePositionType>>)
    ensures |r| == |rows| && forall y :: 0 <= y < |rows| ==> |r[y]| == |rows[y]|
    ensures forall c :: InBounds(rows, c) ==> InBounds(r, c) && At(r, c) == MovedCell(rows, s, d, c)
  {
    seq(|rows|, y requires 0 <= y < |rows| =>
      seq(|rows[y]|, x requires 0 <= x < |rows[y]| => MovedCell(rows, s, d, IVec2(x, y))))
  }

  /** One vertical movement of `try_move`, as a value: into an empty cell
      the robot steps, into a wall it does not; into a box, it pushes the
      boxes the search reaches from that box, unless a wall is ahead of one
      of them. */
  ghost function VerticalMove(rows: seq<seq<WidePositionType>>, robot: IVec2, d: Direction): (seq<seq<WidePositionType>>, IVec2)
    requires Ready(rows, robot) && Vertical(d)
  {
    var next := robot.Add(Xy(d));
    StepWithin(rows, robot, d);
    match At(rows, next)
    case Empty => (rows, next)
    case Wall => (rows, robot)
    case Box(s) =>
      var first := BoxOf(next, s);
      if exists e :: Reached(rows, first, d, e) && Blocked(rows, e, d) then (rows, robot)
      else (Shift(rows, Forced(rows, first, d), d), next)
  }

  /** Membership in `Lefts` and `Rights` of a set of boxes. */
  lemma Halves(rows: seq<seq<WidePositionType>>, s: set<Pair>, d: Direction, p: IVec2)
    requires Closed(rows, s, d)
    ensures p in Lefts(s) <==> (p, East1(p)) in s
    ensures p in Rights(s) <==> (West1(p), p) in s
    ensures p in Lefts(s) ==> InBounds(rows, p) && At(rows, p) == Box(Left)
    ensures p in Rights(s) ==> InBounds(rows, p) && At(rows, p) == Box(Right)
  {
    if p in Lefts(s) {
      var e :| e in s && e.0 == p;
    }
    if p in Rights(s) {
      var e :| e in s && e.1 == p;
      assert West1(East1(e.0)) == e.0;
    }
    if (p, East1(p)) in s {
      assert (p, East1(p)).0 in Lefts(s);
    }
    if (West1(p), p) in s {
      assert (West1(p), p).1 in Rights(s);
    }
  }

  /** The cell ahead of a half of a moving box is free or a half of a
      moving box. */
  lemma AheadOfHalf(rows: seq<seq<WidePositionType>>, s: set<Pair>, d: Direction, p: IVec2)
    requires Closed(rows, s, d) && (p in Lefts(s) || p in Rights(s))
    ensures InBounds(rows, p.Add(Xy(d))) && At(rows, p.Add(Xy(d))) != Wall
    ensures At(rows, p.Add(Xy(d))) == Box(Left) ==> (p.Add(Xy(d)), East1(p.Add(Xy(d)))) in s
    ensures At(rows, p.Add(Xy(d))) == Box(Right) ==> (West1(p.Add(Xy(d))), p.Add(Xy(d))) in s
  {
    if p in Lefts(s) {
      var e :| e in s && e.0 == p;
    } else {
      var e :| e in s && e.1 == p;
    }
  }

  /** `c` is neither a cell a moving box leaves nor one it lands on. */
  predicate Untouched(s: set<Pair>, d: Direction, c: IVec2) {
    && c !in Lefts(s) && c !in Rights(s)
    && c.Sub(Xy(d)) !in Lefts(s) && c.Sub(Xy(d)) !in Rights(s)
  }

  /** The partner of an untouched segment is untouched too: a box that
      does not move is not split. */
  lemma UntouchedPartner(rows: seq<seq<WidePositionType>>, s: set<Pair>, d: Direction, c: IVec2)
    requires WellPaired(rows) && Closed(rows, s, d) && InBounds(rows, c) && At(rows, c).Box? && Untouched(s, d, c)
    ensures var p := if At(rows, c) == Box(Left) then East1(c) else West1(c);
      InBounds(rows, p) && At(rows, p) == Box(Inverse(At(rows, c).segment)) && Untouched(s, d, p)
  {
    assert PairedAt(rows, c);
    Halves(rows, s, d, c);
    if At(rows, c) == Box(Left) {
      var e := East1(c);
      assert West1(e) == c;
      Halves(rows, s, d, e);
      var back := e.Sub(Xy(d));
      assert back.Add(Xy(d)) == e;
      if back in Lefts(s) || back in Rights(s) {
        AheadOfHalf(rows, s, d, back);
        assert false;
      }
    } else {
      var seg := At(rows, c).segment;
      assert At(rows, c) == Box(seg) && seg == Right;
      var w := West1(c);
      assert East1(w) == c;
      Halves(rows, s, d, w);
      var back := w.Sub(Xy(d));
      assert back.Add(Xy(d)) == w;
      if back in Lefts(s) || back in Rights(s) {
        AheadOfHalf(rows, s, d, back);
        assert false;
      }
    }
  }

  /** A cell a moved Left segment lands on is paired after the move. */
  lemma LandedLeftReady(rows: seq<seq<WidePositionType>>, s: set<Pair>, d: Direction, c: IVec2)
    requires WellPaired(rows) && Vertical(d) && Closed(rows, s, d) && InBounds(rows, c)
    requires c.Sub(Xy(d)) in Lefts(s)
    ensures var r := Shift(rows, s, d);
      InBounds(r, c) && PairedAt(r, c) && At(r, c) != Wall && At(rows, c) != Wall
  {
    var r := Shift(rows, s, d);
    var back := c.Sub(Xy(d));
    assert back.Add(Xy(d)) == c;
    var e := East1(back);
    Halves(rows, s, d, back);
    AheadOfHalf(rows, s, d, back);
    Halves(rows, s, d, e);
    assert East1(c).Sub(Xy(d)) == e && e.Add(Xy(d)) == East1(c);
    AheadOfHalf(rows, s, d, e);
    assert At(r, East1(c)) == Box(Right);
  }

  /** A cell a moved Right segment lands on is paired after the move. */
  lemma LandedRightReady(rows: seq<seq<WidePositionType>>, s: set<Pair>, d: Direction, c: IVec2)
    requires WellPaired(rows) && Vertical(d) && Closed(rows, s, d) && InBounds(rows, c)
    requires c.Sub(Xy(d)) in Rights(s) && c.Sub(Xy(d)) !in Lefts(s)
    ensures var r := Shift(rows, s, d);
      InBounds(r, c) && PairedAt(r, c) && At(r, c) != Wall && At(rows, c) != Wall
  {
    var r := Shift(rows, s, d);
    var back := c.Sub(Xy(d));
    assert back.Add(Xy(d)) == c;
    var w := West1(back);
    assert East1(w) == back;
    Halves(rows, s, d, back);
    AheadOfHalf(rows, s, d, back);
    Halves(rows, s, d, w);
    assert West1(c).Sub(Xy(d)) == w && w.Add(Xy(d)) == West1(c);
    AheadOfHalf(rows, s, d, w);
    assert At(r, West1(c)) == Box(Left);
  }

  /** After the boxes of a movable set move, cell `c` is paired, and it is
      a wall exactly when it was one. */
  lemma ShiftedCellReady(rows: seq<seq<WidePositionType>>, s: set<Pair>, d: Direction, c: IVec2)
    requires WellPaired(rows) && Vertical(d) && Closed(rows, s, d) && InBounds(rows, c)
    ensures var r := Shift(rows, s, d);
      InBounds(r, c) && PairedAt(r, c) && (At(r, c) == Wall <==> At(rows, c) == Wall)
  {
    var r := Shift(rows, s, d);
    var back := c.Sub(Xy(d));
    assert back.Add(Xy(d)) == c;
    Halves(rows, s, d, back);
    Halves(rows, s, d, c);
    if back in Lefts(s) {
      LandedLeftReady(rows, s, d, c);
    } else if back in Rights(s) {
      LandedRightReady(rows, s, d, c);
    } else if c in Lefts(s) || c in Rights(s) {
    } else if At(rows, c).Box? {
      UntouchedPartner(rows, s, d, c);
    }
  }

  /** Moving a movable set that holds the box ahead of the robot keeps the
      invariant, with the robot one row on. */
  lemma ShiftKeepsReady(rows: seq<seq<WidePositionType>>, robot: IVec2, s: set<Pair>, d: Direction)
    requires Ready(rows, robot) && Vertical(d) && Closed(rows, s, d)
    requires robot.Add(Xy(d)) in Lefts(s) || robot.Add(Xy(d)) in Rights(s)
    ensures Ready(Shift(rows, s, d), robot.Add(Xy(d))) && SameWalls(rows, Shift(rows, s, d))
  {
    var r := Shift(rows, s, d);
    var next := robot.Add(Xy(d));
    forall c | InBounds(rows, c)
      ensures InBounds(r, c) && PairedAt(r, c) && (At(r, c) == Wall <==> At(rows, c) == Wall)
    {
      ShiftedCellReady(rows, s, d, c);
    }
    Halves(rows, s, d, robot);
    Halves(rows, s, d, next);
    assert next.Sub(Xy(d)) == robot;
    KeepsReady(rows, r, next);
  }

  /** A moved box lands intact one row on. */
  lemma MovedBoxLands(rows: seq<seq<WidePositionType>>, s: set<Pair>, d: Direction, f: Pair)
    requires WellPaired(rows) && Vertical(d) && Closed(rows, s, d) && f in s
    ensures IsBox(Shift(rows, s, d), (f.0.Add(Xy(d)), f.1.Add(Xy(d))))
  {
    var e := (f.0.Add(Xy(d)), f.1.Add(Xy(d)));
    assert e.0.Sub(Xy(d)) == f.0 && e.1.Sub(Xy(d)) == f.1;
    assert f.0 in Lefts(s) && f.1 in Rights(s);
    Halves(rows, s, d, f.1);
    AheadOfHalf(rows, s, d, f.0);
    AheadOfHalf(rows, s, d, f.1);
  }

  /** A box that does not move stays intact. */
  lemma StillBoxStays(rows: seq<seq<WidePositionType>>, s: set<Pair>, d: Direction, e: Pair)
    requires WellPaired(rows) && Vertical(d) && Closed(rows, s, d) && e !in s && IsBox(rows, e)
    ensures IsBox(Shift(rows, s, d), e)
  {
    var back := e.0.Sub(Xy(d));
    assert back.Add(Xy(d)) == e.0;
    Halves(rows, s, d, e.0);
    if back in Lefts(s) || back in Rights(s) {
      AheadOfHalf(rows, s, d, back);
    }
    assert Untouched(s, d, e.0);
    UntouchedPartner(rows, s, d, e.0);
  }

  /** Every box after the move is a moved one or one that did not move. */
  lemma ShiftedBoxOrigin(rows: seq<seq<WidePositionType>>, s: set<Pair>, d: Direction, e: Pair)
    requires WellPaired(rows) && Vertical(d) && Closed(rows, s, d) && IsBox(Shift(rows, s, d), e)
    ensures (e.0.Sub(Xy(d)), e.1.Sub(Xy(d))) in s || (e !in s && IsBox(rows, e))
  {
    var back := e.0.Sub(Xy(d));
    Halves(rows, s, d, back);
    Halves(rows, s, d, e.0);
    if back in Lefts(s) {
      assert East1(back) == e.1.Sub(Xy(d));
    } else {
      assert Untouched(s, d, e.0);
      UntouchedPartner(rows, s, d, e.0);
    }
  }

  /** The boxes after the move are the moved boxes one row on and the
      boxes that do not move, where they were. */
  lemma ShiftMovesBoxes(rows: seq<seq<WidePositionType>>, s: set<Pair>, d: Direction, e: Pair)
    requires WellPaired(rows) && Vertical(d) && Closed(rows, s, d)
    ensures IsBox(Shift(rows, s, d), e) <==> (e.0.Sub(Xy(d)), e.1.Sub(Xy(d))) in s || (e !in s && IsBox(rows, e))
  {
    var f := (e.0.Sub(Xy(d)), e.1.Sub(Xy(d)));
    if f in s {
      MovedBoxLands(rows, s, d, f);
      assert (f.0.Add(Xy(d)), f.1.Add(Xy(d))) == e;
    } else if e !in s && IsBox(rows, e) {
      StillBoxStays(rows, s, d, e);
    }
    if IsBox(Shift(rows, s, d), e) {
      ShiftedBoxOrigin(rows, s, d, e);
    }
  }

  /** The box ahead of the robot is among the boxes its push moves, and
      when nothing blocks them they can all move. */
  lemma FirstForced(rows: seq<seq<WidePositionType>>, robot: IVec2, d: Direction)
    requires Ready(rows, robot) && Vertical(d)
    requires InBounds(rows, robot.Add(Xy(d))) && At(rows, robot.Add(Xy(d))).Box?
    ensures var next := robot.Add(Xy(d));
      var first := BoxOf(next, At(rows, next).segment);
      && IsBox(rows, first) && first in Forced(rows, first, d)
      && (next in Lefts(Forced(rows, first, d)) || next in Rights(Forced(rows, first, d)))
  {
    var next := robot.Add(Xy(d));
    var first := BoxOf(next, At(rows, next).segment);
    BoxOfIsBox(rows, next);
    ReachedFirst(rows, first, d);
    ForcedMeaning(rows, first, d, first);
    assert first.0 in Lefts(Forced(rows, first, d)) && first.1 in Rights(Forced(rows, first, d));
  }

  /** The vertical push keeps the invariant: walls stay where they are,
      every box stays a pair, and the robot stands on an empty cell. */
  lemma VerticalKeepsReady(rows: seq<seq<WidePositionType>>, robot: IVec2, d: Direction)
    requires Ready(rows, robot) && Vertical(d)
    ensures var (rows', robot') := VerticalMove(rows, robot, d);
      Ready(rows', robot') && SameWalls(rows, rows')
  {
    var next := robot.Add(Xy(d));
    StepWithin(rows, robot, d);
    SameWallsItself(rows);
    if At(rows, next).Box? {
      var first := BoxOf(next, At(rows, next).segment);
      if !exists e :: Reached(rows, first, d, e) && Blocked(rows, e, d) {
        FirstForced(rows, robot, d);
        ForcedClosed(rows, first, d);
        ShiftKeepsReady(rows, robot, Forced(rows, first, d), d);
        assert VerticalMove(rows, robot, d) == (Shift(rows, Forced(rows, first, d), d), next);
      } else {
        assert VerticalMove(rows, robot, d) == (rows, robot);
      }
    } else if At(rows, next) == Empty {
      assert VerticalMove(rows, robot, d) == (rows, next);
    } else {
      assert VerticalMove(rows, robot, d) == (rows, robot);
    }
  }

  lemma SameWallsItself(rows: seq<seq<WidePositionType>>)
    ensures SameWalls(rows, rows)
  {
  }

  /** A vertical push either moves nothing, or moves the robot one row on,
      every box the search from the box ahead reaches one row on intact,
      and leaves every other box where it was. */
  lemma VerticalMovesBoxes(rows: seq<seq<WidePositionType>>, robot: IVec2, d: Direction, e: Pair)
    requires Ready(rows, robot) && Vertical(d)
    ensures var (rows', robot') := VerticalMove(rows, robot, d);
      var next := robot.Add(Xy(d));
      InBounds(rows, next) &&
      if At(rows, next).Box? && robot' == next then
        var moved := Forced(rows, BoxOf(next, At(rows, next).segment), d);
        IsBox(rows', e) <==> (e.0.Sub(Xy(d)), e.1.Sub(Xy(d))) in moved || (e !in moved && IsBox(rows, e))
      else rows' == rows
  {
    var next := robot.Add(Xy(d));
    StepWithin(rows, robot, d);
    if At(rows, next).Box? {
      var first := BoxOf(next, At(rows, next).segment);
      if !exists e :: Reached(rows, first, d, e) && Blocked(rows, e, d) {
        PushMovesBoxes(rows, robot, d, e);
      }
    }
  }

  /** An unblocked push moves the boxes the search reaches one row on and
      leaves every other box where it is. */
  lemma PushMovesBoxes(rows: seq<seq<WidePositionType>>, robot: IVec2, d: Direction, e: Pair)
    requires Ready(rows, robot) && Vertical(d)
    requires InBounds(rows, robot.Add(Xy(d))) && At(rows, robot.Add(Xy(d))).Box?
    requires var next := robot.Add(Xy(d));
      var first := BoxOf(next, At(rows, next).segment);
      !exists e :: Reached(rows, first, d, e) && Blocked(rows, e, d)
    ensures var next := robot.Add(Xy(d));
      var moved := Forced(rows, BoxOf(next, At(rows, next).segment), d);
      IsBox(Shift(rows, moved, d), e) <==> (e.0.Sub(Xy(d)), e.1.Sub(Xy(d))) in moved || (e !in moved && IsBox(rows, e))
  {
    var next := robot.Add(Xy(d));
    var first := BoxOf(next, At(rows, next).segment);
    FirstForced(rows, robot, d);
    ForcedClosed(rows, first, d);
    ShiftMovesBoxes(rows, Forced(rows, first, d), d, e);
  }

  /** A push is blocked exactly when a wall is ahead of one of the boxes it
      would move. */
  lemma BlockedMeaning(rows: seq<seq<WidePositionType>>, robot: IVec2, d: Direction)
    requires Ready(rows, robot) && Vertical(d)
    requires InBounds(rows, robot.Add(Xy(d))) && At(rows, robot.Add(Xy(d))).Box?
    ensures var next := robot.Add(Xy(d));
      var first := BoxOf(next, At(rows, next).segment);
      (exists e :: Reached(rows, first, d, e) && Blocked(rows, e, d)) <==> (exists e :: e in Forced(rows, first, d) && Blocked(rows, e, d))
  {
    var next := robot.Add(Xy(d));
    var first := BoxOf(next, At(rows, next).segment);
    BoxOfIsBox(rows, next);
    forall e
      ensures e in Forced(rows, first, d) <==> Reached(rows, first, d, e)
    {
      ForcedMeaning(rows, first, d, e);
    }
  }
}

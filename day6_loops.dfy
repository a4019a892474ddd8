/** Part 2 of src/bin/day6.rs: the number of cells on the guard's route,
    other than the start, where one new obstruction traps the guard in a
    loop. The guard's walk is replayed by jumps: from each stop it goes
    straight to the nearest obstruction ahead, looked up in a table built
    from two ordered sets of the obstructions, or to the new obstruction if
    that is nearer. A walk that meets the same obstruction from the same
    direction twice is a loop. */
module Day6Loops {
  import opened Wrappers
  import opened Text
  import opened Vectors
  import opened Seqs
  import opened Day6

  // The two orders of the ordered sets

  datatype Ordering = Less | Equal | Greater

  /** `Ord::cmp` on integers. */
  function Compare(a: int, b: int): (r: Ordering)
    ensures r == Equal <==> a == b
    ensures r == Less <==> a < b
  {
    if a < b then Less else if a == b then Equal else Greater
  }

  /** `XFirstIVec2` compares columns first and `YFirstIVec2` rows first. */
  datatype Order = XFirst | YFirst

  /** The `cmp` of the two wrappers: the first coordinate decides unless it
      is equal, and then the second does. */
  function Cmp(order: Order, a: IVec2, b: IVec2): (r: Ordering)
    ensures r == Equal <==> a == b
    ensures r == Less <==> match order
      case XFirst => a.x < b.x || (a.x == b.x && a.y < b.y)
      case YFirst => a.y < b.y || (a.y == b.y && a.x < b.x)
    ensures r == Greater <==> match order
      case XFirst => b.x < a.x || (b.x == a.x && b.y < a.y)
      case YFirst => b.y < a.y || (b.y == a.y && b.x < a.x)
  {
    match order
    case XFirst => (match Compare(a.x, b.x) case Equal => Compare(a.y, b.y) case other => other)
    case YFirst => (match Compare(a.y, b.y) case Equal => Compare(a.x, b.x) case other => other)
  }

  predicate Below(order: Order, a: IVec2, b: IVec2) {
    Cmp(order, a, b) == Less
  }

  /** Both orders are strict total orders. */
  lemma OrderTotal(order: Order, a: IVec2, b: IVec2, c: IVec2)
    ensures !Below(order, a, a)
    ensures a == b || Below(order, a, b) || Below(order, b, a)
    ensures Below(order, a, b) ==> !Below(order, b, a)
    ensures Below(order, a, b) && Below(order, b, c) ==> Below(order, a, c)
  {
  }

  // Range queries on the ordered sets

  /** `e` lies strictly between `lo` and `hi`, the bounds of a range with
      both ends excluded. */
  predicate Between(order: Order, lo: IVec2, hi: IVec2, e: IVec2) {
    Below(order, lo, e) && Below(order, e, hi)
  }

  /** `range((Excluded(lo), Excluded(hi))).next()`: the least member of `s`
      strictly between the bounds, or `None`. */
  ghost predicate IsFirst(s: set<IVec2>, order: Order, lo: IVec2, hi: IVec2, r: Option<IVec2>) {
    match r
    case None => forall e :: e in s ==> !Between(order, lo, hi, e)
    case Some(f) => f in s && Between(order, lo, hi, f) && forall e :: e in s && Between(order, lo, hi, e) ==> !Below(order, e, f)
  }

  /** `range((Excluded(lo), Excluded(hi))).last()`: the greatest one. */
  ghost predicate IsLast(s: set<IVec2>, order: Order, lo: IVec2, hi: IVec2, r: Option<IVec2>) {
    match r
    case None => forall e :: e in s ==> !Between(order, lo, hi, e)
    case Some(f) => f in s && Between(order, lo, hi, f) && forall e :: e in s && Between(order, lo, hi, e) ==> !Below(order, f, e)
  }

  /** The first member of a range, found by a scan of the set. */
  method RangeNext(s: set<IVec2>, order: Order, lo: IVec2, hi: IVec2) returns (r: Option<IVec2>)
    ensures IsFirst(s, order, lo, hi, r)
  {
    r := None;
    var rest := s;
    while rest != {}
      invariant rest <= s
      invariant IsFirst(s - rest, order, lo, hi, r)
      decreases rest
    {
      var e :| e in rest;
      if Between(order, lo, hi, e) && (r.None? || Below(order, e, r.value)) {
        forall e' | e' in s - rest && Between(order, lo, hi, e')
          ensures !Below(order, e', e)
        {
          OrderTotal(order, e', e, r.value);
        }
        r := Some(e);
      } else if r.Some? {
        OrderTotal(order, e, r.value, e);
      }
      rest := rest - {e};
    }
    assert s - rest == s;
  }

  /** The last member of a range, found by a scan of the set. */
  method RangeLast(s: set<IVec2>, order: Order, lo: IVec2, hi: IVec2) returns (r: Option<IVec2>)
    ensures IsLast(s, order, lo, hi, r)
  {
    r := None;
    var rest := s;
    while rest != {}
      invariant rest <= s
      invariant IsLast(s - rest, order, lo, hi, r)
      decreases rest
    {
      var e :| e in rest;
      if Between(order, lo, hi, e) && (r.None? || Below(order, r.value, e)) {
        forall e' | e' in s - rest && Between(order, lo, hi, e')
          ensures !Below(order, e, e')
        {
          OrderTotal(order, r.value, e, e');
        }
        r := Some(e);
      } else if r.Some? {
        OrderTotal(order, r.value, e, e);
      }
      rest := rest - {e};
    }
    assert s - rest == s;
  }

  // The nearest obstruction ahead

  /** `o` is strictly ahead of `p` facing `d`, on the same row or column:
      the test of the `new_obstruction_position` closure. */
  predicate Ahead(p: IVec2, d: Direction, o: IVec2) {
    match d
    case East => o.x > p.x && o.y == p.y
    case North => o.x == p.x && o.y < p.y
    case South => o.x == p.x && o.y > p.y
    case West => o.x < p.x && o.y == p.y
  }

  /** How many steps ahead `o` is. */
  function Distance(p: IVec2, d: Direction, o: IVec2): int {
    match d
    case East => o.x - p.x
    case North => p.y - o.y
    case South => o.y - p.y
    case West => p.x - o.x
  }

  /** `r` is the nearest member of `obstacles` ahead of `p` facing `d`, and
      `None` when there is none. */
  ghost predicate IsNearest(obstacles: set<IVec2>, p: IVec2, d: Direction, r: Option<IVec2>) {
    match r
    case None => forall o :: o in obstacles ==> !Ahead(p, d, o)
    case Some(o) =>
      && o in obstacles && Ahead(p, d, o)
      && forall o' :: o' in obstacles && Ahead(p, d, o') ==> Distance(p, d, o) <= Distance(p, d, o')
  }

  /** There is one nearest obstruction: two cells ahead at the same
      distance are the same cell. */
  lemma NearestUnique(obstacles: set<IVec2>, p: IVec2, d: Direction, r: Option<IVec2>, r': Option<IVec2>)
    requires IsNearest(obstacles, p, d, r) && IsNearest(obstacles, p, d, r')
    ensures r == r'
  {
    if r.Some? && r'.Some? {
      assert Distance(p, d, r.value) == Distance(p, d, r'.value);
    }
  }

  /** The first of a range is the nearest obstruction when the range holds
      the cells ahead and the order ranks them by distance. */
  lemma FirstNearest(s: set<IVec2>, order: Order, lo: IVec2, hi: IVec2, p: IVec2, d: Direction, r: Option<IVec2>)
    requires IsFirst(s, order, lo, hi, r)
    requires forall e :: e in s ==> (Between(order, lo, hi, e) <==> Ahead(p, d, e))
    requires forall e, e' :: e in s && e' in s && Ahead(p, d, e) && Ahead(p, d, e') ==>
      (Below(order, e', e) <==> Distance(p, d, e') < Distance(p, d, e))
    ensures IsNearest(s, p, d, r)
  {
  }

  /** The last of a range is the nearest when the order ranks the cells
      ahead by reverse distance. */
  lemma LastNearest(s: set<IVec2>, order: Order, lo: IVec2, hi: IVec2, p: IVec2, d: Direction, r: Option<IVec2>)
    requires IsLast(s, order, lo, hi, r)
    requires forall e :: e in s ==> (Between(order, lo, hi, e) <==> Ahead(p, d, e))
    requires forall e, e' :: e in s && e' in s && Ahead(p, d, e) && Ahead(p, d, e') ==>
      (Below(order, e, e') <==> Distance(p, d, e') < Distance(p, d, e))
    ensures IsNearest(s, p, d, r)
  {
  }

  /** Every obstruction lies in the lab. */
  ghost predicate Placed(lab: Lab, s: set<IVec2>) {
    forall o :: o in s ==> InBounds(lab, o)
  }

  /** One entry of `next_obstructions`: the range query for `d`. East and
      South take the first obstruction after `p` in its row or column,
      North and West the last one before it. */
  method NextObstructionFor(lab: Lab, obstructions: set<IVec2>, p: IVec2, d: Direction) returns (r: Option<IVec2>)
    requires Valid(lab) && Placed(lab, obstructions) && InBounds(lab, p)
    ensures IsNearest(obstructions, p, d, r)
  {
    match d
    case East =>
      var hi := IVec2(0, p.y + 1);
      r := RangeNext(obstructions, YFirst, p, hi);
      FirstNearest(obstructions, YFirst, p, hi, p, d, r);
    case North =>
      var lo := IVec2(p.x - 1, lab.rowCount - 1);
      r := RangeLast(obstructions, XFirst, lo, p);
      LastNearest(obstructions, XFirst, lo, p, p, d, r);
    case South =>
      var hi := IVec2(p.x + 1, 0);
      r := RangeNext(obstructions, XFirst, p, hi);
      FirstNearest(obstructions, XFirst, p, hi, p, d, r);
    case West =>
      var lo := IVec2(lab.colCount - 1, p.y - 1);
      r := RangeLast(obstructions, YFirst, lo, p);
      LastNearest(obstructions, YFirst, lo, p, p, d, r);
  }

  // The obstructions and the table

  /** The obstructions of the lab. */
  function Obstructions(lab: Lab): (s: set<IVec2>)
    requires Valid(lab)
    ensures forall p :: p in s <==> InBounds(lab, p) && Cell(lab, p) == Obstruction
  {
    set x: int, y: int | 0 <= y < lab.rowCount && 0 <= x < lab.colCount && lab.rows[y][x] == Obstruction :: IVec2(x, y)
  }

  /** `p` comes before column `x` of row `y` in reading order. */
  predicate Before(p: IVec2, x: int, y: int) {
    p.y < y || (p.y == y && p.x < x)
  }

  /** The obstructions collected before (x, y). */
  ghost predicate CollectedBefore(lab: Lab, s: set<IVec2>, x: int, y: int)
    requires Valid(lab)
  {
    forall p :: p in s <==> InBounds(lab, p) && Before(p, x, y) && Cell(lab, p) == Obstruction
  }

  /** The loops that fill the two ordered sets; both hold the same cells,
      so one set stands for both. */
  method CollectObstructions(lab: Lab) returns (s: set<IVec2>)
    requires Valid(lab)
    ensures s == Obstructions(lab)
  {
    s := {};
    for y := 0 to lab.rowCount
      invariant CollectedBefore(lab, s, 0, y)
    {
      for x := 0 to lab.colCount
        invariant CollectedBefore(lab, s, x, y)
      {
        if lab.rows[y][x] == Obstruction {
          s := s + {IVec2(x, y)};
        }
      }
    }
  }

  /** The table holds every direction at each empty cell before (x, y),
      each entry the nearest obstruction ahead. */
  ghost predicate TabledBefore(lab: Lab, obstructions: set<IVec2>, table: map<(IVec2, Direction), Option<IVec2>>, x: int, y: int)
    requires Valid(lab)
  {
    && (forall k :: k in table <==> InBounds(lab, k.0) && Before(k.0, x, y) && Cell(lab, k.0) == Empty)
    && forall k :: k in table ==> IsNearest(obstructions, k.0, k.1, table[k])
  }

  /** The finished `next_obstructions` table. */
  ghost predicate Table(lab: Lab, obstructions: set<IVec2>, table: map<(IVec2, Direction), Option<IVec2>>)
    requires Valid(lab)
  {
    && (forall k :: k in table <==> InBounds(lab, k.0) && Cell(lab, k.0) == Empty)
    && forall k :: k in table ==> IsNearest(obstructions, k.0, k.1, table[k])
  }

  /** The loops that fill `next_obstructions`: for each empty cell, one
      entry per direction. */
  method NextObstructions(lab: Lab, obstructions: set<IVec2>) returns (table: map<(IVec2, Direction), Option<IVec2>>)
    requires Valid(lab) && Placed(lab, obstructions)
    ensures Table(lab, obstructions, table)
  {
    table := map[];
    for y := 0 to lab.rowCount
      invariant TabledBefore(lab, obstructions, table, 0, y)
    {
      for x := 0 to lab.colCount
        invariant TabledBefore(lab, obstructions, table, x, y)
      {
        if lab.rows[y][x] == Empty {
          table := TableCell(lab, obstructions, table, IVec2(x, y));
        }
      }
    }
  }

  /** The entries of one empty cell, for `Direction::ALL` in turn. */
  method TableCell(lab: Lab, obstructions: set<IVec2>, table: map<(IVec2, Direction), Option<IVec2>>, p: IVec2)
    returns (table': map<(IVec2, Direction), Option<IVec2>>)
    requires Valid(lab) && Placed(lab, obstructions) && InBounds(lab, p)
    requires forall k :: k in table ==> IsNearest(obstructions, k.0, k.1, table[k])
    ensures forall k :: k in table' <==> k in table || k.0 == p
    ensures forall k :: k in table' ==> IsNearest(obstructions, k.0, k.1, table'[k])
  {
    table' := table;
    for i := 0 to 4
      invariant forall k :: k in table' <==> k in table || (k.0 == p && k.1 in ALL[..i])
      invariant forall k :: k in table' ==> IsNearest(obstructions, k.0, k.1, table'[k])
    {
      var d := ALL[i];
      var r := NextObstructionFor(lab, obstructions, p, d);
      table' := table'[(p, d) := r];
    }
    assert ALL[..4] == ALL;
    forall k: (IVec2, Direction) | k.0 == p
      ensures k in table'
    {
      AllDirections(k.1);
    }
  }

  /** `Direction::ALL` holds every direction. */
  lemma AllDirections(d: Direction)
    ensures d in ALL
  {
    match d
    case East => assert ALL[0] == East;
    case North => assert ALL[1] == North;
    case South => assert ALL[2] == South;
    case West => assert ALL[3] == West;
  }

  // The walk by jumps

  /** The `new_obstruction_position` closure: the candidate, when it is
      ahead of the guard. */
  function Candidate(cand: IVec2, g: Guard): (r: Option<IVec2>)
    ensures IsNearest({cand}, g.pos, g.dir, r)
  {
    if Ahead(g.pos, g.dir, cand) then Some(cand) else None
  }

  /** The match of the `next_obstruction` closure: whichever of the two
      stops is nearer in the guard's direction. */
  function Nearer(d: Direction, a: Option<IVec2>, b: Option<IVec2>): Option<IVec2> {
    match (a, b)
    case (None, None) => None
    case (None, Some(o)) => Some(o)
    case (Some(o), None) => Some(o)
    case (Some(a), Some(b)) => Some(match d
      case East => if a.x < b.x then a else b
      case North => if a.y > b.y then a else b
      case South => if a.y < b.y then a else b
      case West => if a.x > b.x then a else b)
  }

  /** The nearer of the nearest stops among two sets of obstructions is
      the nearest stop among both. */
  lemma NearerIsNearest(s: set<IVec2>, t: set<IVec2>, p: IVec2, d: Direction, a: Option<IVec2>, b: Option<IVec2>)
    requires IsNearest(s, p, d, a) && IsNearest(t, p, d, b)
    ensures IsNearest(s + t, p, d, Nearer(d, a, b))
  {
  }

  /** The `next_obstruction` closure: the stop from the guard with the
      candidate obstruction added. */
  function NextStop(table: map<(IVec2, Direction), Option<IVec2>>, cand: IVec2, g: Guard): (r: Option<IVec2>)
    requires (g.pos, g.dir) in table
    ensures forall s :: IsNearest(s, g.pos, g.dir, table[(g.pos, g.dir)]) ==> IsNearest(s + {cand}, g.pos, g.dir, r)
  {
    var r := Nearer(g.dir, table[(g.pos, g.dir)], Candidate(cand, g));
    assert forall s :: IsNearest(s, g.pos, g.dir, table[(g.pos, g.dir)]) ==> IsNearest(s + {cand}, g.pos, g.dir, r) by {
      forall s | IsNearest(s, g.pos, g.dir, table[(g.pos, g.dir)]) {
        NearerIsNearest(s, {cand}, g.pos, g.dir, table[(g.pos, g.dir)], Candidate(cand, g));
      }
    }
    r
  }

  /** A hit: the obstruction met and the direction the guard faced. */
  type Hit = (IVec2, Direction)

  /** Where the guard stands after a hit: on the cell before the
      obstruction, turned right. */
  function After(h: Hit): (g: Guard)
    ensures g.pos.Add(Xy(h.1)) == h.0 && g.dir == Next(h.1)
  {
    Guard(h.0.Sub(Xy(h.1)), Next(h.1))
  }

  /** The guard before hit `i`. */
  function GuardAt(start: Guard, hits: seq<Hit>, i: nat): Guard
    requires i <= |hits|
  {
    if i == 0 then start else After(hits[i - 1])
  }

  /** `hits` are the first hits of the walk from `start` among
      `obstacles`: each is the nearest obstruction ahead of the guard as
      the hit before it left the guard. */
  ghost predicate Chain(obstacles: set<IVec2>, start: Guard, hits: seq<Hit>) {
    forall i :: 0 <= i < |hits| ==> HitAt(obstacles, start, hits, i)
  }

  /** Hit `i` is the nearest obstruction ahead of the guard before it. */
  ghost predicate HitAt(obstacles: set<IVec2>, start: Guard, hits: seq<Hit>, i: nat)
    requires i < |hits|
  {
    var g := GuardAt(start, hits, i);
    hits[i].1 == g.dir && IsNearest(obstacles, g.pos, g.dir, Some(hits[i].0))
  }

  /** The walk meets some obstruction from the same direction twice. */
  ghost predicate Loops(obstacles: set<IVec2>, start: Guard) {
    exists hits :: Chain(obstacles, start, hits) && !Distinct(hits)
  }

  /** The walk runs off the lab after the hits `hits`. */
  ghost predicate LeavesAfter(obstacles: set<IVec2>, start: Guard, hits: seq<Hit>) {
    Chain(obstacles, start, hits) && IsNearest(obstacles, GuardAt(start, hits, |hits|).pos, GuardAt(start, hits, |hits|).dir, None)
  }

  /** The walk is determined: two chains agree where both are defined. */
  lemma {:induction false} ChainsAgree(obstacles: set<IVec2>, start: Guard, a: seq<Hit>, b: seq<Hit>, i: nat)
    requires Chain(obstacles, start, a) && Chain(obstacles, start, b) && i < |a| && i < |b|
    ensures a[i] == b[i]
  {
    if i > 0 {
      ChainsAgree(obstacles, start, a, b, i - 1);
    }
    var g := GuardAt(start, a, i);
    assert g == GuardAt(start, b, i);
    assert HitAt(obstacles, start, a, i) && HitAt(obstacles, start, b, i);
    NearestUnique(obstacles, g.pos, g.dir, Some(a[i].0), Some(b[i].0));
  }

  /** A walk that runs off the lab after distinct hits never loops. */
  lemma LeavingIsNoLoop(obstacles: set<IVec2>, start: Guard, hits: seq<Hit>)
    requires LeavesAfter(obstacles, start, hits) && Distinct(hits)
    ensures !Loops(obstacles, start)
  {
    if Loops(obstacles, start) {
      var c: seq<Hit> :| Chain(obstacles, start, c) && !Distinct(c);
      if |c| <= |hits| {
        var i, j :| 0 <= i < j < |c| && c[i] == c[j];
        ChainsAgree(obstacles, start, c, hits, i);
        ChainsAgree(obstacles, start, c, hits, j);
        assert false;
      } else {
        var n := |hits|;
        if n > 0 {
          ChainsAgree(obstacles, start, c, hits, n - 1);
        }
        var g := GuardAt(start, hits, n);
        assert g == GuardAt(start, c, n);
        assert HitAt(obstacles, start, c, n);
        NearestUnique(obstacles, g.pos, g.dir, None, Some(c[n].0));
        assert false;
      }
    }
  }

  /** One more hit extends a chain. */
  lemma ChainExtends(obstacles: set<IVec2>, start: Guard, hits: seq<Hit>, o: IVec2)
    requires Chain(obstacles, start, hits)
    requires IsNearest(obstacles, GuardAt(start, hits, |hits|).pos, GuardAt(start, hits, |hits|).dir, Some(o))
    ensures Chain(obstacles, start, hits + [(o, GuardAt(start, hits, |hits|).dir)])
  {
    var hits' := hits + [(o, GuardAt(start, hits, |hits|).dir)];
    forall i | 0 <= i < |hits'|
      ensures HitAt(obstacles, start, hits', i)
    {
      assert GuardAt(start, hits', i) == GuardAt(start, hits, i);
      if i < |hits| {
        assert HitAt(obstacles, start, hits, i);
      }
    }
  }

  /** A hit met a second time makes a loop. */
  lemma RepeatLoops(obstacles: set<IVec2>, start: Guard, hits: seq<Hit>, o: IVec2)
    requires Chain(obstacles, start, hits)
    requires IsNearest(obstacles, GuardAt(start, hits, |hits|).pos, GuardAt(start, hits, |hits|).dir, Some(o))
    requires (o, GuardAt(start, hits, |hits|).dir) in Elements(hits)
    ensures Loops(obstacles, start)
  {
    var h := (o, GuardAt(start, hits, |hits|).dir);
    ChainExtends(obstacles, start, hits, o);
    var i :| 0 <= i < |hits| && hits[i] == h;
    assert (hits + [h])[i] == (hits + [h])[|hits|];
  }

  /** Every pair of an obstacle and a direction. */
  ghost function Pairs(obstacles: set<IVec2>): (r: set<Hit>)
    ensures forall h: Hit :: h in r <==> h.0 in obstacles
  {
    var r := set o, d | o in obstacles && d in ALL :: (o, d);
    assert forall h: Hit :: h.0 in obstacles ==> h in r by {
      forall h: Hit | h.0 in obstacles
        ensures h in r
      {
        AllDirections(h.1);
      }
    }
    r
  }

  /** The state of the jump loop: the hits so far form a chain without a
      repeat, `seen` holds them, and the guard stands on an empty cell
      where the last hit left it. */
  ghost predicate Walking(lab: Lab, obstacles: set<IVec2>, start: Guard, hits: seq<Hit>, seen: set<Hit>, g: Guard)
    requires Valid(lab)
  {
    && Chain(obstacles, start, hits) && Distinct(hits) && seen == Elements(hits) && seen <= Pairs(obstacles)
    && g == GuardAt(start, hits, |hits|)
    && InBounds(lab, g.pos) && Cell(lab, g.pos) == Empty
  }

  /** Where the guard stops before an obstruction it meets from an empty
      cell: on an empty cell of the lab. */
  lemma StopIsEmpty(lab: Lab, obstacles: set<IVec2>, p: IVec2, d: Direction, o: IVec2)
    requires Valid(lab) && Placed(lab, obstacles) && Obstructions(lab) <= obstacles
    requires InBounds(lab, p) && Cell(lab, p) == Empty
    requires IsNearest(obstacles, p, d, Some(o))
    ensures InBounds(lab, o.Sub(Xy(d))) && Cell(lab, o.Sub(Xy(d))) == Empty
  {
    var q := o.Sub(Xy(d));
    if q != p {
      assert Ahead(p, d, q) && Distance(p, d, q) < Distance(p, d, o);
      assert q !in obstacles;
    }
  }

  /** A new hit moves the walk on: the guard stands before the obstruction,
      turned right. */
  lemma WalkOn(lab: Lab, obstacles: set<IVec2>, start: Guard, hits: seq<Hit>, seen: set<Hit>, g: Guard, o: IVec2)
    requires Valid(lab) && Placed(lab, obstacles) && Obstructions(lab) <= obstacles
    requires Walking(lab, obstacles, start, hits, seen, g)
    requires IsNearest(obstacles, g.pos, g.dir, Some(o)) && (o, g.dir) !in seen
    ensures Walking(lab, obstacles, start, hits + [(o, g.dir)], seen + {(o, g.dir)}, After((o, g.dir)))
  {
    var hits' := hits + [(o, g.dir)];
    ChainExtends(obstacles, start, hits, o);
    StopIsEmpty(lab, obstacles, g.pos, g.dir, o);
    assert Distinct(hits') by {
      assert (o, g.dir) !in Elements(hits);
    }
    assert Elements(hits') == Elements(hits) + {(o, g.dir)};
    assert GuardAt(start, hits', |hits'|) == After((o, g.dir));
  }

  /** The loop over one candidate: the guard jumps from stop to stop,
      recording each hit; a hit already recorded is a loop. */
  method LoopsWith(lab: Lab, obstructions: set<IVec2>, table: map<(IVec2, Direction), Option<IVec2>>, start: IVec2, cand: IVec2)
    returns (looped: bool)
    requires Valid(lab) && obstructions == Obstructions(lab) && Table(lab, obstructions, table)
    requires InBounds(lab, start) && Cell(lab, start) == Empty && InBounds(lab, cand)
    ensures looped <==> Loops(obstructions + {cand}, Guard(start, North))
  {
    ghost var obstacles := obstructions + {cand};
    ghost var g0 := Guard(start, North);
    var current, direction := start, North;
    var seen: set<Hit> := {};
    ghost var hits: seq<Hit> := [];
    var n := NextStop(table, cand, Guard(current, direction));
    looped := false;
    while n.Some?
      invariant Walking(lab, obstacles, g0, hits, seen, Guard(current, direction))
      invariant IsNearest(obstacles, current, direction, n)
      invariant !looped
      decreases Pairs(obstacles) - seen
    {
      var o := n.value;
      if (o, direction) in seen {
        RepeatLoops(obstacles, g0, hits, o);
        looped := true;
        break;
      }
      WalkOn(lab, obstacles, g0, hits, seen, Guard(current, direction), o);
      seen := seen + {(o, direction)};
      hits := hits + [(o, direction)];
      current := o.Sub(Xy(direction));
      direction := Next(direction);
      n := NextStop(table, cand, Guard(current, direction));
    }
    if !looped {
      LeavingIsNoLoop(obstacles, g0, hits);
    }
  }
}

/** What part 2 of src/bin/day6.rs counts. The jump walk of `Day6Loops`
    is the step walk of `visited_positions` seen from stop to stop: a
    walk that leaves the lab leaves after a chain of distinct hits, the
    chain that leaves is unique, and a walk that never leaves meets some
    hit twice. So a candidate counts exactly when the guard, stepping
    through the lab with that cell blocked, never leaves. */
module Day6Jumps {
  import opened Wrappers
  import opened Text
  import opened Vectors
  import opened Seqs
  import opened Day6
  import opened Day6Loops

  /** The lab with a new obstruction at `c`. */
  function Block(lab: Lab, c: IVec2): (r: Lab)
    requires Valid(lab) && InBounds(lab, c)
    ensures Valid(r) && r.colCount == lab.colCount && r.rowCount == lab.rowCount
    ensures forall p :: InBounds(lab, p) ==> Cell(r, p) == if p == c then Obstruction else Cell(lab, p)
    ensures Obstructions(r) == Obstructions(lab) + {c}
  {
    var r := lab.(rows := lab.rows[c.y := lab.rows[c.y][c.x := Obstruction]]);
    assert Obstructions(r) == Obstructions(lab) + {c};
    r
  }

  /** How many cells lie ahead of the guard before the edge of the lab. */
  function Room(lab: Lab, g: Guard): nat
    requires InBounds(lab, g.pos)
  {
    match g.dir
    case East => lab.colCount - 1 - g.pos.x
    case North => g.pos.y
    case South => lab.rowCount - 1 - g.pos.y
    case West => g.pos.x
  }

  /** Two guards facing the same way that see the same nearest
      obstruction. */
  ghost predicate SameView(obstacles: set<IVec2>, g: Guard, g': Guard) {
    g.dir == g'.dir && forall r :: IsNearest(obstacles, g.pos, g.dir, r) <==> IsNearest(obstacles, g'.pos, g'.dir, r)
  }

  // One step of the walk, seen by the jumps

  /** A step forward onto an empty cell leaves the nearest obstruction
      ahead as it was. */
  lemma ForwardSameView(lab: Lab, g: Guard)
    requires Valid(lab) && InBounds(lab, g.pos)
    requires Step(lab, g).Some? && Step(lab, g).value.pos != g.pos
    ensures SameView(Obstructions(lab), g, Step(lab, g).value)
  {
    var q, d, s := Step(lab, g).value.pos, g.dir, Obstructions(lab);
    assert q !in s;
    forall o | o in s
      ensures Ahead(g.pos, d, o) <==> Ahead(q, d, o)
      ensures Distance(g.pos, d, o) == Distance(q, d, o) + 1
    {
    }
    forall r
      ensures IsNearest(s, g.pos, d, r) <==> IsNearest(s, q, d, r)
    {
    }
  }

  /** A turn happens in front of the nearest obstruction. */
  lemma TurnHits(lab: Lab, g: Guard)
    requires Valid(lab) && InBounds(lab, g.pos)
    requires Step(lab, g).Some? && Step(lab, g).value.pos == g.pos
    ensures IsNearest(Obstructions(lab), g.pos, g.dir, Some(g.pos.Add(Xy(g.dir))))
  {
  }

  /** At the edge there is no obstruction ahead. */
  lemma EdgeClear(lab: Lab, g: Guard)
    requires Valid(lab) && InBounds(lab, g.pos) && Step(lab, g).None?
    ensures IsNearest(Obstructions(lab), g.pos, g.dir, None)
  {
  }

  // Chains

  /** Guards with the same view make the same chains. */
  lemma SameViewLeaves(obstacles: set<IVec2>, g: Guard, g': Guard, hits: seq<Hit>)
    requires SameView(obstacles, g, g')
    ensures LeavesAfter(obstacles, g, hits) <==> LeavesAfter(obstacles, g', hits)
  {
    forall i | 0 < i <= |hits|
      ensures GuardAt(g, hits, i) == GuardAt(g', hits, i)
    {
    }
    if |hits| > 0 {
      assert HitAt(obstacles, g, hits, 0) <==> HitAt(obstacles, g', hits, 0);
      assert Chain(obstacles, g, hits) <==> Chain(obstacles, g', hits) by {
        if Chain(obstacles, g, hits) {
          forall i | 0 <= i < |hits|
            ensures HitAt(obstacles, g', hits, i)
          {
            assert HitAt(obstacles, g, hits, i);
          }
        }
        if Chain(obstacles, g', hits) {
          forall i | 0 <= i < |hits|
            ensures HitAt(obstacles, g, hits, i)
          {
            assert HitAt(obstacles, g', hits, i);
          }
        }
      }
    }
  }

  /** A chain is its first hit followed by a chain from where that hit
      leaves the guard. */
  lemma LeavesCons(obstacles: set<IVec2>, g: Guard, h: Hit, rest: seq<Hit>)
    ensures LeavesAfter(obstacles, g, [h] + rest) <==>
      HitAt(obstacles, g, [h] + rest, 0) && LeavesAfter(obstacles, After(h), rest)
  {
    var hits := [h] + rest;
    forall i | 0 <= i <= |rest|
      ensures GuardAt(g, hits, i + 1) == GuardAt(After(h), rest, i)
    {
      if i > 0 {
        assert hits[i] == rest[i - 1];
      }
    }
    if Chain(obstacles, g, hits) {
      forall i | 0 <= i < |rest|
        ensures HitAt(obstacles, After(h), rest, i)
      {
        assert HitAt(obstacles, g, hits, i + 1);
      }
    }
    if HitAt(obstacles, g, hits, 0) && Chain(obstacles, After(h), rest) {
      forall i | 0 <= i < |hits|
        ensures HitAt(obstacles, g, hits, i)
      {
        if i > 0 {
          assert HitAt(obstacles, After(h), rest, i - 1);
        }
      }
    }
  }

  /** A walk that leaves the lab leaves after a chain of hits. */
  lemma {:induction false} ExitsToLeaves(lab: Lab, g: Guard, n: nat) returns (hits: seq<Hit>)
    requires Valid(lab) && InBounds(lab, g.pos) && ExitsWithin(lab, g, n)
    ensures LeavesAfter(Obstructions(lab), g, hits)
    decreases n
  {
    match Step(lab, g)
    case None =>
      EdgeClear(lab, g);
      hits := [];
    case Some(h) =>
      var rest := ExitsToLeaves(lab, h, n - 1);
      if h.pos != g.pos {
        ForwardSameView(lab, g);
        SameViewLeaves(Obstructions(lab), g, h, rest);
        hits := rest;
      } else {
        TurnHits(lab, g);
        var hit := (g.pos.Add(Xy(g.dir)), g.dir);
        hits := [hit] + rest;
        assert After(hit) == h;
        LeavesCons(Obstructions(lab), g, hit, rest);
      }
  }

  /** A chain that leaves is a walk that leaves the lab. */
  lemma {:induction false} LeavesToExits(lab: Lab, g: Guard, hits: seq<Hit>)
    requires Valid(lab) && InBounds(lab, g.pos) && LeavesAfter(Obstructions(lab), g, hits)
    ensures Exits(lab, g)
    decreases |hits|, Room(lab, g)
  {
    match Step(lab, g)
    case None =>
      assert ExitsWithin(lab, g, 1);
    case Some(h) =>
      if h.pos != g.pos {
        ForwardSameView(lab, g);
        SameViewLeaves(Obstructions(lab), g, h, hits);
        LeavesToExits(lab, h, hits);
        var n: nat :| ExitsWithin(lab, h, n);
        assert ExitsWithin(lab, g, n + 1);
      } else {
        TurnHits(lab, g);
        var o := g.pos.Add(Xy(g.dir));
        if hits == [] {
          assert false;
        } else {
          assert HitAt(Obstructions(lab), g, hits, 0);
          NearestUnique(Obstructions(lab), g.pos, g.dir, Some(hits[0].0), Some(o));
          assert hits == [hits[0]] + hits[1..];
          LeavesCons(Obstructions(lab), g, hits[0], hits[1..]);
          assert After(hits[0]) == h;
          LeavesToExits(lab, h, hits[1..]);
          var n: nat :| ExitsWithin(lab, h, n);
          assert ExitsWithin(lab, g, n + 1);
        }
      }
  }

  /** There is one chain that leaves. */
  lemma LeavingUnique(obstacles: set<IVec2>, g: Guard, a: seq<Hit>, b: seq<Hit>)
    requires LeavesAfter(obstacles, g, a) && LeavesAfter(obstacles, g, b) && |a| <= |b|
    ensures a == b
  {
    forall i | 0 <= i < |a|
      ensures a[i] == b[i]
    {
      ChainsAgree(obstacles, g, a, b, i);
    }
    if |a| < |b| {
      var n := |a|;
      assert GuardAt(g, a, n) == GuardAt(g, b, n);
      assert HitAt(obstacles, g, b, n);
      NearestUnique(obstacles, GuardAt(g, b, n).pos, GuardAt(g, b, n).dir, None, Some(b[n].0));
    }
  }

  /** What is left of a chain that leaves, after its first `k` hits, is a
      chain that leaves from where the `k`th hit left the guard. */
  lemma LeavingSuffix(obstacles: set<IVec2>, g: Guard, hits: seq<Hit>, k: nat)
    requires LeavesAfter(obstacles, g, hits) && k <= |hits|
    ensures LeavesAfter(obstacles, GuardAt(g, hits, k), hits[k..])
  {
    var g', rest := GuardAt(g, hits, k), hits[k..];
    forall i | 0 <= i <= |rest|
      ensures GuardAt(g', rest, i) == GuardAt(g, hits, k + i)
    {
      if i > 0 {
        assert rest[i - 1] == hits[k + i - 1];
      }
    }
    forall i | 0 <= i < |rest|
      ensures HitAt(obstacles, g', rest, i)
    {
      assert HitAt(obstacles, g, hits, k + i);
    }
  }

  /** A chain that leaves meets no hit twice. */
  lemma LeavingDistinct(obstacles: set<IVec2>, g: Guard, hits: seq<Hit>)
    requires LeavesAfter(obstacles, g, hits)
    ensures Distinct(hits)
  {
    forall i, j | 0 <= i < j < |hits|
      ensures hits[i] != hits[j]
    {
      if hits[i] == hits[j] {
        assert GuardAt(g, hits, i + 1) == GuardAt(g, hits, j + 1);
        LeavingSuffix(obstacles, g, hits, i + 1);
        LeavingSuffix(obstacles, g, hits, j + 1);
        LeavingUnique(obstacles, GuardAt(g, hits, i + 1), hits[j + 1..], hits[i + 1..]);
        assert false;
      }
    }
  }

  /** Some obstacle, or none, is nearest. */
  lemma {:induction false} NearestExists(obstacles: set<IVec2>, p: IVec2, d: Direction) returns (r: Option<IVec2>)
    ensures IsNearest(obstacles, p, d, r)
    decreases obstacles
  {
    if obstacles == {} {
      r := None;
    } else {
      var o :| o in obstacles;
      var r' := NearestExists(obstacles - {o}, p, d);
      var c := Candidate(o, Guard(p, d));
      NearerIsNearest(obstacles - {o}, {o}, p, d, r', c);
      assert obstacles - {o} + {o} == obstacles;
      r := Nearer(d, r', c);
    }
  }

  /** The jump walk either meets a hit twice or leaves: it has only
      finitely many hits to make. */
  lemma JumpOutcome(obstacles: set<IVec2>, start: Guard) returns (hits: seq<Hit>)
    ensures Loops(obstacles, start) || LeavesAfter(obstacles, start, hits)
  {
    hits := [];
    while true
      invariant Chain(obstacles, start, hits) && Distinct(hits) && Elements(hits) <= Pairs(obstacles)
      decreases Pairs(obstacles) - Elements(hits)
    {
      var g := GuardAt(start, hits, |hits|);
      var r := NearestExists(obstacles, g.pos, g.dir);
      if r.None? {
        return;
      }
      var h := (r.value, g.dir);
      if h in Elements(hits) {
        RepeatLoops(obstacles, start, hits, r.value);
        return;
      }
      ChainExtends(obstacles, start, hits, r.value);
      assert Distinct(hits + [h]) by {
        assert h !in Elements(hits);
      }
      assert Elements(hits + [h]) == Elements(hits) + {h};
      hits := hits + [h];
    }
  }

  /** The jump walk loops exactly when the step walk never leaves the
      lab. */
  lemma LoopsIffStuck(lab: Lab, g: Guard)
    requires Valid(lab) && InBounds(lab, g.pos)
    ensures Loops(Obstructions(lab), g) <==> !Exits(lab, g)
  {
    if Exits(lab, g) {
      var n :| ExitsWithin(lab, g, n);
      var hits := ExitsToLeaves(lab, g, n);
      LeavingDistinct(Obstructions(lab), g, hits);
      LeavingIsNoLoop(Obstructions(lab), g, hits);
    } else {
      var hits := JumpOutcome(Obstructions(lab), g);
      if !Loops(Obstructions(lab), g) {
        LeavesToExits(lab, g, hits);
      }
    }
  }

  // Counting the candidates

  /** A new obstruction at `c` keeps the guard from ever leaving. */
  ghost predicate Traps(lab: Lab, start: IVec2, c: IVec2)
    requires Valid(lab) && InBounds(lab, c)
  {
    !Exits(Block(lab, c), Guard(start, North))
  }

  /** The candidates among `cands` that trap the guard. */
  ghost function Trapping(lab: Lab, start: IVec2, cands: set<IVec2>): set<IVec2>
    requires Valid(lab) && Placed(lab, cands)
  {
    set c | c in cands && Traps(lab, start, c)
  }

  /** One more candidate counted. */
  lemma TrappingStep(lab: Lab, start: IVec2, done: set<IVec2>, c: IVec2, looped: bool)
    requires Valid(lab) && Placed(lab, done) && InBounds(lab, c) && c !in done
    requires looped <==> Traps(lab, start, c)
    ensures |Trapping(lab, start, done + {c})| == |Trapping(lab, start, done)| + if looped then 1 else 0
  {
    var before, after := Trapping(lab, start, done), Trapping(lab, start, done + {c});
    if looped {
      assert after == before + {c};
    } else {
      assert after == before;
    }
  }

  /** The loop over the candidates, in whatever order the hash set yields
      them. */
  method CountLoops(lab: Lab, obstructions: set<IVec2>, table: map<(IVec2, Direction), Option<IVec2>>, start: IVec2, cands: set<IVec2>)
    returns (count: nat)
    requires Valid(lab) && obstructions == Obstructions(lab) && Table(lab, obstructions, table)
    requires InBounds(lab, start) && Cell(lab, start) == Empty && Placed(lab, cands)
    ensures count == |Trapping(lab, start, cands)|
  {
    count := 0;
    var done: set<IVec2> := {};
    var rest := cands;
    NoneCounted(lab, start);
    while rest != {}
      invariant rest <= cands && done !! rest && done + rest == cands
      invariant Counted(lab, start, done, count)
      decreases rest
    {
      var c :| c in rest;
      count := CountOne(lab, obstructions, table, start, done, c, count);
      done := done + {c};
      rest := rest - {c};
    }
    assert done == cands;
  }

  /** `count` candidates among `done` trap the guard. */
  ghost predicate Counted(lab: Lab, start: IVec2, done: set<IVec2>, count: nat)
    requires Valid(lab)
  {
    Placed(lab, done) && count == |Trapping(lab, start, done)|
  }

  lemma NoneCounted(lab: Lab, start: IVec2)
    requires Valid(lab)
    ensures Counted(lab, start, {}, 0)
  {
    assert Trapping(lab, start, {}) == {};
  }

  /** One turn of the loop over the candidates. */
  method CountOne(lab: Lab, obstructions: set<IVec2>, table: map<(IVec2, Direction), Option<IVec2>>, start: IVec2,
                  ghost done: set<IVec2>, c: IVec2, count: nat)
    returns (count': nat)
    requires Valid(lab) && obstructions == Obstructions(lab) && Table(lab, obstructions, table)
    requires InBounds(lab, start) && Cell(lab, start) == Empty && InBounds(lab, c) && c !in done
    requires Counted(lab, start, done, count)
    ensures Counted(lab, start, done + {c}, count')
  {
    var looped := LoopsWith(lab, obstructions, table, start, c);
    LoopsIffStuck(Block(lab, c), Guard(start, North));
    TrappingStep(lab, start, done, c, looped);
    count' := if looped then count + 1 else count;
  }

  /** `part2`: the number of cells of the part 1 route, other than the
      start, where a new obstruction keeps the guard in the lab for
      ever. */
  method Part2(input: string) returns (r: Result<nat, LabError>)
    requires Escapes(input)
    ensures r.Ok? <==> FromLines(Lines(input)).Ok?
    ensures r.Err? ==> r.error == FromLines(Lines(input)).error
    ensures r.Ok? ==> var (lab, start) := FromLines(Lines(input)).value;
      && Placed(lab, Route(lab, Guard(start, North)))
      && r.value == |Trapping(lab, start, Route(lab, Guard(start, North)) - {start})|
  {
    var parsed := FromLines(Lines(input));
    if parsed.Err? {
      return Err(parsed.error);
    }
    var (lab, start) := parsed.value;
    var obstructions := CollectObstructions(lab);
    var table := NextObstructions(lab, obstructions);
    var visited := VisitedPositions(lab, start);
    RouteSafe(lab, start);
    visited := visited - {start};
    var count := CountLoops(lab, obstructions, table, start, visited);
    r := Ok(count);
  }
}

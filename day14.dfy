/** Day 14 of src/bin/day14.rs: robots move on a 101 × 103 torus. Part 1
    multiplies the robot counts of the four quadrants after 100 seconds;
    part 2 finds the first second at which the robots cluster. */
module Day14 {
  import opened Wrappers
  import opened Vectors
  import opened Digits

  const WIDTH: int := 101
  const HEIGHT: int := 103
  /** `MIDPOINT`: the column and row that belong to no quadrant. */
  const MID_X: int := WIDTH / 2
  const MID_Y: int := HEIGHT / 2

  datatype Robot = Robot(position: IVec2, velocity: IVec2)

  /** One second: add the velocity, then `rem_euclid` by the dimensions. */
  function Step(r: Robot): (s: Robot)
    ensures s.velocity == r.velocity
    ensures 0 <= s.position.x < WIDTH && 0 <= s.position.y < HEIGHT
    ensures (s.position.x - (r.position.x + r.velocity.x)) % WIDTH == 0
    ensures (s.position.y - (r.position.y + r.velocity.y)) % HEIGHT == 0
  {
    Robot(IVec2((r.position.x + r.velocity.x) % WIDTH, (r.position.y + r.velocity.y) % HEIGHT), r.velocity)
  }

  function StepAll(rs: seq<Robot>): (r: seq<Robot>)
    ensures |r| == |rs| && forall i :: 0 <= i < |rs| ==> r[i] == Step(rs[i])
  {
    seq(|rs|, i requires 0 <= i < |rs| => Step(rs[i]))
  }

  /** The robots after `t` seconds. */
  function After(rs: seq<Robot>, t: nat): (r: seq<Robot>)
    ensures |r| == |rs|
  {
    if t == 0 then rs else StepAll(After(rs, t - 1))
  }

  /** After `t` seconds a robot stands where `t` steps of its velocity take
      it, up to whole laps of the dimensions, and once it has moved it is
      on the grid: `(p + t·v) rem_euclid (101, 103)`. */
  lemma {:induction false} AfterClosedForm(rs: seq<Robot>, t: nat, i: nat) returns (kx: int, ky: int)
    requires i < |rs|
    ensures After(rs, t)[i].velocity == rs[i].velocity
    ensures After(rs, t)[i].position.x == rs[i].position.x + t * rs[i].velocity.x + kx * WIDTH
    ensures After(rs, t)[i].position.y == rs[i].position.y + t * rs[i].velocity.y + ky * HEIGHT
    ensures t >= 1 ==> 0 <= After(rs, t)[i].position.x < WIDTH && 0 <= After(rs, t)[i].position.y < HEIGHT
  {
    if t == 0 {
      kx, ky := 0, 0;
    } else {
      var kx', ky' := AfterClosedForm(rs, t - 1, i);
      var before := After(rs, t - 1)[i];
      var p, v := rs[i].position, rs[i].velocity;
      var sx, sy := before.position.x + v.x, before.position.y + v.y;
      assert After(rs, t)[i] == Step(before);
      assert sx == (sx / WIDTH) * WIDTH + sx % WIDTH;
      assert sy == (sy / HEIGHT) * HEIGHT + sy % HEIGHT;
      kx, ky := kx' - sx / WIDTH, ky' - sy / HEIGHT;
      assert p.x + (t - 1) * v.x + v.x == p.x + t * v.x;
      assert p.y + (t - 1) * v.y + v.y == p.y + t * v.y;
    }
  }

  /** The inner `for robot in &mut robots` loop: every robot steps, in place. */
  method StepRobots(a: array<Robot>)
    modifies a
    ensures a[..] == StepAll(old(a[..]))
  {
    var i := 0;
    while i < a.Length
      invariant 0 <= i <= a.Length
      invariant forall j :: 0 <= j < i ==> a[j] == Step(old(a[j]))
      invariant forall j :: i <= j < a.Length ==> a[j] == old(a[j])
    {
      a[i] := Step(a[i]);
      i := i + 1;
    }
  }

  datatype Quadrant = Northeast | Northwest | Southeast | Southwest

  const QUADRANTS: seq<Quadrant> := [Northeast, Northwest, Southeast, Southwest]

  /** The quadrant of a position, none on the middle column or row. */
  function QuadrantOf(p: IVec2): (q: Option<Quadrant>)
    ensures q.None? <==> p.x == MID_X || p.y == MID_Y
    ensures q == Some(Northwest) <==> p.x < MID_X && p.y < MID_Y
    ensures q == Some(Southwest) <==> p.x < MID_X && p.y > MID_Y
    ensures q == Some(Northeast) <==> p.x > MID_X && p.y < MID_Y
    ensures q == Some(Southeast) <==> p.x > MID_X && p.y > MID_Y
  {
    if p.x < MID_X && p.y < MID_Y then Some(Northwest)
    else if p.x < MID_X && p.y > MID_Y then Some(Southwest)
    else if p.x > MID_X && p.y < MID_Y then Some(Northeast)
    else if p.x > MID_X && p.y > MID_Y then Some(Southeast)
    else None
  }

  /** How many robots are in quadrant `q`. */
  function QuadrantCount(rs: seq<Robot>, q: Quadrant): nat {
    if rs == [] then 0
    else QuadrantCount(rs[..|rs| - 1], q) + if QuadrantOf(rs[|rs| - 1].position) == Some(q) then 1 else 0
  }

  /** How many robots are on the middle column or row. */
  function OnAxisCount(rs: seq<Robot>): nat {
    if rs == [] then 0
    else OnAxisCount(rs[..|rs| - 1]) + if QuadrantOf(rs[|rs| - 1].position).None? then 1 else 0
  }

  /** Every robot off the middle lines is in exactly one quadrant. */
  lemma {:induction false} QuadrantsPartition(rs: seq<Robot>)
    ensures QuadrantCount(rs, Northeast) + QuadrantCount(rs, Northwest) + QuadrantCount(rs, Southeast)
            + QuadrantCount(rs, Southwest) + OnAxisCount(rs) == |rs|
  {
    if rs != [] {
      QuadrantsPartition(rs[..|rs| - 1]);
    }
  }

  /** The safety factor: the product of the counts of the quadrants that hold
      a robot; an empty quadrant is absent from the map and adds no factor. */
  function SafetyFactor(rs: seq<Robot>): nat {
    FactorOver(rs, QUADRANTS)
  }

  /** The factor a quadrant adds: its count, or 1 when it is empty. */
  function QuadrantFactor(rs: seq<Robot>, q: Quadrant): (f: nat)
    ensures f >= 1
  {
    var c := QuadrantCount(rs, q);
    if c > 0 then c else 1
  }

  function FactorOver(rs: seq<Robot>, qs: seq<Quadrant>): nat {
    if qs == [] then 1
    else FactorOver(rs, qs[..|qs| - 1]) * QuadrantFactor(rs, qs[|qs| - 1])
  }

  /** The safety factor is never 0, and with no robot in any quadrant it is
      the empty product 1. */
  lemma {:induction false} FactorPositive(rs: seq<Robot>, qs: seq<Quadrant>)
    ensures FactorOver(rs, qs) >= 1
    ensures (forall i :: 0 <= i < |qs| ==> QuadrantCount(rs, qs[i]) == 0) ==> FactorOver(rs, qs) == 1
  {
    if qs != [] {
      var n := |qs| - 1;
      FactorPositive(rs, qs[..n]);
      assert forall i :: 0 <= i < n ==> qs[..n][i] == qs[i];
      MulPositive(FactorOver(rs, qs[..n]), QuadrantFactor(rs, qs[n]));
    }
  }

  lemma MulPositive(a: nat, b: nat)
    requires a >= 1 && b >= 1
    ensures a * b >= 1
  {
  }

  /** The counting loop over the robots into the `quadrants` map. */
  method CountQuadrants(a: array<Robot>) returns (quadrants: map<Quadrant, nat>)
    ensures forall q :: q in quadrants <==> QuadrantCount(a[..], q) > 0
    ensures forall q :: q in quadrants ==> quadrants[q] == QuadrantCount(a[..], q)
  {
    quadrants := map[];
    var i := 0;
    while i < a.Length
      invariant 0 <= i <= a.Length
      invariant forall q :: q in quadrants <==> QuadrantCount(a[..i], q) > 0
      invariant forall q :: q in quadrants ==> quadrants[q] == QuadrantCount(a[..i], q)
    {
      assert a[..i + 1][..i] == a[..i];
      var quadrant := QuadrantOf(a[i].position);
      if quadrant.Some? {
        var q := quadrant.value;
        quadrants := quadrants[q := (if q in quadrants then quadrants[q] else 0) + 1];
      }
      i := i + 1;
    }
    assert a[..i] == a[..];
  }

  /** `quadrants.values().product()`: the product does not depend on the
      order, so the keys are taken in the order of `QUADRANTS`. */
  method Product(rs: seq<Robot>, quadrants: map<Quadrant, nat>) returns (factor: nat)
    requires forall q :: q in quadrants <==> QuadrantCount(rs, q) > 0
    requires forall q :: q in quadrants ==> quadrants[q] == QuadrantCount(rs, q)
    ensures factor == SafetyFactor(rs)
  {
    factor := 1;
    var k := 0;
    while k < |QUADRANTS|
      invariant 0 <= k <= |QUADRANTS|
      invariant factor == FactorOver(rs, QUADRANTS[..k])
    {
      var q := QUADRANTS[k];
      assert QUADRANTS[..k + 1][..k] == QUADRANTS[..k];
      if q in quadrants {
        factor := factor * quadrants[q];
      }
      k := k + 1;
    }
    assert QUADRANTS[..k] == QUADRANTS;
  }

  /** `part1` on the parsed robots. */
  method Part1(robots: seq<Robot>) returns (factor: nat)
    ensures factor == SafetyFactor(After(robots, 100))
  {
    var a := new Robot[|robots|](i requires 0 <= i < |robots| => robots[i]);
    assert a[..] == robots;
    var t := 0;
    while t < 100
      invariant 0 <= t <= 100
      invariant a[..] == After(robots, t)
    {
      StepRobots(a);
      t := t + 1;
    }
    var quadrants := CountQuadrants(a);
    factor := Product(a[..], quadrants);
  }

  function DistanceSquared(a: IVec2, b: IVec2): nat {
    (a.x - b.x) * (a.x - b.x) + (a.y - b.y) * (a.y - b.y)
  }

  /** The summed squared distance from `p` to every robot. */
  function TotalDistance(p: IVec2, rs: seq<Robot>): nat {
    if rs == [] then 0 else TotalDistance(p, rs[..|rs| - 1]) + DistanceSquared(p, rs[|rs| - 1].position)
  }

  /** Robot `i` is near the others: its summed squared distance is below
      1000 per robot (see `MeanBelow` for the source's integer mean). */
  predicate NearOthers(rs: seq<Robot>, i: nat)
    requires i < |rs|
  {
    TotalDistance(rs[i].position, rs) < 1000 * |rs|
  }

  /** One of the first `k` robots is near the others. */
  predicate ClusteredAmong(rs: seq<Robot>, k: nat)
    requires k <= |rs|
  {
    k > 0 && (ClusteredAmong(rs, k - 1) || NearOthers(rs, k - 1))
  }

  /** The robots cluster: some robot is near the others. */
  predicate Clustered(rs: seq<Robot>) {
    ClusteredAmong(rs, |rs|)
  }

  /** The integer mean `total / n` is below 1000 exactly when `total` is
      below `1000 · n`. */
  lemma MeanBelow(total: nat, n: nat)
    requires n > 0
    ensures total / n < 1000 <==> total < 1000 * n
  {
    var q := total / n;
    assert total == q * n + total % n && total % n < n;
    if q < 1000 {
      MulMonotone(q + 1, 1000, n);
    } else {
      MulMonotone(1000, q, n);
    }
  }

  lemma {:induction false} ClusteredAmongExists(rs: seq<Robot>, k: nat)
    requires k <= |rs|
    ensures ClusteredAmong(rs, k) <==> exists i :: 0 <= i < k && NearOthers(rs, i)
  {
    if k > 0 {
      ClusteredAmongExists(rs, k - 1);
    }
  }

  /** The robots cluster exactly when some robot's integer mean squared
      distance to all the robots is below 1000. */
  lemma ClusteredIff(rs: seq<Robot>)
    ensures Clustered(rs) <==> exists i :: 0 <= i < |rs| && TotalDistance(rs[i].position, rs) / |rs| < 1000
  {
    ClusteredAmongExists(rs, |rs|);
    forall i | 0 <= i < |rs|
      ensures NearOthers(rs, i) <==> TotalDistance(rs[i].position, rs) / |rs| < 1000
    {
      MeanBelow(TotalDistance(rs[i].position, rs), |rs|);
    }
  }

  lemma {:induction false} ClusteredAmongGrows(rs: seq<Robot>, j: nat, k: nat)
    requires j <= k <= |rs| && ClusteredAmong(rs, j)
    ensures ClusteredAmong(rs, k)
    decreases k
  {
    if j < k {
      ClusteredAmongGrows(rs, j, k - 1);
    }
  }

  /** The `for robot in &robots` scan that breaks out on the first clustered
      robot. */
  method AnyClustered(a: array<Robot>) returns (found: bool)
    requires a.Length > 0
    ensures found <==> Clustered(a[..])
  {
    var i := 0;
    while i < a.Length
      invariant 0 <= i <= a.Length
      invariant !ClusteredAmong(a[..], i)
    {
      var total := TotalDistance(a[i].position, a[..]);
      MeanBelow(total, a.Length);
      if total / a.Length < 1000 {
        assert a[..][i] == a[i];
        assert ClusteredAmong(a[..], i + 1);
        ClusteredAmongGrows(a[..], i + 1, a.Length);
        return true;
      }
      i := i + 1;
    }
    found := false;
  }

  /** No second before `n` shows a cluster, counted down from `n`. */
  predicate CalmBefore(robots: seq<Robot>, n: nat) {
    n == 0 || (CalmBefore(robots, n - 1) && !Clustered(After(robots, n - 1)))
  }

  lemma {:induction false} CalmBeforeAll(robots: seq<Robot>, n: nat)
    requires CalmBefore(robots, n)
    ensures forall s: nat :: s < n ==> !Clustered(After(robots, s))
  {
    if n > 0 {
      CalmBeforeAll(robots, n - 1);
    }
  }

  /** A calm stretch ends no later than any clustered second. */
  lemma {:induction false} CalmBeforeBound(robots: seq<Robot>, n: nat, bound: nat)
    requires CalmBefore(robots, n) && Clustered(After(robots, bound))
    ensures n <= bound
  {
    if n > 0 {
      CalmBeforeBound(robots, n - 1, bound);
    }
  }

  /** One second of part 2's loop: the robots of second `t` move on to
      second `t + 1`. */
  method Tick(a: array<Robot>, ghost robots: seq<Robot>, ghost t: nat)
    requires a[..] == After(robots, t)
    modifies a
    ensures a[..] == After(robots, t + 1)
  {
    StepRobots(a);
  }

  /** `part2` on the parsed robots: the first second at which the robots
      cluster. The search is unbounded, so some second must cluster them. */
  method Part2(robots: seq<Robot>) returns (r: Result<nat, string>)
    requires robots != [] ==> exists t: nat :: Clustered(After(robots, t))
    ensures r.Err? <==> robots == []
    ensures r.Ok? ==> Clustered(After(robots, r.value))
    ensures r.Ok? ==> forall s: nat :: s < r.value ==> !Clustered(After(robots, s))
  {
    if robots == [] {
      return Err("Empty input detected.");
    }
    ghost var bound: nat :| Clustered(After(robots, bound));
    var a := new Robot[|robots|](i requires 0 <= i < |robots| => robots[i]);
    assert a[..] == robots;
    var seconds := 0;
    while true
      invariant seconds <= bound
      invariant a[..] == After(robots, seconds)
      invariant CalmBefore(robots, seconds)
      decreases bound - seconds
    {
      var found := AnyClustered(a);
      if found {
        CalmBeforeAll(robots, seconds);
        return Ok(seconds);
      }
      assert CalmBefore(robots, seconds + 1);
      CalmBeforeBound(robots, seconds + 1, bound);
      Tick(a, robots, seconds);
      seconds := seconds + 1;
    }
  }
}

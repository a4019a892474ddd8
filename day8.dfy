/** Day 8 of src/bin/day8.rs: antennas on a city grid, each tuned to an
    alphanumeric frequency. Two antennas of one frequency create antinodes on
    their line: part 1 the two points as far beyond each antenna as the
    antennas are apart, part 2 every grid point on the line at a whole
    multiple of that distance. The answer counts distinct antinodes. */
module Day8 {
  import opened Wrappers
  import opened Text
  import opened Vectors

  predicate IsAsciiAlphanumeric(c: char) {
    ('0' <= c <= '9') || ('A' <= c <= 'Z') || ('a' <= c <= 'z')
  }

  /** `Antenna::try_from`: only an ASCII alphanumeric is an antenna; any
      other character is an empty cell. */
  function AntennaOf(c: char): (r: Option<char>)
    ensures r.Some? <==> IsAsciiAlphanumeric(c)
    ensures r.Some? ==> r.value == c
  {
    if IsAsciiAlphanumeric(c) then Some(c) else None
  }

  datatype City = City(colCount: int, rows: seq<seq<Option<char>>>, rowCount: int)

  predicate ValidCity(city: City) {
    |city.rows| == city.rowCount > 0
    && forall y :: 0 <= y < |city.rows| ==> |city.rows[y]| == city.colCount
  }

  predicate Rectangular(lines: seq<string>) {
    forall y :: 0 <= y < |lines| ==> |lines[y]| == |lines[0]|
  }

  /** `City::from_iter`: each character becomes an optional antenna; an empty
      or ragged grid is refused (the source panics). */
  function BuildCity(lines: seq<string>): (r: Result<City, string>)
    ensures r.Ok? <==> lines != [] && Rectangular(lines)
    ensures lines == [] ==> r == Err("No rows in city.")
    ensures r.Ok? ==> ValidCity(r.value) && r.value.rowCount == |lines| && r.value.colCount == |lines[0]|
    ensures r.Ok? ==> forall y, x :: 0 <= y < |lines| && 0 <= x < |lines[y]| ==>
                        r.value.rows[y][x] == AntennaOf(lines[y][x])
  {
    if lines == [] then Err("No rows in city.")
    else if !Rectangular(lines) then Err("City rows are not all of equal length.")
    else
      var rows := seq(|lines|, y requires 0 <= y < |lines| =>
        seq(|lines[y]|, x requires 0 <= x < |lines[y]| => AntennaOf(lines[y][x])));
      Ok(City(|lines[0]|, rows, |lines|))
  }

  /** `City::in_bounds`. */
  predicate InBounds(city: City, p: IVec2) {
    p.MinElement() >= 0 && p.x < city.colCount && p.y < city.rowCount
  }

  /** The antenna at `p`, if `p` is a cell holding one. */
  function AntennaAt(city: City, p: IVec2): Option<char> {
    if 0 <= p.y < |city.rows| && 0 <= p.x < |city.rows[p.y]| then city.rows[p.y][p.x] else None
  }

  lemma InBoundsIsCell(city: City, p: IVec2)
    requires ValidCity(city)
    ensures InBounds(city, p) <==> 0 <= p.y < |city.rows| && 0 <= p.x < |city.rows[p.y]|
  {
  }

  /** Row-major order: by row, then by column. */
  predicate Before(p: IVec2, q: IVec2) {
    p.y < q.y || (p.y == q.y && p.x < q.x)
  }

  predicate RowMajor(ps: seq<IVec2>) {
    forall i, j :: 0 <= i < j < |ps| ==> Before(ps[i], ps[j])
  }

  /** The positions of frequency `a` among the first `n` cells of row `y`. */
  function RowPositions(row: seq<Option<char>>, y: int, a: char, n: nat): seq<IVec2>
    requires n <= |row|
  {
    if n == 0 then []
    else RowPositions(row, y, a, n - 1) + if row[n - 1] == Some(a) then [IVec2(n - 1, y)] else []
  }

  /** The positions of frequency `a` in the first `k` rows, row-major. */
  function GridPositions(rows: seq<seq<Option<char>>>, a: char, k: nat): seq<IVec2>
    requires k <= |rows|
  {
    if k == 0 then [] else GridPositions(rows, a, k - 1) + RowPositions(rows[k - 1], k - 1, a, |rows[k - 1]|)
  }

  function Positions(rows: seq<seq<Option<char>>>, a: char): seq<IVec2> {
    GridPositions(rows, a, |rows|)
  }

  lemma RowMajorAppend(ps: seq<IVec2>, qs: seq<IVec2>)
    requires RowMajor(ps) && RowMajor(qs)
    requires forall i, j :: 0 <= i < |ps| && 0 <= j < |qs| ==> Before(ps[i], qs[j])
    ensures RowMajor(ps + qs)
  {
  }

  lemma {:induction false} RowPositionsExact(row: seq<Option<char>>, y: int, a: char, n: nat)
    requires n <= |row|
    ensures forall q :: q in RowPositions(row, y, a, n) <==> q.y == y && 0 <= q.x < n && row[q.x] == Some(a)
    ensures RowMajor(RowPositions(row, y, a, n))
  {
    if n > 0 {
      RowPositionsExact(row, y, a, n - 1);
      var ps := RowPositions(row, y, a, n - 1);
      if row[n - 1] == Some(a) {
        RowMajorAppend(ps, [IVec2(n - 1, y)]);
      }
    }
  }

  lemma {:induction false} GridPositionsExact(rows: seq<seq<Option<char>>>, a: char, k: nat)
    requires k <= |rows|
    ensures forall q :: q in GridPositions(rows, a, k) <==>
      0 <= q.y < k && 0 <= q.x < |rows[q.y]| && rows[q.y][q.x] == Some(a)
    ensures RowMajor(GridPositions(rows, a, k))
  {
    if k > 0 {
      GridPositionsExact(rows, a, k - 1);
      RowPositionsExact(rows[k - 1], k - 1, a, |rows[k - 1]|);
      var ps, qs := GridPositions(rows, a, k - 1), RowPositions(rows[k - 1], k - 1, a, |rows[k - 1]|);
      forall i, j | 0 <= i < |ps| && 0 <= j < |qs|
        ensures Before(ps[i], qs[j])
      {
        assert ps[i] in ps && qs[j] in qs;
      }
      RowMajorAppend(ps, qs);
    }
  }

  /** The positions of a frequency are exactly the cells holding it, each
      once, in row-major order. */
  lemma PositionsExact(city: City, a: char)
    ensures forall q :: q in Positions(city.rows, a) <==> AntennaAt(city, q) == Some(a)
    ensures RowMajor(Positions(city.rows, a))
  {
    GridPositionsExact(city.rows, a, |city.rows|);
  }

  /** The frequencies present in the city. */
  function Frequencies(rows: seq<seq<Option<char>>>): set<char> {
    set y, x | 0 <= y < |rows| && 0 <= x < |rows[y]| && rows[y][x].Some? :: rows[y][x].value
  }

  lemma FrequenciesPresent(city: City, a: char)
    ensures a in Frequencies(city.rows) <==> Positions(city.rows, a) != []
  {
    PositionsExact(city, a);
    if a in Frequencies(city.rows) {
      var y, x :| 0 <= y < |city.rows| && 0 <= x < |city.rows[y]| && city.rows[y][x] == Some(a);
      assert AntennaAt(city, IVec2(x, y)) == Some(a);
    }
    if Positions(city.rows, a) != [] {
      var q := Positions(city.rows, a)[0];
      assert q in Positions(city.rows, a);
    }
  }

  /** The positions of frequency `a` in the cells before column `x` of
      row `y`. */
  function PositionsBefore(rows: seq<seq<Option<char>>>, a: char, y: nat, x: nat): seq<IVec2>
    requires y < |rows| && x <= |rows[y]|
  {
    GridPositions(rows, a, y) + RowPositions(rows[y], y, a, x)
  }

  /** `entry(antenna).or_default().push(position)` for an antenna cell; an
      empty cell leaves the map alone. */
  function Record(m: map<char, seq<IVec2>>, cell: Option<char>, position: IVec2): map<char, seq<IVec2>> {
    match cell
    case None => m
    case Some(antenna) => m[antenna := (if antenna in m then m[antenna] else []) + [position]]
  }

  /** `m` maps each frequency seen among the cells before column `x` of
      row `y` to its positions there, and holds no other key. */
  predicate ScannedTo(rows: seq<seq<Option<char>>>, y: nat, x: nat, m: map<char, seq<IVec2>>)
    requires y < |rows| && x <= |rows[y]|
  {
    forall a :: (a in m <==> PositionsBefore(rows, a, y, x) != [])
      && (a in m ==> m[a] == PositionsBefore(rows, a, y, x))
  }

  /** Recording one more cell keeps the entry of frequency `a` equal to its
      positions scanned so far. */
  lemma RecordOne(rows: seq<seq<Option<char>>>, y: nat, x: nat, m: map<char, seq<IVec2>>, a: char)
    requires y < |rows| && x < |rows[y]|
    requires (a in m <==> PositionsBefore(rows, a, y, x) != []) && (a in m ==> m[a] == PositionsBefore(rows, a, y, x))
    ensures var m' := Record(m, rows[y][x], IVec2(x, y));
      (a in m' <==> PositionsBefore(rows, a, y, x + 1) != []) && (a in m' ==> m'[a] == PositionsBefore(rows, a, y, x + 1))
  {
    var before := PositionsBefore(rows, a, y, x);
    var m' := Record(m, rows[y][x], IVec2(x, y));
    if rows[y][x] == Some(a) {
      assert PositionsBefore(rows, a, y, x + 1) == before + [IVec2(x, y)];
      assert m'[a] == (if a in m then m[a] else []) + [IVec2(x, y)];
    } else {
      assert PositionsBefore(rows, a, y, x + 1) == before + [];
      assert a in m' <==> a in m;
      assert a in m ==> m'[a] == m[a];
    }
  }

  lemma RecordStep(rows: seq<seq<Option<char>>>, y: nat, x: nat, m: map<char, seq<IVec2>>)
    requires y < |rows| && x < |rows[y]| && ScannedTo(rows, y, x, m)
    ensures ScannedTo(rows, y, x + 1, Record(m, rows[y][x], IVec2(x, y)))
  {
    forall a {
      RecordOne(rows, y, x, m, a);
    }
  }

  /** Before row `y` is scanned, the map is that of rows `0..y`. */
  lemma ScanStart(rows: seq<seq<Option<char>>>, y: nat, m: map<char, seq<IVec2>>)
    requires y < |rows|
    requires forall a :: (a in m <==> GridPositions(rows, a, y) != []) && (a in m ==> m[a] == GridPositions(rows, a, y))
    ensures ScannedTo(rows, y, 0, m)
  {
    forall a
      ensures PositionsBefore(rows, a, y, 0) == GridPositions(rows, a, y)
    {
      assert GridPositions(rows, a, y) + [] == GridPositions(rows, a, y);
    }
  }

  /** Once row `y` is scanned, the map is that of rows `0..y+1`. */
  lemma ScanEnd(rows: seq<seq<Option<char>>>, y: nat, m: map<char, seq<IVec2>>)
    requires y < |rows| && ScannedTo(rows, y, |rows[y]|, m)
    ensures forall a :: (a in m <==> GridPositions(rows, a, y + 1) != []) && (a in m ==> m[a] == GridPositions(rows, a, y + 1))
  {
    forall a
      ensures PositionsBefore(rows, a, y, |rows[y]|) == GridPositions(rows, a, y + 1)
    {
    }
  }

  /** The inner loop of `antenna_positions` over row `y`. */
  method ScanRow(city: City, y: nat, m0: map<char, seq<IVec2>>) returns (m: map<char, seq<IVec2>>)
    requires y < |city.rows|
    requires forall a :: (a in m0 <==> GridPositions(city.rows, a, y) != []) && (a in m0 ==> m0[a] == GridPositions(city.rows, a, y))
    ensures forall a :: (a in m <==> GridPositions(city.rows, a, y + 1) != []) && (a in m ==> m[a] == GridPositions(city.rows, a, y + 1))
  {
    m := m0;
    var row := city.rows[y];
    var x := 0;
    ScanStart(city.rows, y, m);
    while x < |row|
      invariant 0 <= x <= |row|
      invariant ScannedTo(city.rows, y, x, m)
    {
      RecordStep(city.rows, y, x, m);
      m := Record(m, row[x], IVec2(x, y));
      x := x + 1;
    }
    ScanEnd(city.rows, y, m);
  }

  /** `City::antenna_positions`: every frequency mapped to all its positions
      in row-major order. */
  method AntennaPositions(city: City) returns (m: map<char, seq<IVec2>>)
    ensures forall a :: a in m <==> Positions(city.rows, a) != []
    ensures forall a :: a in m ==> m[a] == Positions(city.rows, a)
  {
    m := map[];
    var y := 0;
    while y < |city.rows|
      invariant 0 <= y <= |city.rows|
      invariant forall a :: (a in m <==> GridPositions(city.rows, a, y) != []) && (a in m ==> m[a] == GridPositions(city.rows, a, y))
    {
      m := ScanRow(city, y, m);
      y := y + 1;
    }
  }

  /** Whole-line antinodes (part 2) or the two nearest ones (part 1). */
  datatype Rule = Nearest | Harmonic

  /** How many more steps of `d` from `p` can stay in the city: a bound that
      shrinks along a ray. */
  function RayMeasure(city: City, p: IVec2, d: IVec2): nat
    requires InBounds(city, p)
  {
    if d.x > 0 then city.colCount - p.x
    else if d.x < 0 then p.x + 1
    else if d.y > 0 then city.rowCount - p.y
    else p.y + 1
  }

  /** `iter::successors(Some(p), ..)`: `p`, then steps of `d` while they
      stay in the city. */
  function Ray(city: City, p: IVec2, d: IVec2): set<IVec2>
    requires InBounds(city, p) && d != IVec2(0, 0)
    decreases RayMeasure(city, p, d)
  {
    var next := p.Add(d);
    {p} + if InBounds(city, next) then Ray(city, next, d) else {}
  }

  /** One step `s` lies between `a` and `a + k·s` when `k >= 1`. */
  lemma StepBetween(a: int, s: int, k: nat, lo: int, hi: int)
    requires k >= 1 && lo <= a < hi && lo <= a + k * s < hi
    ensures lo <= a + s < hi
  {
    if s >= 0 {
      assert k * s >= s by { assert (k - 1) * s >= 0; }
    } else {
      assert k * s <= s by { assert (k - 1) * s <= 0; }
    }
  }

  /** Every point of a ray is a whole multiple of `d` away from `p`. */
  lemma {:induction false} RayStepsOut(city: City, p: IVec2, d: IVec2, q: IVec2)
    requires InBounds(city, p) && d != IVec2(0, 0) && q in Ray(city, p, d)
    ensures exists k: nat :: q == p.Add(d.Scale(k)) && InBounds(city, q)
    decreases RayMeasure(city, p, d)
  {
    var next := p.Add(d);
    if q == p {
      assert q == p.Add(d.Scale(0));
    } else {
      assert InBounds(city, next) && q in Ray(city, next, d);
      RayStepsOut(city, next, d, q);
      var k: nat :| q == next.Add(d.Scale(k)) && InBounds(city, q);
      ScaleSucc(d, k);
      assert q == p.Add(d.Scale(k + 1));
    }
  }

  /** Every in-city whole multiple of `d` away from `p` is on the ray. */
  lemma {:induction false} RayReaches(city: City, p: IVec2, d: IVec2, k: nat)
    requires InBounds(city, p) && d != IVec2(0, 0) && InBounds(city, p.Add(d.Scale(k)))
    ensures p.Add(d.Scale(k)) in Ray(city, p, d)
    decreases k
  {
    var q, next := p.Add(d.Scale(k)), p.Add(d);
    if k >= 1 {
      StepBetween(p.x, d.x, k, 0, city.colCount);
      StepBetween(p.y, d.y, k, 0, city.rowCount);
      assert InBounds(city, next);
      ScaleSucc(d, k - 1);
      assert q == next.Add(d.Scale(k - 1));
      RayReaches(city, next, d, k - 1);
    }
  }

  /** A ray holds exactly the whole multiples of `d` from `p` that lie in
      the city: the grid is convex, so the first point outside ends it. */
  lemma RayExact(city: City, p: IVec2, d: IVec2, q: IVec2)
    requires InBounds(city, p) && d != IVec2(0, 0)
    ensures q in Ray(city, p, d) <==> exists k: nat :: q == p.Add(d.Scale(k)) && InBounds(city, q)
  {
    if q in Ray(city, p, d) {
      RayStepsOut(city, p, d, q);
    }
    if exists k: nat :: q == p.Add(d.Scale(k)) && InBounds(city, q) {
      var k: nat :| q == p.Add(d.Scale(k)) && InBounds(city, q);
      RayReaches(city, p, d, k);
    }
  }

  /** The antinodes of one pair of antennas `a` and `b`. */
  function PairPoints(rule: Rule, city: City, a: IVec2, b: IVec2): set<IVec2>
    requires InBounds(city, a) && InBounds(city, b) && a != b
  {
    var diff := a.Sub(b);
    match rule
    case Nearest =>
      var beyondA, beyondB := a.Add(diff), b.Sub(diff);
      (if InBounds(city, beyondA) then {beyondA} else {}) + (if InBounds(city, beyondB) then {beyondB} else {})
    case Harmonic => Ray(city, a, diff) + Ray(city, b, diff.Neg())
  }

  /** The positions of one frequency: in the city and pairwise distinct. */
  predicate Antennas(city: City, ps: seq<IVec2>) {
    (forall i :: 0 <= i < |ps| ==> InBounds(city, ps[i]))
    && forall i, j :: 0 <= i < j < |ps| ==> ps[i] != ps[j]
  }

  /** A rule's antinodes of a pair, as a function value: the pair loops
      below are written for any such function. */
  function PairRule(rule: Rule, city: City): (IVec2, IVec2) --> set<IVec2> {
    (a: IVec2, b: IVec2) requires InBounds(city, a) && InBounds(city, b) && a != b => PairPoints(rule, city, a, b)
  }

  /** `points` can be applied to every pair `(ps[i], ps[j])` with `i < j`. */
  ghost predicate Defined(points: (IVec2, IVec2) --> set<IVec2>, ps: seq<IVec2>) {
    forall i, j :: 0 <= i < j < |ps| ==> points.requires(ps[i], ps[j])
  }

  lemma AntennasDefined(rule: Rule, city: City, ps: seq<IVec2>)
    requires Antennas(city, ps)
    ensures Defined(PairRule(rule, city), ps)
  {
  }

  /** The points of the pairs `(i, k)` with `i < k < j`. */
  function RowPoints(points: (IVec2, IVec2) --> set<IVec2>, ps: seq<IVec2>, i: nat, j: nat): set<IVec2>
    requires Defined(points, ps) && i < |ps| && j <= |ps|
  {
    if j <= i + 1 then {} else RowPoints(points, ps, i, j - 1) + points(ps[i], ps[j - 1])
  }

  /** The points of the pairs whose first index is below `i`. */
  function PointsBelow(points: (IVec2, IVec2) --> set<IVec2>, ps: seq<IVec2>, i: nat): set<IVec2>
    requires Defined(points, ps) && i <= |ps|
  {
    if i == 0 then {} else PointsBelow(points, ps, i - 1) + RowPoints(points, ps, i - 1, |ps|)
  }

  lemma {:induction false} RowPointsExact(points: (IVec2, IVec2) --> set<IVec2>, ps: seq<IVec2>, i: nat, j: nat, p: IVec2)
    requires Defined(points, ps) && i < |ps| && j <= |ps|
    ensures p in RowPoints(points, ps, i, j) <==> exists k :: i < k < j && p in points(ps[i], ps[k])
  {
    if j > i + 1 {
      RowPointsExact(points, ps, i, j - 1, p);
      if p in points(ps[i], ps[j - 1]) {
        assert i < j - 1 < j;
      }
    }
  }

  /** A point of the pairs with first index below `i` comes from one of
      them. */
  lemma {:induction false} PointsBelowFrom(points: (IVec2, IVec2) --> set<IVec2>, ps: seq<IVec2>, i: nat, p: IVec2)
    requires Defined(points, ps) && i <= |ps| && p in PointsBelow(points, ps, i)
    ensures exists i', k :: 0 <= i' < i && i' < k < |ps| && p in points(ps[i'], ps[k])
  {
    if p in PointsBelow(points, ps, i - 1) {
      PointsBelowFrom(points, ps, i - 1, p);
    } else {
      RowPointsExact(points, ps, i - 1, |ps|, p);
    }
  }

  /** Every pair with first index below `i` contributes its points. */
  lemma {:induction false} PointsBelowHas(points: (IVec2, IVec2) --> set<IVec2>, ps: seq<IVec2>, i: nat, i': nat, k: nat, p: IVec2)
    requires Defined(points, ps) && i <= |ps| && i' < i && i' < k < |ps|
    requires p in points(ps[i'], ps[k])
    ensures p in PointsBelow(points, ps, i)
  {
    if i' < i - 1 {
      PointsBelowHas(points, ps, i - 1, i', k, p);
    } else {
      RowPointsExact(points, ps, i', |ps|, p);
    }
  }

  /** The inner pair loop: the pairs `(i, j)` with `j > i`. */
  method AddRow(points: (IVec2, IVec2) --> set<IVec2>, ps: seq<IVec2>, i: nat, acc: set<IVec2>) returns (r: set<IVec2>)
    requires Defined(points, ps) && i < |ps|
    ensures r == acc + RowPoints(points, ps, i, |ps|)
  {
    r := acc;
    var j := i + 1;
    while j < |ps|
      invariant i + 1 <= j <= |ps|
      invariant r == acc + RowPoints(points, ps, i, j)
    {
      r := r + points(ps[i], ps[j]);
      j := j + 1;
    }
  }

  /** The two nested pair loops for one frequency, extending `acc`. */
  method AddFrequency(points: (IVec2, IVec2) --> set<IVec2>, ps: seq<IVec2>, acc: set<IVec2>) returns (r: set<IVec2>)
    requires Defined(points, ps)
    ensures r == acc + PointsBelow(points, ps, |ps|)
  {
    r := acc;
    var i := 0;
    while i < |ps|
      invariant 0 <= i <= |ps|
      invariant r == acc + PointsBelow(points, ps, i)
    {
      r := AddRow(points, ps, i, r);
      i := i + 1;
    }
  }

  /** The antinodes of every frequency. */
  function Antinodes(rule: Rule, city: City): set<IVec2> {
    set a, p | a in Frequencies(city.rows) && Antennas(city, Positions(city.rows, a))
                 && p in PointsBelow(PairRule(rule, city), Positions(city.rows, a), |Positions(city.rows, a)|) :: p
  }

  lemma PositionsAreAntennas(city: City, a: char)
    requires ValidCity(city)
    ensures Antennas(city, Positions(city.rows, a))
  {
    PositionsExact(city, a);
    var ps := Positions(city.rows, a);
    forall i | 0 <= i < |ps|
      ensures InBounds(city, ps[i])
    {
      assert ps[i] in ps;
    }
  }

  /** Both parts' loops over the frequencies, in whatever order the map
      yields them; frequencies with one antenna form no pair. */
  method CollectAntinodes(rule: Rule, city: City) returns (r: set<IVec2>)
    requires ValidCity(city)
    ensures r == Antinodes(rule, city)
  {
    var m := AntennaPositions(city);
    var points := PairRule(rule, city);
    var remaining := m.Keys;
    r := {};
    while remaining != {}
      invariant remaining <= m.Keys
      invariant r == Collected(rule, city, m, m.Keys - remaining)
      decreases remaining
    {
      var a :| a in remaining;
      PositionsAreAntennas(city, a);
      AntennasDefined(rule, city, m[a]);
      CollectedStep(rule, city, m, m.Keys - remaining, a);
      assert m.Keys - (remaining - {a}) == (m.Keys - remaining) + {a};
      if |m[a]| > 1 {
        r := AddFrequency(points, m[a], r);
      }
      remaining := remaining - {a};
    }
    AntinodesOfMap(rule, city, m);
  }

  /** The antinodes of the frequencies in `keys`, whose positions `m`
      holds. */
  function Collected(rule: Rule, city: City, m: map<char, seq<IVec2>>, keys: set<char>): set<IVec2> {
    set a, p | a in keys && a in m && Antennas(city, m[a]) && p in PointsBelow(PairRule(rule, city), m[a], |m[a]|) :: p
  }

  lemma CollectedStep(rule: Rule, city: City, m: map<char, seq<IVec2>>, keys: set<char>, a: char)
    requires a in m && Antennas(city, m[a])
    ensures Collected(rule, city, m, keys + {a})
            == Collected(rule, city, m, keys) + PointsBelow(PairRule(rule, city), m[a], |m[a]|)
  {
    var points := PairRule(rule, city);
    var before, after := Collected(rule, city, m, keys), Collected(rule, city, m, keys + {a});
    forall p | p in after
      ensures p in before || p in PointsBelow(points, m[a], |m[a]|)
    {
      var b :| b in keys + {a} && b in m && Antennas(city, m[b]) && p in PointsBelow(points, m[b], |m[b]|);
      if b != a {
        assert p in before;
      }
    }
    assert after == before + PointsBelow(points, m[a], |m[a]|);
  }

  /** The frequencies' antinodes, collected over the keys of the antenna
      map, are the city's antinodes. */
  lemma AntinodesOfMap(rule: Rule, city: City, m: map<char, seq<IVec2>>)
    requires forall a :: a in m <==> Positions(city.rows, a) != []
    requires forall a :: a in m ==> m[a] == Positions(city.rows, a)
    ensures Collected(rule, city, m, m.Keys) == Antinodes(rule, city)
  {
    var points := PairRule(rule, city);
    var collected := Collected(rule, city, m, m.Keys);
    forall p | p in Antinodes(rule, city)
      ensures p in collected
    {
      var a :| a in Frequencies(city.rows) && Antennas(city, Positions(city.rows, a))
        && p in PointsBelow(points, Positions(city.rows, a), |Positions(city.rows, a)|);
      FrequenciesPresent(city, a);
      assert a in m.Keys && m[a] == Positions(city.rows, a);
    }
    forall p | p in collected
      ensures p in Antinodes(rule, city)
    {
      var a :| a in m.Keys && a in m && Antennas(city, m[a]) && p in PointsBelow(points, m[a], |m[a]|);
      FrequenciesPresent(city, a);
    }
    assert collected == Antinodes(rule, city);
  }

  /** `p` is an antinode of antenna `q1` on the side away from `q2`: one
      step of `q1 - q2` beyond `q1` (part 1), or any whole number of steps
      from `q1` itself (part 2). */
  ghost predicate Beyond(rule: Rule, q1: IVec2, q2: IVec2, p: IVec2) {
    match rule
    case Nearest => p == q1.Add(q1.Sub(q2))
    case Harmonic => exists k: nat :: p == q1.Add(q1.Sub(q2).Scale(k))
  }

  /** A pair's antinodes are the in-bounds points beyond either antenna. */
  lemma PairPointsExact(rule: Rule, city: City, a: IVec2, b: IVec2, p: IVec2)
    requires InBounds(city, a) && InBounds(city, b) && a != b
    ensures p in PairPoints(rule, city, a, b) <==> InBounds(city, p) && (Beyond(rule, a, b, p) || Beyond(rule, b, a, p))
  {
    var diff := a.Sub(b);
    assert b.Sub(diff) == b.Add(b.Sub(a));
    assert diff.Neg() == b.Sub(a);
    if rule == Harmonic {
      RayExact(city, a, diff, p);
      RayExact(city, b, diff.Neg(), p);
    }
  }

  /** Two distinct antennas of the same frequency. */
  predicate SameFrequency(city: City, q1: IVec2, q2: IVec2) {
    q1 != q2 && AntennaAt(city, q1).Some? && AntennaAt(city, q1) == AntennaAt(city, q2)
  }

  /** Every antinode lies beyond one of two antennas of one frequency. */
  lemma AntinodeSource(rule: Rule, city: City, p: IVec2)
    requires ValidCity(city) && p in Antinodes(rule, city)
    ensures InBounds(city, p)
    ensures exists q1, q2 :: SameFrequency(city, q1, q2) && Beyond(rule, q1, q2, p)
  {
    var points := PairRule(rule, city);
    var a :| a in Frequencies(city.rows) && Antennas(city, Positions(city.rows, a))
      && p in PointsBelow(points, Positions(city.rows, a), |Positions(city.rows, a)|);
    var ps := Positions(city.rows, a);
    PointsBelowFrom(points, ps, |ps|, p);
    var i, k :| 0 <= i < |ps| && i < k < |ps| && p in points(ps[i], ps[k]);
    PairPointsExact(rule, city, ps[i], ps[k], p);
    PositionsExact(city, a);
    assert ps[i] in ps && ps[k] in ps;
    if !Beyond(rule, ps[i], ps[k], p) {
      assert SameFrequency(city, ps[k], ps[i]) && Beyond(rule, ps[k], ps[i], p);
    } else {
      assert SameFrequency(city, ps[i], ps[k]);
    }
  }

  /** Every in-bounds point beyond one of two antennas of one frequency is
      an antinode. */
  lemma AntinodeOfPair(rule: Rule, city: City, q1: IVec2, q2: IVec2, p: IVec2)
    requires ValidCity(city) && InBounds(city, p)
    requires SameFrequency(city, q1, q2) && Beyond(rule, q1, q2, p)
    ensures p in Antinodes(rule, city)
  {
    var points := PairRule(rule, city);
    var a := AntennaAt(city, q1).value;
    var ps := Positions(city.rows, a);
    PositionsExact(city, a);
    PositionsAreAntennas(city, a);
    FrequenciesPresent(city, a);
    var i1 :| 0 <= i1 < |ps| && ps[i1] == q1;
    var i2 :| 0 <= i2 < |ps| && ps[i2] == q2;
    PairPointsExact(rule, city, q1, q2, p);
    PairPointsExact(rule, city, q2, q1, p);
    if i1 < i2 {
      PointsBelowHas(points, ps, |ps|, i1, i2, p);
    } else {
      PointsBelowHas(points, ps, |ps|, i2, i1, p);
    }
  }

  /** The antinodes of the city, cell by cell: the in-bounds points beyond
      one of two distinct antennas of the same frequency. */
  lemma AntinodesExact(rule: Rule, city: City, p: IVec2)
    requires ValidCity(city)
    ensures p in Antinodes(rule, city) <==>
      InBounds(city, p) && exists q1, q2 :: SameFrequency(city, q1, q2) && Beyond(rule, q1, q2, p)
  {
    if p in Antinodes(rule, city) {
      AntinodeSource(rule, city, p);
    }
    if InBounds(city, p) && exists q1, q2 :: SameFrequency(city, q1, q2) && Beyond(rule, q1, q2, p) {
      var q1, q2 :| SameFrequency(city, q1, q2) && Beyond(rule, q1, q2, p);
      AntinodeOfPair(rule, city, q1, q2, p);
    }
  }

  /** Part 1's antinodes are among part 2's. */
  lemma NearestAreHarmonic(city: City)
    requires ValidCity(city)
    ensures Antinodes(Nearest, city) <= Antinodes(Harmonic, city)
  {
    forall p | p in Antinodes(Nearest, city)
      ensures p in Antinodes(Harmonic, city)
    {
      AntinodesExact(Nearest, city, p);
      AntinodesExact(Harmonic, city, p);
      var q1, q2 :| SameFrequency(city, q1, q2) && Beyond(Nearest, q1, q2, p);
      assert p == q1.Add(q1.Sub(q2).Scale(1));
    }
  }

  /** In part 2 an antenna sharing its frequency with another is itself an
      antinode. */
  lemma AntennaIsHarmonic(city: City, q1: IVec2, q2: IVec2)
    requires ValidCity(city)
    requires SameFrequency(city, q1, q2)
    ensures q1 in Antinodes(Harmonic, city)
  {
    assert q1 == q1.Add(q1.Sub(q2).Scale(0));
    AntinodeOfPair(Harmonic, city, q1, q2, q1);
  }

  /** Both parts: build the city, count the distinct antinodes. */
  method CountAntinodes(rule: Rule, input: string) returns (r: Result<nat, string>)
    ensures r.Ok? <==> BuildCity(Lines(input)).Ok?
    ensures r.Ok? ==> r.value == |Antinodes(rule, BuildCity(Lines(input)).value)|
  {
    var built := BuildCity(Lines(input));
    if built.Err? {
      return Err(built.error);
    }
    var antinodes := CollectAntinodes(rule, built.value);
    r := Ok(|antinodes|);
  }

  /** `part1`. */
  method Part1(input: string) returns (r: Result<nat, string>)
    ensures r.Ok? <==> BuildCity(Lines(input)).Ok?
    ensures r.Ok? ==> r.value == |Antinodes(Nearest, BuildCity(Lines(input)).value)|
  {
    r := CountAntinodes(Nearest, input);
  }

  /** `part2`. */
  method Part2(input: string) returns (r: Result<nat, string>)
    ensures r.Ok? <==> BuildCity(Lines(input)).Ok?
    ensures r.Ok? ==> r.value == |Antinodes(Harmonic, BuildCity(Lines(input)).value)|
  {
    r := CountAntinodes(Harmonic, input);
  }
}

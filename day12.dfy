/** Day 12 of src/bin/day12.rs: a square garden of plots, each marked with a
    plant character. A region is a maximal set of same-plant plots joined
    through their four neighbours; its price is its area times its
    perimeter (part 1) or times its number of sides (part 2). This module
    holds the map and the definitions of regions, fences and the regions the
    two scans visit. */
module Day12 {
  import opened Wrappers
  import opened Vectors
  import opened Seqs

  const EMPTY_PANIC := "No rows in garden."
  const SQUARE_PANIC := "All gardens should be square."
  const RAGGED_PANIC := "Plot rows are not all of equal length."

  datatype GardenMap = GardenMap(colCount: nat, rows: seq<seq<char>>, rowCount: nat)

  /** A map the constructor accepts: at least one row, as many rows as the
      first row is long, and every row that long. */
  predicate Valid(m: GardenMap) {
    && |m.rows| == m.rowCount > 0 && m.colCount == m.rowCount
    && forall y :: 0 <= y < |m.rows| ==> |m.rows[y]| == m.colCount
  }

  /** `GardenMap::from_iter`: an empty grid, a grid whose first row is not as
      long as the grid is high, and a ragged grid panic in that order; the
      panics are errors here. Every character is a plot. */
  function FromLines(lines: seq<string>): (r: Result<GardenMap, string>)
    ensures r.Ok? <==> |lines| > 0 && |lines[0]| == |lines| && forall y :: 0 <= y < |lines| ==> |lines[y]| == |lines|
    ensures r.Err? ==> r.error == (if |lines| == 0 then EMPTY_PANIC
      else if |lines[0]| != |lines| then SQUARE_PANIC else RAGGED_PANIC)
    ensures r.Ok? ==> Valid(r.value) && r.value.rows == lines
  {
    if |lines| == 0 then Err(EMPTY_PANIC)
    else if |lines| != |lines[0]| then Err(SQUARE_PANIC)
    else if exists y :: 1 <= y < |lines| && |lines[y]| != |lines[0]| then Err(RAGGED_PANIC)
    else Ok(GardenMap(|lines[0]|, lines, |lines|))
  }

  predicate InBounds(m: GardenMap, p: IVec2) {
    p.MinElement() >= 0 && p.x < m.colCount && p.y < m.rowCount
  }

  function Plot(m: GardenMap, p: IVec2): char
    requires Valid(m) && InBounds(m, p)
  {
    m.rows[p.y][p.x]
  }

  function Cells(m: GardenMap): (r: set<IVec2>)
    ensures forall p :: p in r <==> InBounds(m, p)
  {
    var r := set x: int, y: int | 0 <= x < m.colCount && 0 <= y < m.rowCount :: IVec2(x, y);
    assert forall p :: InBounds(m, p) ==> IVec2(p.x, p.y) in r;
    r
  }

  datatype Direction = East | North | South | West

  /** `Direction::ALL`. */
  const ALL := [East, North, South, West]

  function Xy(d: Direction): IVec2 {
    match d
    case East => IVec2(1, 0)
    case North => IVec2(0, -1)
    case South => IVec2(0, 1)
    case West => IVec2(-1, 0)
  }

  /** The four neighbours, in the order of `ALL`; they are distinct, and
      being neighbours is symmetric. */
  function Neighbours(p: IVec2): (r: seq<IVec2>)
    ensures |r| == 4 && forall i :: 0 <= i < 4 ==> r[i] == p.Add(Xy(ALL[i]))
    ensures forall i, j :: 0 <= i < j < 4 ==> r[i] != r[j]
  {
    [p.Add(Xy(East)), p.Add(Xy(North)), p.Add(Xy(South)), p.Add(Xy(West))]
  }

  lemma NeighboursSymmetric(p: IVec2, q: IVec2)
    requires q in Neighbours(p)
    ensures p in Neighbours(q)
  {
  }

  // Regions

  /** A step to a neighbour in the map with the same plant. */
  predicate SamePlot(m: GardenMap, p: IVec2, q: IVec2)
    requires Valid(m)
  {
    InBounds(m, p) && InBounds(m, q) && q in Neighbours(p) && Plot(m, q) == Plot(m, p)
  }

  /** A walk that keeps to one plant. */
  ghost predicate Path(m: GardenMap, t: seq<IVec2>)
    requires Valid(m)
  {
    && |t| >= 1 && (forall i :: 0 <= i < |t| ==> InBounds(m, t[i]))
    && forall i :: 0 <= i < |t| - 1 ==> SamePlot(m, t[i], t[i + 1])
  }

  ghost predicate Joined(m: GardenMap, s: IVec2, p: IVec2)
    requires Valid(m)
  {
    exists t :: Path(m, t) && t[0] == s && t[|t| - 1] == p
  }

  /** The region of `s`: the cells joined to it. */
  ghost function Region(m: GardenMap, s: IVec2): set<IVec2>
    requires Valid(m)
  {
    set p | p in Cells(m) && Joined(m, s, p)
  }

  /** No same-plant step leads out of `r`. */
  ghost predicate Closed(m: GardenMap, r: set<IVec2>)
    requires Valid(m)
  {
    forall p, q :: p in r && SamePlot(m, p, q) ==> q in r
  }

  lemma JoinedSelf(m: GardenMap, s: IVec2)
    requires Valid(m) && InBounds(m, s)
    ensures Joined(m, s, s) && s in Region(m, s)
  {
    assert Path(m, [s]);
  }

  lemma JoinedStep(m: GardenMap, s: IVec2, p: IVec2, q: IVec2)
    requires Valid(m) && Joined(m, s, p) && SamePlot(m, p, q)
    ensures Joined(m, s, q)
  {
    var t :| Path(m, t) && t[0] == s && t[|t| - 1] == p;
    var t' := t + [q];
    forall i | 0 <= i < |t'| - 1
      ensures SamePlot(m, t'[i], t'[i + 1])
    {
      if i < |t| - 1 {
        assert t'[i] == t[i] && t'[i + 1] == t[i + 1];
      }
    }
    assert Path(m, t');
  }

  /** A region is closed under same-plant steps. */
  lemma RegionClosed(m: GardenMap, s: IVec2)
    requires Valid(m)
    ensures Closed(m, Region(m, s))
  {
    forall p, q | p in Region(m, s) && SamePlot(m, p, q)
      ensures q in Region(m, s)
    {
      JoinedStep(m, s, p, q);
    }
  }

  /** A closed set holding `s` holds its whole region. */
  lemma ClosedHoldsRegion(m: GardenMap, r: set<IVec2>, s: IVec2)
    requires Valid(m) && Closed(m, r) && s in r
    ensures Region(m, s) <= r
  {
    forall p | p in Region(m, s)
      ensures p in r
    {
      var t :| Path(m, t) && t[0] == s && t[|t| - 1] == p;
      PathInside(m, r, t, |t| - 1);
    }
  }

  lemma {:induction false} PathInside(m: GardenMap, r: set<IVec2>, t: seq<IVec2>, i: nat)
    requires Valid(m) && Closed(m, r) && Path(m, t) && t[0] in r && i < |t|
    ensures t[i] in r
    decreases i
  {
    if i > 0 {
      PathInside(m, r, t, i - 1);
      assert SamePlot(m, t[i - 1], t[i]);
    }
  }

  /** Joining is symmetric: a walk can be retraced. */
  lemma JoinedBack(m: GardenMap, s: IVec2, p: IVec2)
    requires Valid(m) && Joined(m, s, p)
    ensures Joined(m, p, s)
  {
    var t :| Path(m, t) && t[0] == s && t[|t| - 1] == p;
    var b := seq(|t|, i requires 0 <= i < |t| => t[|t| - 1 - i]);
    forall i | 0 <= i < |b| - 1
      ensures SamePlot(m, b[i], b[i + 1])
    {
      var j := |t| - 2 - i;
      assert b[i] == t[j + 1] && b[i + 1] == t[j];
      assert SamePlot(m, t[j], t[j + 1]);
      NeighboursSymmetric(t[j], t[j + 1]);
    }
    assert Path(m, b);
  }

  /** Every member of a region has that region: regions are the classes of
      an equivalence. */
  lemma RegionOfMember(m: GardenMap, s: IVec2, c: IVec2)
    requires Valid(m) && c in Region(m, s)
    ensures Region(m, c) == Region(m, s)
  {
    RegionClosed(m, s);
    RegionClosed(m, c);
    JoinedSelf(m, c);
    ClosedHoldsRegion(m, Region(m, s), c);
    JoinedBack(m, s, c);
    JoinedSelf(m, s);
    assert s in Region(m, c);
    ClosedHoldsRegion(m, Region(m, c), s);
  }

  /** All cells of a region share its seed's plant. */
  lemma RegionPlot(m: GardenMap, s: IVec2, p: IVec2)
    requires Valid(m) && InBounds(m, s) && p in Region(m, s)
    ensures Plot(m, p) == Plot(m, s)
  {
    var same := set q | q in Cells(m) && Plot(m, q) == Plot(m, s);
    assert Closed(m, same);
    ClosedHoldsRegion(m, same, s);
  }

  // Fences

  /** A fence on side `d` of `p`: the neighbour there is off the map or
      holds another plant. */
  predicate Fence(m: GardenMap, p: IVec2, d: Direction)
    requires Valid(m)
  {
    var q := p.Add(Xy(d));
    InBounds(m, p) && (!InBounds(m, q) || Plot(m, q) != Plot(m, p))
  }

  /** A perimeter section: a cell and the side facing out of its region. */
  type Section = (IVec2, Direction)

  /** The fenced sides of the cells of `r`: their number is the perimeter. */
  ghost function Fences(m: GardenMap, r: set<IVec2>): set<Section>
    requires Valid(m)
  {
    set p, d | p in r && d in ALL && Fence(m, p, d) :: (p, d)
  }

  /** The fenced sides of `p` among the first `k` directions of `ALL`. */
  ghost function FencesAt(m: GardenMap, p: IVec2, k: nat): (r: set<Section>)
    requires Valid(m) && k <= 4
    ensures forall f :: f in r <==> f.0 == p && f.1 in ALL[..k] && Fence(m, p, f.1)
  {
    if k == 0 then {}
    else
      assert ALL[..k] == ALL[..k - 1] + [ALL[k - 1]];
      FencesAt(m, p, k - 1) + if Fence(m, p, ALL[k - 1]) then {(p, ALL[k - 1])} else {}
  }

  /** The fences of one direction more. */
  lemma FencesAtStep(m: GardenMap, p: IVec2, k: nat)
    requires Valid(m) && k < 4
    ensures |FencesAt(m, p, k + 1)| == |FencesAt(m, p, k)| + if Fence(m, p, ALL[k]) then 1 else 0
  {
    assert ALL[k] !in ALL[..k];
  }

  /** Adding a cell adds its own fences. */
  lemma FencesAdd(m: GardenMap, r: set<IVec2>, p: IVec2)
    requires Valid(m) && p !in r
    ensures Fences(m, r + {p}) == Fences(m, r) + FencesAt(m, p, 4)
    ensures |Fences(m, r + {p})| == |Fences(m, r)| + |FencesAt(m, p, 4)|
  {
    assert ALL[..4] == ALL;
    var a, b, c := Fences(m, r), FencesAt(m, p, 4), Fences(m, r + {p});
    forall f | f in c
      ensures f in a + b
    {
      if f.0 != p {
        assert f in a;
      }
    }
    forall f | f in a + b
      ensures f in c
    {
      if f in a {
        assert f.0 in r;
      }
    }
    assert a * b == {};
  }

  /** A region has at least one fence: walking east from its seed inside
      the region ends at a fence. */
  lemma RegionFenced(m: GardenMap, s: IVec2)
    requires Valid(m) && InBounds(m, s)
    ensures Fences(m, Region(m, s)) != {}
  {
    JoinedSelf(m, s);
    RegionClosed(m, s);
    FenceEastward(m, Region(m, s), s);
  }

  lemma {:induction false} FenceEastward(m: GardenMap, r: set<IVec2>, p: IVec2)
    requires Valid(m) && Closed(m, r) && p in r && InBounds(m, p)
    ensures Fences(m, r) != {}
    decreases m.colCount - p.x
  {
    if Fence(m, p, East) {
      assert (p, East) in Fences(m, r);
    } else {
      var q := p.Add(Xy(East));
      assert SamePlot(m, p, q);
      FenceEastward(m, r, q);
    }
  }

  // The scan: the cells in reading order, each one not yet covered seeding
  // its region

  /** The cells a scan of rows of width `w` visits before column `x` of row
      `y`: the rows above in reading order, then row `y` left of `x`. */
  function ScannedBefore(w: nat, y: nat, x: nat): seq<IVec2>
    decreases y, x
  {
    if x > 0 then ScannedBefore(w, y, x - 1) + [IVec2(x - 1, y)]
    else if y == 0 then []
    else ScannedBefore(w, y - 1, w)
  }

  lemma {:induction false} ScannedHolds(w: nat, y: nat, x: nat, p: IVec2)
    requires 0 <= p.x < w && 0 <= p.y
    requires p.y < y || (p.y == y && p.x < x)
    ensures p in ScannedBefore(w, y, x)
    decreases y, x
  {
    if x > 0 {
      if p != IVec2(x - 1, y) {
        ScannedHolds(w, y, x - 1, p);
      }
    } else {
      ScannedHolds(w, y - 1, w, p);
    }
  }

  /** The order of the nested `for` loops over rows and plots; it holds
      every cell. */
  function ReadingOrder(m: GardenMap): seq<IVec2> {
    ScannedBefore(m.colCount, m.rowCount, 0)
  }

  /** The cells in the regions of the cells of `cells`: `visited_positions`
      once they have been scanned. */
  ghost function Covered(m: GardenMap, cells: seq<IVec2>): set<IVec2>
    requires Valid(m)
  {
    if cells == [] then {} else Covered(m, cells[..|cells| - 1]) + Region(m, cells[|cells| - 1])
  }

  /** The cells of `cells` that start a region: those not covered by the
      regions of the cells before them. */
  ghost function Seeds(m: GardenMap, cells: seq<IVec2>): seq<IVec2>
    requires Valid(m)
  {
    if cells == [] then []
    else
      var init, c := cells[..|cells| - 1], cells[|cells| - 1];
      Seeds(m, init) + if c in Covered(m, init) then [] else [c]
  }

  /** A covered cell brings no new cells. */
  lemma CoveredMember(m: GardenMap, cells: seq<IVec2>, c: IVec2)
    requires Valid(m) && c in Covered(m, cells)
    ensures Region(m, c) <= Covered(m, cells)
    decreases |cells|
  {
    var init, last := cells[..|cells| - 1], cells[|cells| - 1];
    if c in Region(m, last) {
      RegionOfMember(m, last, c);
    } else {
      CoveredMember(m, init, c);
    }
  }

  /** `c` is in the region of one of `seeds`. */
  ghost predicate InSomeRegion(m: GardenMap, seeds: seq<IVec2>, c: IVec2)
    requires Valid(m)
  {
    exists i :: 0 <= i < |seeds| && c in Region(m, seeds[i])
  }

  /** The covered cells are the cells of the seeds' regions. */
  lemma {:induction false} CoveredBySeeds(m: GardenMap, cells: seq<IVec2>)
    requires Valid(m)
    ensures forall c :: c in Covered(m, cells) <==> InSomeRegion(m, Seeds(m, cells), c)
    decreases |cells|
  {
    if cells != [] {
      var init, last := cells[..|cells| - 1], cells[|cells| - 1];
      CoveredBySeeds(m, init);
      var seeds, seeds' := Seeds(m, init), Seeds(m, cells);
      if last in Covered(m, init) {
        CoveredMember(m, init, last);
        assert Covered(m, cells) == Covered(m, init) && seeds' == seeds;
      } else {
        assert seeds' == seeds + [last];
        forall c | c in Covered(m, cells)
          ensures InSomeRegion(m, seeds', c)
        {
          if c in Region(m, last) {
            assert seeds'[|seeds|] == last;
          } else {
            var i :| 0 <= i < |seeds| && c in Region(m, seeds[i]);
            assert seeds'[i] == seeds[i];
          }
        }
        forall c | InSomeRegion(m, seeds', c)
          ensures c in Covered(m, cells)
        {
          var i :| 0 <= i < |seeds'| && c in Region(m, seeds'[i]);
          if i < |seeds| {
            assert seeds'[i] == seeds[i];
            assert InSomeRegion(m, seeds, c);
          }
        }
      }
    }
  }

  /** A new seed's region has no covered cell. */
  lemma NewSeedApart(m: GardenMap, cells: seq<IVec2>, s: IVec2, c: IVec2)
    requires Valid(m) && s !in Covered(m, cells) && c in Region(m, s)
    ensures c !in Covered(m, cells)
  {
    if c in Covered(m, cells) {
      CoveredMember(m, cells, c);
      RegionOfMember(m, s, c);
      JoinedSelf(m, s);
      assert false;
    }
  }

  /** The regions of the seeds `seeds` are pairwise disjoint. */
  ghost predicate Apart(m: GardenMap, seeds: seq<IVec2>)
    requires Valid(m)
  {
    forall i, j, c :: 0 <= i < j < |seeds| && c in Region(m, seeds[i]) ==> c !in Region(m, seeds[j])
  }

  /** The regions of different seeds have no cell in common. */
  lemma {:induction false} SeedsDisjoint(m: GardenMap, cells: seq<IVec2>)
    requires Valid(m)
    ensures Apart(m, Seeds(m, cells))
    decreases |cells|
  {
    if cells != [] {
      var init, last := cells[..|cells| - 1], cells[|cells| - 1];
      SeedsDisjoint(m, init);
      if last !in Covered(m, init) {
        CoveredBySeeds(m, init);
        FreshSeedApart(m, init, last);
      }
    }
  }

  lemma FreshSeedApart(m: GardenMap, init: seq<IVec2>, last: IVec2)
    requires Valid(m) && Apart(m, Seeds(m, init)) && last !in Covered(m, init)
    requires forall c :: c in Covered(m, init) <==> InSomeRegion(m, Seeds(m, init), c)
    ensures Apart(m, Seeds(m, init) + [last])
  {
    var seeds := Seeds(m, init);
    var seeds' := seeds + [last];
    forall i, j, c | 0 <= i < j < |seeds'| && c in Region(m, seeds'[i])
      ensures c !in Region(m, seeds'[j])
    {
      assert seeds'[i] == seeds[i];
      if j == |seeds| {
        assert seeds'[j] == last;
        assert InSomeRegion(m, seeds, c);
        if c in Region(m, last) {
          NewSeedApart(m, init, last, c);
          assert false;
        }
      } else {
        assert seeds'[j] == seeds[j];
      }
    }
  }

  /** Every cell of the garden is in the region of some seed of the scan
      ... */
  lemma EachCellSomeRegion(m: GardenMap, c: IVec2)
    requires Valid(m) && InBounds(m, c)
    ensures InSomeRegion(m, Seeds(m, ReadingOrder(m)), c)
  {
    var cells := ReadingOrder(m);
    ScannedHolds(m.colCount, m.rowCount, 0, c);
    CellCovered(m, cells, c);
    CoveredBySeeds(m, cells);
    assert InSomeRegion(m, Seeds(m, cells), c);
  }

  /** ... and of only one. */
  lemma EachCellOneRegion(m: GardenMap, c: IVec2, i: nat, j: nat)
    requires Valid(m)
    requires var seeds := Seeds(m, ReadingOrder(m));
      i < |seeds| && j < |seeds| && c in Region(m, seeds[i]) && c in Region(m, seeds[j])
    ensures i == j
  {
    SeedsDisjoint(m, ReadingOrder(m));
    if i < j || j < i {
      assert false;
    }
  }

  lemma CellCovered(m: GardenMap, cells: seq<IVec2>, c: IVec2)
    requires Valid(m) && c in cells && InBounds(m, c)
    ensures c in Covered(m, cells)
    decreases |cells|
  {
    var init, last := cells[..|cells| - 1], cells[|cells| - 1];
    if c == last {
      JoinedSelf(m, c);
    } else {
      assert c in init by {
        assert cells == init + [last];
      }
      CellCovered(m, init, c);
    }
  }

  /** One more scanned cell. */
  lemma ScanStep(m: GardenMap, cells: seq<IVec2>, c: IVec2)
    requires Valid(m)
    ensures Covered(m, cells + [c]) == Covered(m, cells) + Region(m, c)
    ensures c in Covered(m, cells) ==> Covered(m, cells + [c]) == Covered(m, cells) && Seeds(m, cells + [c]) == Seeds(m, cells)
    ensures c !in Covered(m, cells) ==> Seeds(m, cells + [c]) == Seeds(m, cells) + [c]
  {
    assert (cells + [c])[..|cells|] == cells;
    if c in Covered(m, cells) {
      CoveredMember(m, cells, c);
    }
  }
}

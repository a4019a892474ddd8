/** The two scans of src/bin/day12.rs. Each walks the plots in reading
    order, skips a plot already visited, and otherwise fills the plot's
    region, prices it and marks it visited. Part 1 prices a region by its
    perimeter, part 2 by its number of sides, both times its area. Each scan
    is proved to add up the price of the region of every seed of the scan,
    and the seeds to hold one plot of every region. */
module Day12Scan {
  import opened Wrappers
  import opened Text
  import opened Vectors
  import opened Day12
  import opened Day12Flood
  import opened Day12Sides

  /** How a region's fence is measured: part 1 counts fence sections, part
      2 counts sides. */
  datatype Pricing = ByPerimeter | BySides

  /** The fence measure of `region`. */
  ghost function FenceMeasure(m: GardenMap, region: set<IVec2>, pricing: Pricing): nat
    requires Valid(m)
  {
    match pricing
    case ByPerimeter => |Fences(m, region)|
    case BySides => |Ends(Fences(m, region))|
  }

  /** `region_price`: a fence measure times an area. */
  function Price(measure: nat, area: nat): nat {
    measure * area
  }

  /** The price of the region of `s`. */
  ghost function RegionPrice(m: GardenMap, s: IVec2, pricing: Pricing): nat
    requires Valid(m)
  {
    Price(FenceMeasure(m, Region(m, s), pricing), |Region(m, s)|)
  }

  /** The sum of the prices of the regions of `seeds`. */
  ghost function TotalPrice(m: GardenMap, seeds: seq<IVec2>, pricing: Pricing): nat
    requires Valid(m)
  {
    if seeds == [] then 0 else TotalPrice(m, seeds[..|seeds| - 1], pricing) + RegionPrice(m, seeds[|seeds| - 1], pricing)
  }

  lemma PriceStep(m: GardenMap, seeds: seq<IVec2>, s: IVec2, pricing: Pricing)
    requires Valid(m)
    ensures TotalPrice(m, seeds + [s], pricing) == TotalPrice(m, seeds, pricing) + RegionPrice(m, s, pricing)
  {
    assert (seeds + [s])[..|seeds|] == seeds;
  }

  /** A region costs less by sides than by perimeter: a side holds at least
      one fence section. */
  lemma {:induction false} SidesCostLess(m: GardenMap, seeds: seq<IVec2>)
    requires Valid(m)
    ensures TotalPrice(m, seeds, BySides) <= TotalPrice(m, seeds, ByPerimeter)
    decreases |seeds|
  {
    if seeds != [] {
      var s := seeds[|seeds| - 1];
      SidesCostLess(m, seeds[..|seeds| - 1]);
      EndsWithin(Fences(m, Region(m, s)));
      PriceAtMost(FenceMeasure(m, Region(m, s), BySides), FenceMeasure(m, Region(m, s), ByPerimeter), |Region(m, s)|);
    }
  }

  lemma PriceAtMost(a: nat, b: nat, area: nat)
    requires a <= b
    ensures Price(a, area) <= Price(b, area)
  {
  }

  /** Every region has at least one side, so its price by sides is at least
      its area. */
  lemma SidesAtLeastArea(m: GardenMap, s: IVec2)
    requires Valid(m) && InBounds(m, s)
    ensures RegionPrice(m, s, BySides) >= |Region(m, s)|
  {
    var region := Region(m, s);
    RegionFenced(m, s);
    HasEnd(Fences(m, region));
    PriceAtLeast(FenceMeasure(m, region, BySides), |region|);
  }

  lemma PriceAtLeast(measure: nat, area: nat)
    requires measure >= 1
    ensures Price(measure, area) >= area
  {
  }

  /** The running total after the plots `cells`: each one not covered by
      the regions of the plots before it adds its region's price. */
  ghost function Tally(m: GardenMap, cells: seq<IVec2>, pricing: Pricing): nat
    requires Valid(m)
  {
    if cells == [] then 0
    else
      var init, c := cells[..|cells| - 1], cells[|cells| - 1];
      Tally(m, init, pricing) + if c in Covered(m, init) then 0 else RegionPrice(m, c, pricing)
  }

  lemma TallyStep(m: GardenMap, cells: seq<IVec2>, c: IVec2, pricing: Pricing)
    requires Valid(m)
    ensures Tally(m, cells + [c], pricing) == Tally(m, cells, pricing) + if c in Covered(m, cells) then 0 else RegionPrice(m, c, pricing)
  {
    assert (cells + [c])[..|cells|] == cells;
  }

  /** The tally prices the seeds. */
  lemma {:induction false} TallySeeds(m: GardenMap, cells: seq<IVec2>, pricing: Pricing)
    requires Valid(m)
    ensures Tally(m, cells, pricing) == TotalPrice(m, Seeds(m, cells), pricing)
    decreases |cells|
  {
    if cells != [] {
      var init, c := cells[..|cells| - 1], cells[|cells| - 1];
      assert cells == init + [c];
      TallySeeds(m, init, pricing);
      ScanStep(m, init, c);
      if c !in Covered(m, init) {
        PriceStep(m, Seeds(m, init), c, pricing);
      }
    }
  }

  /** The scan state before column `x` of row `y`: the visited plots are
      the regions of the plots scanned so far, and the total is their
      tally. */
  ghost predicate Scanned(m: GardenMap, y: nat, x: nat, visited: set<IVec2>, total: nat, pricing: Pricing)
    requires Valid(m)
  {
    var scanned := ScannedBefore(m.colCount, y, x);
    visited == Covered(m, scanned) && total == Tally(m, scanned, pricing)
  }

  // Part 1

  /** Part 1's nested loops over rows and plots. */
  method FencePriceTotal(m: GardenMap) returns (total: nat)
    requires Valid(m)
    ensures total == TotalPrice(m, Seeds(m, ReadingOrder(m)), ByPerimeter)
  {
    var visited: set<IVec2> := {};
    total := 0;
    for y := 0 to m.rowCount
      invariant Scanned(m, y, 0, visited, total, ByPerimeter)
    {
      visited, total := ScanRowCounting(m, y, visited, total);
    }
    TallySeeds(m, ReadingOrder(m), ByPerimeter);
  }

  /** One row of part 1's scan. */
  method ScanRowCounting(m: GardenMap, y: nat, visited: set<IVec2>, total: nat) returns (visited': set<IVec2>, total': nat)
    requires Valid(m) && y < m.rowCount && Scanned(m, y, 0, visited, total, ByPerimeter)
    ensures Scanned(m, y + 1, 0, visited', total', ByPerimeter)
  {
    visited', total' := visited, total;
    for x := 0 to m.colCount
      invariant Scanned(m, y, x, visited', total', ByPerimeter)
    {
      visited', total' := ScanCounting(m, ScannedBefore(m.colCount, y, x), IVec2(x, y), visited', total');
    }
  }

  /** One plot of part 1's scan: a plot not yet visited is filled through
      the stack, and its region costs perimeter times area. */
  method ScanCounting(m: GardenMap, ghost scanned: seq<IVec2>, c: IVec2, visited: set<IVec2>, total: nat)
    returns (visited': set<IVec2>, total': nat)
    requires Valid(m) && InBounds(m, c)
    requires visited == Covered(m, scanned) && total == Tally(m, scanned, ByPerimeter)
    ensures visited' == Covered(m, scanned + [c]) && total' == Tally(m, scanned + [c], ByPerimeter)
  {
    ScanStep(m, scanned, c);
    TallyStep(m, scanned, c, ByPerimeter);
    visited', total' := visited, total;
    if c !in visited {
      var region, perimeter := FloodCounting(m, c);
      ghost var price := RegionPrice(m, c, ByPerimeter);
      assert Price(perimeter, |region|) == price;
      total' := total + perimeter * |region|;
      visited' := visited + region;
    }
  }

  /** `part1`: the sum over the regions of perimeter times area; a garden
      the map refuses is an error. */
  method Part1(input: string) returns (r: Result<nat, string>)
    ensures r.Ok? <==> FromLines(Lines(input)).Ok?
    ensures r.Err? ==> r.error == FromLines(Lines(input)).error
    ensures r.Ok? ==> var m := FromLines(Lines(input)).value; r.value == TotalPrice(m, Seeds(m, ReadingOrder(m)), ByPerimeter)
  {
    var parsed := FromLines(Lines(input));
    if parsed.Err? {
      return Err(parsed.error);
    }
    var total := FencePriceTotal(parsed.value);
    r := Ok(total);
  }

  // Part 2

  /** Part 2's nested loops over rows and plots. */
  method SidePriceTotal(m: GardenMap) returns (total: nat)
    requires Valid(m)
    ensures total == TotalPrice(m, Seeds(m, ReadingOrder(m)), BySides)
  {
    var visited: set<IVec2> := {};
    total := 0;
    for y := 0 to m.rowCount
      invariant Scanned(m, y, 0, visited, total, BySides)
    {
      visited, total := ScanRowSides(m, y, visited, total);
    }
    TallySeeds(m, ReadingOrder(m), BySides);
  }

  /** One row of part 2's scan. */
  method ScanRowSides(m: GardenMap, y: nat, visited: set<IVec2>, total: nat) returns (visited': set<IVec2>, total': nat)
    requires Valid(m) && y < m.rowCount && Scanned(m, y, 0, visited, total, BySides)
    ensures Scanned(m, y + 1, 0, visited', total', BySides)
  {
    visited', total' := visited, total;
    for x := 0 to m.colCount
      invariant Scanned(m, y, x, visited', total', BySides)
    {
      visited', total' := ScanSides(m, ScannedBefore(m.colCount, y, x), IVec2(x, y), visited', total');
    }
  }

  /** One plot of part 2's scan: a plot not yet visited is filled through
      the queue, its fence sections are grouped into sides, and its region
      costs sides times area. */
  method ScanSides(m: GardenMap, ghost scanned: seq<IVec2>, c: IVec2, visited: set<IVec2>, total: nat)
    returns (visited': set<IVec2>, total': nat)
    requires Valid(m) && InBounds(m, c)
    requires visited == Covered(m, scanned) && total == Tally(m, scanned, BySides)
    ensures visited' == Covered(m, scanned + [c]) && total' == Tally(m, scanned + [c], BySides)
  {
    ScanStep(m, scanned, c);
    TallyStep(m, scanned, c, BySides);
    visited', total' := visited, total;
    if c !in visited {
      var region, sections := FloodSections(m, c);
      var sides := CountSides(sections);
      ghost var price := RegionPrice(m, c, BySides);
      assert Price(sides, |region|) == price;
      total' := total + sides * |region|;
      visited' := visited + region;
    }
  }

  /** `part2`: the sum over the regions of sides times area; a garden the
      map refuses is an error. */
  method Part2(input: string) returns (r: Result<nat, string>)
    ensures r.Ok? <==> FromLines(Lines(input)).Ok?
    ensures r.Err? ==> r.error == FromLines(Lines(input)).error
    ensures r.Ok? ==> var m := FromLines(Lines(input)).value; r.value == TotalPrice(m, Seeds(m, ReadingOrder(m)), BySides)
  {
    var parsed := FromLines(Lines(input));
    if parsed.Err? {
      return Err(parsed.error);
    }
    var total := SidePriceTotal(parsed.value);
    r := Ok(total);
  }
}

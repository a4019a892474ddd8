/** The flood fills of src/bin/day12.rs. Part 1 grows a region from its
    seed through a `search_stack` and counts the fenced sides on the way;
    part 2 grows it through a `search_queue` and collects the fenced sides
    as perimeter sections. Both are proved to produce exactly the seed's
    region and its fences. */
module Day12Flood {
  import opened Vectors
  import opened Seqs
  import opened Day12

  /** A fill in progress: `region` holds cells joined to `seed` with its
      plant, and splits into the `explored` cells, whose same-plant
      neighbours have all joined, and the `pending` ones, each listed once. */
  ghost predicate Filling(m: GardenMap, seed: IVec2, region: set<IVec2>, pending: seq<IVec2>, explored: set<IVec2>)
    requires Valid(m)
  {
    && InBounds(m, seed) && seed in region
    && (forall p :: p in region ==> InBounds(m, p) && Plot(m, p) == Plot(m, seed) && Joined(m, seed, p))
    && (forall p :: p in region <==> p in explored || p in pending)
    && (forall i :: 0 <= i < |pending| ==> pending[i] !in explored)
    && Distinct(pending)
    && (forall p, q :: p in explored && SamePlot(m, p, q) ==> q in region)
  }

  /** What exploring `pos` does to the region: its same-plant neighbours
      not yet in it join it, in the order `pushed`, and then all of them
      are in it. */
  ghost predicate Spreads(m: GardenMap, pos: IVec2, region: set<IVec2>, region': set<IVec2>, pushed: seq<IVec2>)
    requires Valid(m)
  {
    && (forall q :: q in region' <==> q in region || q in pushed)
    && (forall i :: 0 <= i < |pushed| ==> SamePlot(m, pos, pushed[i]) && pushed[i] !in region)
    && Distinct(pushed)
    && (forall q :: SamePlot(m, pos, q) ==> q in region')
  }

  /** The same after the first `k` directions of `ALL`. */
  ghost predicate SpreadUpTo(m: GardenMap, pos: IVec2, k: nat, region: set<IVec2>, pending: seq<IVec2>,
                             region': set<IVec2>, pending': seq<IVec2>, pushed: seq<IVec2>)
    requires Valid(m) && k <= 4
  {
    && pending' == pending + pushed
    && (forall q :: q in region' <==> q in region || q in pushed)
    && (forall i :: 0 <= i < |pushed| ==> SamePlot(m, pos, pushed[i]) && pushed[i] !in region)
    && Distinct(pushed)
    && (forall j :: 0 <= j < k && SamePlot(m, pos, Neighbours(pos)[j]) ==> Neighbours(pos)[j] in region')
  }

  /** One direction of the `for direction in Direction::ALL` loop of either
      fill: a neighbour off the map or with another plant is a fence, and a
      same-plant neighbour not yet in the region is added to it and pushed
      at the back of the pending cells. */
  method Spread(m: GardenMap, plot: char, pos: IVec2, k: nat, region: set<IVec2>, pending: seq<IVec2>)
    returns (region': set<IVec2>, pending': seq<IVec2>, fence: bool)
    requires Valid(m) && InBounds(m, pos) && Plot(m, pos) == plot && k < 4
    ensures var q := Neighbours(pos)[k];
      if SamePlot(m, pos, q) && q !in region then region' == region + {q} && pending' == pending + [q]
      else region' == region && pending' == pending
    ensures fence <==> Fence(m, pos, ALL[k])
  {
    region', pending', fence := region, pending, false;
    var neighbour := pos.Add(Xy(ALL[k]));
    if !InBounds(m, neighbour) {
      fence := true;
      return;
    }
    if Plot(m, neighbour) == plot {
      if neighbour !in region {
        pending' := pending + [neighbour];
        region' := region + {neighbour};
      }
    } else {
      fence := true;
    }
  }

  lemma SpreadStep(m: GardenMap, pos: IVec2, k: nat, region: set<IVec2>, pending: seq<IVec2>,
                   region': set<IVec2>, pending': seq<IVec2>, pushed: seq<IVec2>,
                   region'': set<IVec2>, pending'': seq<IVec2>)
    returns (pushed': seq<IVec2>)
    requires Valid(m) && k < 4 && SpreadUpTo(m, pos, k, region, pending, region', pending', pushed)
    requires var q := Neighbours(pos)[k];
      if SamePlot(m, pos, q) && q !in region' then region'' == region' + {q} && pending'' == pending' + [q]
      else region'' == region' && pending'' == pending'
    ensures SpreadUpTo(m, pos, k + 1, region, pending, region'', pending'', pushed')
  {
    var q := Neighbours(pos)[k];
    if SamePlot(m, pos, q) && q !in region' {
      pushed' := pushed + [q];
      DistinctConcat(pushed, [q]);
      assert forall i :: 0 <= i < |pushed| ==> pushed'[i] == pushed[i];
    } else {
      pushed' := pushed;
    }
  }

  lemma SpreadAll(m: GardenMap, pos: IVec2, region: set<IVec2>, pending: seq<IVec2>,
                  region': set<IVec2>, pending': seq<IVec2>, pushed: seq<IVec2>)
    requires Valid(m) && SpreadUpTo(m, pos, 4, region, pending, region', pending', pushed)
    ensures Spreads(m, pos, region, region', pushed)
  {
    forall q | SamePlot(m, pos, q)
      ensures q in region'
    {
      var j :| 0 <= j < 4 && Neighbours(pos)[j] == q;
    }
  }

  /** Part 1's exploration of `pos`: the region spreads and each fenced side
      adds one to the perimeter. */
  method ExploreCounting(m: GardenMap, plot: char, pos: IVec2, region: set<IVec2>, pending: seq<IVec2>, perimeter: nat)
    returns (region': set<IVec2>, pending': seq<IVec2>, perimeter': nat, ghost pushed: seq<IVec2>)
    requires Valid(m) && InBounds(m, pos) && Plot(m, pos) == plot
    ensures pending' == pending + pushed && Spreads(m, pos, region, region', pushed)
    ensures perimeter' == perimeter + |FencesAt(m, pos, 4)|
  {
    region', pending', perimeter', pushed := region, pending, perimeter, [];
    for k := 0 to 4
      invariant SpreadUpTo(m, pos, k, region, pending, region', pending', pushed)
      invariant perimeter' == perimeter + |FencesAt(m, pos, k)|
    {
      var region'', pending'', fence := Spread(m, plot, pos, k, region', pending');
      pushed := SpreadStep(m, pos, k, region, pending, region', pending', pushed, region'', pending'');
      FencesAtStep(m, pos, k);
      region', pending' := region'', pending'';
      if fence {
        perimeter' := perimeter' + 1;
      }
    }
    SpreadAll(m, pos, region, pending, region', pending', pushed);
  }

  /** Part 2's exploration of `pos`: the region spreads and each fenced side
      is recorded as a section. */
  method ExploreSections(m: GardenMap, plot: char, pos: IVec2, region: set<IVec2>, pending: seq<IVec2>,
                         sections: set<Section>)
    returns (region': set<IVec2>, pending': seq<IVec2>, sections': set<Section>, ghost pushed: seq<IVec2>)
    requires Valid(m) && InBounds(m, pos) && Plot(m, pos) == plot
    ensures pending' == pending + pushed && Spreads(m, pos, region, region', pushed)
    ensures sections' == sections + FencesAt(m, pos, 4)
  {
    region', pending', sections', pushed := region, pending, sections, [];
    for k := 0 to 4
      invariant SpreadUpTo(m, pos, k, region, pending, region', pending', pushed)
      invariant sections' == sections + FencesAt(m, pos, k)
    {
      var region'', pending'', fence := Spread(m, plot, pos, k, region', pending');
      pushed := SpreadStep(m, pos, k, region, pending, region', pending', pushed, region'', pending'');
      region', pending' := region'', pending'';
      if fence {
        sections' := sections' + {(pos, ALL[k])};
      }
    }
    SpreadAll(m, pos, region, pending, region', pending', pushed);
  }

  /** Taking `pos` off either end of the pending cells. */
  lemma Taken(pending: seq<IVec2>, rest: seq<IVec2>, pos: IVec2)
    requires Distinct(pending) && (pending == rest + [pos] || pending == [pos] + rest)
    ensures Distinct(rest) && pos !in rest && forall q :: q in pending <==> q == pos || q in rest
  {
    if pending == rest + [pos] {
      assert forall i :: 0 <= i < |rest| ==> rest[i] == pending[i] && pending[i] != pending[|rest|];
    } else {
      assert forall i :: 0 <= i < |rest| ==> rest[i] == pending[i + 1] && pending[i + 1] != pending[0];
    }
  }

  /** Exploring a pending cell keeps the fill's invariant, with that cell
      explored and the pushed cells pending. */
  lemma Advance(m: GardenMap, seed: IVec2, region: set<IVec2>, pending: seq<IVec2>, explored: set<IVec2>,
                pos: IVec2, rest: seq<IVec2>, region': set<IVec2>, pushed: seq<IVec2>)
    requires Valid(m) && Filling(m, seed, region, pending, explored)
    requires Distinct(rest) && pos !in rest && forall q :: q in pending <==> q == pos || q in rest
    requires Spreads(m, pos, region, region', pushed)
    ensures Filling(m, seed, region', rest + pushed, explored + {pos})
    ensures pos !in explored && InBounds(m, pos)
  {
    assert pos in pending;
    forall i | 0 <= i < |pushed|
      ensures InBounds(m, pushed[i]) && Plot(m, pushed[i]) == Plot(m, seed) && Joined(m, seed, pushed[i])
    {
      JoinedStep(m, seed, pos, pushed[i]);
    }
    AdvanceSplit(m, region, pending, explored, pos, rest, region', pushed);
  }

  lemma AdvanceSplit(m: GardenMap, region: set<IVec2>, pending: seq<IVec2>, explored: set<IVec2>,
                     pos: IVec2, rest: seq<IVec2>, region': set<IVec2>, pushed: seq<IVec2>)
    requires Valid(m)
    requires (forall p :: p in region <==> p in explored || p in pending)
    requires (forall i :: 0 <= i < |pending| ==> pending[i] !in explored)
    requires Distinct(rest) && pos !in rest && forall q :: q in pending <==> q == pos || q in rest
    requires Spreads(m, pos, region, region', pushed)
    ensures forall p :: p in region' <==> p in explored + {pos} || p in rest + pushed
    ensures forall i :: 0 <= i < |rest + pushed| ==> (rest + pushed)[i] !in explored + {pos}
    ensures Distinct(rest + pushed)
  {
    var s := rest + pushed;
    forall i | 0 <= i < |s|
      ensures s[i] !in explored + {pos}
    {
      if i < |rest| {
        assert s[i] == rest[i] && rest[i] in pending;
      } else {
        assert s[i] == pushed[i - |rest|];
      }
    }
    DistinctConcat(rest, pushed);
  }

  lemma ExploredShrinks(m: GardenMap, explored: set<IVec2>, pos: IVec2)
    requires pos !in explored && InBounds(m, pos) && explored <= Cells(m)
    ensures |Cells(m) - (explored + {pos})| < |Cells(m) - explored|
  {
    assert Cells(m) - (explored + {pos}) == (Cells(m) - explored) - {pos};
  }

  /** A finished fill holds exactly the seed's region. */
  lemma Filled(m: GardenMap, seed: IVec2, region: set<IVec2>, explored: set<IVec2>)
    requires Valid(m) && Filling(m, seed, region, [], explored)
    ensures region == Region(m, seed) && explored == region
  {
    assert Closed(m, region);
    ClosedHoldsRegion(m, region, seed);
  }

  /** Part 1's fill from `seed`, through `search_stack`. */
  method FloodCounting(m: GardenMap, seed: IVec2) returns (region: set<IVec2>, perimeter: nat)
    requires Valid(m) && InBounds(m, seed)
    ensures region == Region(m, seed)
    ensures perimeter == |Fences(m, region)|
  {
    var plot := Plot(m, seed);
    region := {seed};
    var stack := [seed];
    perimeter := 0;
    ghost var explored: set<IVec2> := {};
    JoinedSelf(m, seed);
    while stack != []
      invariant Filling(m, seed, region, stack, explored)
      invariant perimeter == |Fences(m, explored)|
      decreases |Cells(m) - explored|
    {
      region, stack, perimeter, explored := FillCounting(m, seed, plot, region, stack, perimeter, explored);
    }
    Filled(m, seed, region, explored);
  }

  /** One pass of part 1's `while let Some(position) = search_stack.pop()`. */
  method FillCounting(m: GardenMap, ghost seed: IVec2, plot: char, region: set<IVec2>, stack: seq<IVec2>, perimeter: nat,
                      ghost explored: set<IVec2>)
    returns (region': set<IVec2>, stack': seq<IVec2>, perimeter': nat, ghost explored': set<IVec2>)
    requires Valid(m) && Filling(m, seed, region, stack, explored) && perimeter == |Fences(m, explored)|
    requires stack != [] && plot == Plot(m, seed)
    ensures Filling(m, seed, region', stack', explored') && perimeter' == |Fences(m, explored')|
    ensures |Cells(m) - explored'| < |Cells(m) - explored|
  {
    var pos := stack[|stack| - 1];
    var rest := stack[..|stack| - 1];
    Taken(stack, rest, pos);
    ghost var pushed;
    region', stack', perimeter', pushed := ExploreCounting(m, plot, pos, region, rest, perimeter);
    Advance(m, seed, region, stack, explored, pos, rest, region', pushed);
    ExploredShrinks(m, explored, pos);
    FencesAdd(m, explored, pos);
    explored' := explored + {pos};
  }

  /** Part 2's fill from `seed`, through `search_queue`. */
  method FloodSections(m: GardenMap, seed: IVec2) returns (region: set<IVec2>, sections: set<Section>)
    requires Valid(m) && InBounds(m, seed)
    ensures region == Region(m, seed)
    ensures sections == Fences(m, region)
  {
    var plot := Plot(m, seed);
    region := {seed};
    var queue := [seed];
    sections := {};
    ghost var explored: set<IVec2> := {};
    JoinedSelf(m, seed);
    while queue != []
      invariant Filling(m, seed, region, queue, explored)
      invariant sections == Fences(m, explored)
      decreases |Cells(m) - explored|
    {
      region, queue, sections, explored := FillSections(m, seed, plot, region, queue, sections, explored);
    }
    Filled(m, seed, region, explored);
  }

  /** One pass of part 2's `while let Some(position) = search_queue.pop_front()`. */
  method FillSections(m: GardenMap, ghost seed: IVec2, plot: char, region: set<IVec2>, queue: seq<IVec2>,
                      sections: set<Section>, ghost explored: set<IVec2>)
    returns (region': set<IVec2>, queue': seq<IVec2>, sections': set<Section>, ghost explored': set<IVec2>)
    requires Valid(m) && Filling(m, seed, region, queue, explored) && sections == Fences(m, explored)
    requires queue != [] && plot == Plot(m, seed)
    ensures Filling(m, seed, region', queue', explored') && sections' == Fences(m, explored')
    ensures |Cells(m) - explored'| < |Cells(m) - explored|
  {
    var pos := queue[0];
    var rest := queue[1..];
    Taken(queue, rest, pos);
    ghost var pushed;
    region', queue', sections', pushed := ExploreSections(m, plot, pos, region, rest, sections);
    Advance(m, seed, region, queue, explored, pos, rest, region', pushed);
    ExploredShrinks(m, explored, pos);
    FencesAdd(m, explored, pos);
    explored' := explored + {pos};
  }
}

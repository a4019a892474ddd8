/** What Part 2 of src/bin/day10.rs counts: the rating of a cell is the
    number of distinct hiking trails that start there, each counted once.
    The trails are enumerated here, following the same neighbour order as
    the search, and the enumeration is shown to hold every trail, nothing
    else, and no trail twice. */
module Day10Trails {
  import opened Vectors
  import opened Day10
  import opened Seqs

  /** A complete hiking trail from `p`: it climbs at every step and ends on
      a 9. */
  ghost predicate HikingTrail(m: TopographicMap, p: IVec2, t: seq<IVec2>)
    requires Valid(m)
  {
    Trail(m, t) && t[0] == p && Height(m, t[|t| - 1]) == 9
  }

  function Prefixed(p: IVec2, ts: seq<seq<IVec2>>): (r: seq<seq<IVec2>>)
    ensures |r| == |ts| && forall i :: 0 <= i < |ts| ==> r[i] == [p] + ts[i]
  {
    seq(|ts|, i requires 0 <= i < |ts| => [p] + ts[i])
  }

  /** The trails from `p`: the one-cell trail on a 9, otherwise `p` followed
      by a trail from each climbing neighbour in turn. */
  ghost function TrailsFrom(m: TopographicMap, p: IVec2): seq<seq<IVec2>>
    requires Valid(m) && InBounds(m, p)
    decreases 10 - Height(m, p), 1, 0
  {
    if Height(m, p) == 9 then [[p]] else TrailsAmong(m, p, 4)
  }

  /** The trails from `p` through its first `k` neighbours. */
  ghost function TrailsAmong(m: TopographicMap, p: IVec2, k: nat): seq<seq<IVec2>>
    requires Valid(m) && InBounds(m, p) && k <= 4
    decreases 10 - Height(m, p), 0, k
  {
    if k == 0 then []
    else
      var q := Neighbours(p)[k - 1];
      TrailsAmong(m, p, k - 1) + if Climbs(m, p, q) then Prefixed(p, TrailsFrom(m, q)) else []
  }

  /** The set of the complete trails from `p`. */
  ghost function HikingTrails(m: TopographicMap, p: IVec2): set<seq<IVec2>>
    requires Valid(m) && InBounds(m, p)
  {
    Elements(TrailsFrom(m, p))
  }

  /** Part 2's rating is the number of distinct complete trails. */
  lemma RatingCountsTrails(m: TopographicMap, p: IVec2)
    requires Valid(m) && InBounds(m, p)
    ensures forall t :: t in HikingTrails(m, p) <==> HikingTrail(m, p, t)
    ensures |HikingTrails(m, p)| == Rating(m, p)
  {
    TrailsSound(m, p);
    forall t | HikingTrail(m, p, t)
      ensures t in HikingTrails(m, p)
    {
      TrailsComplete(m, p, t);
    }
    TrailsDistinct(m, p);
    TrailsCount(m, p);
    DistinctCard(TrailsFrom(m, p));
  }

  lemma {:induction false} TrailsCount(m: TopographicMap, p: IVec2)
    requires Valid(m) && InBounds(m, p)
    ensures |TrailsFrom(m, p)| == Rating(m, p)
    decreases 10 - Height(m, p), 1, 0
  {
    if Height(m, p) < 9 {
      AmongCount(m, p, 4);
      ViaSumRating(m, p);
    }
  }

  lemma {:induction false} AmongCount(m: TopographicMap, p: IVec2, k: nat)
    requires Valid(m) && InBounds(m, p) && k <= 4
    ensures |TrailsAmong(m, p, k)| == ViaSum(m, p, k)
    decreases 10 - Height(m, p), 0, k
  {
    if k > 0 {
      AmongCount(m, p, k - 1);
      var q := Neighbours(p)[k - 1];
      if Climbs(m, p, q) {
        TrailsCount(m, q);
      }
    }
  }

  /** Every enumerated trail is a complete trail from `p`. */
  lemma {:induction false} TrailsSound(m: TopographicMap, p: IVec2)
    requires Valid(m) && InBounds(m, p)
    ensures forall t :: t in TrailsFrom(m, p) ==> HikingTrail(m, p, t)
    decreases 10 - Height(m, p), 1, 0
  {
    if Height(m, p) == 9 {
      assert Trail(m, [p]);
    } else {
      AmongSound(m, p, 4);
    }
  }

  /** ... and one whose second cell is among the first `k` neighbours. */
  lemma {:induction false} AmongSound(m: TopographicMap, p: IVec2, k: nat)
    requires Valid(m) && InBounds(m, p) && k <= 4
    ensures forall t :: t in TrailsAmong(m, p, k) ==> HikingTrail(m, p, t) && |t| >= 2 && t[1] in Neighbours(p)[..k]
    decreases 10 - Height(m, p), 0, k
  {
    if k > 0 {
      AmongSound(m, p, k - 1);
      var q := Neighbours(p)[k - 1];
      assert Neighbours(p)[..k] == Neighbours(p)[..k - 1] + [q];
      if Climbs(m, p, q) {
        TrailsSound(m, q);
        PrefixedSound(m, p, q, TrailsFrom(m, q));
      }
    }
  }

  lemma PrefixedSound(m: TopographicMap, p: IVec2, q: IVec2, ts: seq<seq<IVec2>>)
    requires Valid(m) && InBounds(m, p) && Climbs(m, p, q) && forall t :: t in ts ==> HikingTrail(m, q, t)
    ensures forall t :: t in Prefixed(p, ts) ==> HikingTrail(m, p, t) && |t| >= 2 && t[1] == q
  {
    forall t | t in Prefixed(p, ts)
      ensures HikingTrail(m, p, t) && |t| >= 2 && t[1] == q
    {
      var i :| 0 <= i < |ts| && t == [p] + ts[i];
      assert ts[i] in ts;
      TrailCons(m, p, ts[i]);
    }
  }

  lemma TrailCons(m: TopographicMap, p: IVec2, t: seq<IVec2>)
    requires Valid(m) && InBounds(m, p) && Trail(m, t) && Climbs(m, p, t[0])
    ensures Trail(m, [p] + t)
  {
    var s := [p] + t;
    forall i | 0 <= i < |s| - 1
      ensures Climbs(m, s[i], s[i + 1])
    {
      if i > 0 {
        assert s[i] == t[i - 1] && s[i + 1] == t[i];
      }
    }
  }

  /** Every complete trail from `p` is enumerated. */
  lemma {:induction false} TrailsComplete(m: TopographicMap, p: IVec2, t: seq<IVec2>)
    requires Valid(m) && InBounds(m, p) && HikingTrail(m, p, t)
    ensures t in TrailsFrom(m, p)
    decreases 10 - Height(m, p)
  {
    TrailHeights(m, t, |t| - 1);
    if Height(m, p) == 9 {
      assert t == [p];
    } else {
      var q := t[1];
      assert Climbs(m, p, q);
      var j :| 0 <= j < 4 && Neighbours(p)[j] == q;
      var rest := t[1..];
      assert Trail(m, rest) by {
        forall i | 0 <= i < |rest| - 1
          ensures Climbs(m, rest[i], rest[i + 1])
        {
          assert rest[i] == t[i + 1] && rest[i + 1] == t[i + 2];
        }
      }
      assert rest[|rest| - 1] == t[|t| - 1];
      TrailsComplete(m, q, rest);
      assert t == [p] + rest;
      AmongHas(m, p, 4, j, rest);
    }
  }

  lemma {:induction false} AmongHas(m: TopographicMap, p: IVec2, k: nat, j: nat, s: seq<IVec2>)
    requires Valid(m) && InBounds(m, p) && j < k <= 4 && Climbs(m, p, Neighbours(p)[j])
    requires s in TrailsFrom(m, Neighbours(p)[j])
    ensures [p] + s in TrailsAmong(m, p, k)
    decreases k
  {
    if k - 1 == j {
      var ts := TrailsFrom(m, Neighbours(p)[j]);
      var i :| 0 <= i < |ts| && ts[i] == s;
      assert Prefixed(p, ts)[i] == [p] + s;
    } else {
      AmongHas(m, p, k - 1, j, s);
    }
  }

  /** No trail is enumerated twice. */
  lemma {:induction false} TrailsDistinct(m: TopographicMap, p: IVec2)
    requires Valid(m) && InBounds(m, p)
    ensures Distinct(TrailsFrom(m, p))
    decreases 10 - Height(m, p), 1, 0
  {
    if Height(m, p) < 9 {
      AmongDistinct(m, p, 4);
    }
  }

  lemma {:induction false} AmongDistinct(m: TopographicMap, p: IVec2, k: nat)
    requires Valid(m) && InBounds(m, p) && k <= 4
    ensures Distinct(TrailsAmong(m, p, k))
    decreases 10 - Height(m, p), 0, k
  {
    if k > 0 {
      AmongDistinct(m, p, k - 1);
      var q := Neighbours(p)[k - 1];
      if Climbs(m, p, q) {
        AmongSound(m, p, k - 1);
        TrailsSound(m, q);
        TrailsDistinct(m, q);
        var a, ts := TrailsAmong(m, p, k - 1), TrailsFrom(m, q);
        var b := Prefixed(p, ts);
        PrefixedDistinct(p, ts);
        PrefixedSteps(m, p, q, ts);
        assert q !in Neighbours(p)[..k - 1];
        StepsDiffer(a, b, q, Neighbours(p)[..k - 1]);
        DistinctConcat(a, b);
      }
    }
  }

  lemma PrefixedDistinct(p: IVec2, ts: seq<seq<IVec2>>)
    requires Distinct(ts)
    ensures Distinct(Prefixed(p, ts))
  {
    var b := Prefixed(p, ts);
    forall i, j | 0 <= i < j < |b|
      ensures b[i] != b[j]
    {
      assert b[i][1..] == ts[i] && b[j][1..] == ts[j];
    }
  }

  lemma PrefixedSteps(m: TopographicMap, p: IVec2, q: IVec2, ts: seq<seq<IVec2>>)
    requires Valid(m) && forall t :: t in ts ==> HikingTrail(m, q, t)
    ensures forall y :: y in Prefixed(p, ts) ==> |y| >= 2 && y[1] == q
  {
    forall y | y in Prefixed(p, ts)
      ensures |y| >= 2 && y[1] == q
    {
      var i :| 0 <= i < |ts| && y == [p] + ts[i];
      assert ts[i] in ts;
    }
  }

  /** Trails whose second cells differ are different. */
  lemma StepsDiffer(a: seq<seq<IVec2>>, b: seq<seq<IVec2>>, q: IVec2, earlier: seq<IVec2>)
    requires forall x :: x in a ==> |x| >= 2 && x[1] in earlier
    requires forall y :: y in b ==> |y| >= 2 && y[1] == q
    requires q !in earlier
    ensures forall x, y :: x in a && y in b ==> x != y
  {
  }
}

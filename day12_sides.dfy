/** Part 2's side count in src/bin/day12.rs. A side is a maximal straight
    run of fence sections that face the same way, one beside the other. The
    count pops a section, takes out of the vector every section of its side
    by walking both ways from it, and counts one side; this is proved to
    count the sections at the left end of a side, which is one per side. */
module Day12Sides {
  import opened Wrappers
  import opened Vectors
  import opened Seqs
  import opened Day12

  /** `perpendicular_directions`: the two directions along a fence facing
      `d`, the one the `left` walk takes first. */
  function Perpendicular(d: Direction): (r: (Direction, Direction))
    ensures Xy(r.1) == Xy(r.0).Neg()
    ensures Xy(r.0) != IVec2(0, 0)
  {
    match d
    case East => (North, South)
    case West => (North, South)
    case North => (East, West)
    case South => (East, West)
  }

  /** The section one step toward `toward` from `s`, facing `facing`: what
      the walks look for. */
  function Beside(s: Section, toward: Direction, facing: Direction): Section {
    (s.0.Add(Xy(toward)), facing)
  }

  /** The section `j` steps from `c` along its side, counted positive in the
      direction of the `left` walk. */
  function Along(c: Section, j: int): Section {
    match c.1
    case North => (IVec2(c.0.x + j, c.0.y), c.1)
    case South => (IVec2(c.0.x + j, c.0.y), c.1)
    case East => (IVec2(c.0.x, c.0.y - j), c.1)
    case West => (IVec2(c.0.x, c.0.y - j), c.1)
  }

  /** The next section to the left of `s` along its side. */
  function LeftOf(s: Section): Section {
    Beside(s, Perpendicular(s.1).0, s.1)
  }

  /** The sections of `sections` with no section of `sections` to their
      left: the left end of each side, so one per side. */
  ghost function Ends(sections: set<Section>): set<Section> {
    set s | s in sections && LeftOf(s) !in sections
  }

  /** How many steps `s` lies from `c` along the line of `c`'s side. */
  function Offset(c: Section, s: Section): int {
    match c.1
    case North => s.0.x - c.0.x
    case South => s.0.x - c.0.x
    case East => c.0.y - s.0.y
    case West => c.0.y - s.0.y
  }

  /** `s` is one of the sections `lo` to `hi` steps along the side of `c`. */
  predicate OnRun(c: Section, lo: int, hi: int, s: Section) {
    && s.1 == c.1 && lo <= Offset(c, s) <= hi
    && match c.1
       case North => s.0.y == c.0.y
       case South => s.0.y == c.0.y
       case East => s.0.x == c.0.x
       case West => s.0.x == c.0.x
  }

  /** The sections left of `sections` once the run `lo..hi` through `c` is
      taken out. */
  ghost function Without(sections: set<Section>, c: Section, lo: int, hi: int): set<Section> {
    set s | s in sections && !OnRun(c, lo, hi, s)
  }

  /** The run `lo..hi` through `c` lies in `sections`. */
  ghost predicate RunWithin(sections: set<Section>, c: Section, lo: int, hi: int) {
    forall j :: lo <= j <= hi ==> Along(c, j) in sections
  }

  lemma AlongStep(c: Section, j: int)
    ensures Beside(Along(c, j), Perpendicular(c.1).0, c.1) == Along(c, j + 1)
    ensures Beside(Along(c, j), Perpendicular(c.1).1, c.1) == Along(c, j - 1)
    ensures LeftOf(Along(c, j)) == Along(c, j + 1)
    ensures OnRun(c, j, j, Along(c, j)) && Along(c, 0) == c
  {
  }

  /** A section on the run is the one at its offset. */
  lemma OnRunAlong(c: Section, lo: int, hi: int, s: Section)
    requires OnRun(c, lo, hi, s)
    ensures s == Along(c, Offset(c, s))
  {
  }

  /** Only the section one step right of a section is left of it. */
  lemma LeftOfAlong(s: Section, c: Section, j: int)
    ensures LeftOf(s) == Along(c, j) ==> s == Along(c, j - 1)
  {
  }

  /** Taking out a whole side: when `lo..hi` is the longest run through `c`
      in `sections`, the sections left have one end fewer. */
  lemma EndsOfRun(sections: set<Section>, c: Section, lo: int, hi: int)
    requires lo <= 0 <= hi && RunWithin(sections, c, lo, hi)
    requires Along(c, hi + 1) !in sections && Along(c, lo - 1) !in sections
    ensures |Ends(Without(sections, c, lo, hi))| + 1 == |Ends(sections)|
  {
    var end := Along(c, hi);
    AlongStep(c, hi);
    assert end in Ends(sections);
    EndsWithout(sections, c, lo, hi);
  }

  lemma EndsWithout(sections: set<Section>, c: Section, lo: int, hi: int)
    requires lo <= hi && RunWithin(sections, c, lo, hi)
    requires Along(c, lo - 1) !in sections
    ensures Ends(Without(sections, c, lo, hi)) == Ends(sections) - {Along(c, hi)}
  {
    var before, after := Ends(sections), Ends(Without(sections, c, lo, hi));
    forall s | s in after
      ensures s in before - {Along(c, hi)}
    {
      EndAfter(sections, c, lo, hi, s);
    }
    forall s | s in before - {Along(c, hi)}
      ensures s in after
    {
      EndBefore(sections, c, lo, hi, s);
    }
  }

  lemma EndAfter(sections: set<Section>, c: Section, lo: int, hi: int, s: Section)
    requires lo <= hi && Along(c, lo - 1) !in sections
    requires s in Ends(Without(sections, c, lo, hi))
    ensures s in Ends(sections) && s != Along(c, hi)
  {
    NothingLeftOfRun(sections, c, lo, hi, s);
    AlongStep(c, hi);
  }

  lemma EndBefore(sections: set<Section>, c: Section, lo: int, hi: int, s: Section)
    requires RunWithin(sections, c, lo, hi)
    requires s in Ends(sections) && s != Along(c, hi)
    ensures s in Ends(Without(sections, c, lo, hi))
  {
    if OnRun(c, lo, hi, s) {
      RunInterior(sections, c, lo, hi, s);
    }
  }

  /** No section off the run has a section of the run to its left: that
      would be the section before `lo`. */
  lemma NothingLeftOfRun(sections: set<Section>, c: Section, lo: int, hi: int, s: Section)
    requires Along(c, lo - 1) !in sections
    requires s in sections && !OnRun(c, lo, hi, s)
    ensures !OnRun(c, lo, hi, LeftOf(s))
  {
    if OnRun(c, lo, hi, LeftOf(s)) {
      OnRunAlong(c, lo, hi, LeftOf(s));
      LeftOfAlong(s, c, Offset(c, LeftOf(s)));
    }
  }

  /** Within the run, only its last section is an end. */
  lemma RunInterior(sections: set<Section>, c: Section, lo: int, hi: int, s: Section)
    requires RunWithin(sections, c, lo, hi)
    requires OnRun(c, lo, hi, s) && s != Along(c, hi)
    ensures LeftOf(s) in sections
  {
    OnRunAlong(c, lo, hi, s);
    AlongStep(c, Offset(c, s));
  }

  /** One step further along the run. */
  lemma RunGrows(sections: set<Section>, c: Section, lo: int, hi: int)
    requires lo <= hi
    ensures Without(sections, c, lo, hi + 1) == Without(sections, c, lo, hi) - {Along(c, hi + 1)}
    ensures Without(sections, c, lo - 1, hi) == Without(sections, c, lo, hi) - {Along(c, lo - 1)}
  {
    forall s | s in sections && OnRun(c, lo, hi + 1, s) && !OnRun(c, lo, hi, s)
      ensures s == Along(c, hi + 1)
    {
      OnRunAlong(c, lo, hi + 1, s);
    }
    forall s | s in sections && OnRun(c, lo - 1, hi, s) && !OnRun(c, lo, hi, s)
      ensures s == Along(c, lo - 1)
    {
      OnRunAlong(c, lo - 1, hi, s);
    }
  }

  /** `Vec::remove`. */
  function Remove(vec: seq<Section>, i: nat): seq<Section>
    requires i < |vec|
  {
    vec[..i] + vec[i + 1..]
  }

  lemma RemoveDistinct(vec: seq<Section>, i: nat)
    requires i < |vec| && Distinct(vec)
    ensures Distinct(Remove(vec, i)) && |Remove(vec, i)| == |vec| - 1
    ensures Elements(Remove(vec, i)) == Elements(vec) - {vec[i]}
  {
    var r := Remove(vec, i);
    forall a, b | 0 <= a < b < |r|
      ensures r[a] != r[b]
    {
      var a', b' := if a < i then a else a + 1, if b < i then b else b + 1;
      assert r[a] == vec[a'] && r[b] == vec[b'];
    }
    forall s | s in Elements(vec) - {vec[i]}
      ensures s in r
    {
      var k :| 0 <= k < |vec| && vec[k] == s;
      assert r[if k < i then k else k - 1] == s;
    }
  }

  /** `vec` with the first `target` taken out. */
  ghost predicate Removed(vec: seq<Section>, vec': seq<Section>, target: Section) {
    exists i :: 0 <= i < |vec| && vec[i] == target && target !in vec[..i] && vec' == Remove(vec, i)
  }

  /** `Iterator::position`: the first index of `target`. */
  method Position(vec: seq<Section>, target: Section) returns (r: Option<nat>)
    ensures r.None? <==> target !in vec
    ensures r.Some? ==> r.value < |vec| && vec[r.value] == target && target !in vec[..r.value]
  {
    var i := 0;
    while i < |vec|
      invariant i <= |vec| && target !in vec[..i]
    {
      if vec[i] == target {
        return Some(i);
      }
      assert vec[..i + 1] == vec[..i] + [vec[i]];
      i := i + 1;
    }
    assert vec[..i] == vec;
    return None;
  }

  /** One walk of the loop (`left.and_then(...)` or `right.and_then(...)`):
      a walk that stopped stays stopped; otherwise the section one step on
      is looked up and, when present, removed and becomes the walk's new
      end. */
  method Follow(vec: seq<Section>, section: Option<Section>, toward: Direction, facing: Direction)
    returns (vec': seq<Section>, next: Option<Section>)
    ensures section.None? ==> next.None?
    ensures next.None? ==> vec' == vec
    ensures section.Some? ==> (next.Some? <==> Beside(section.value, toward, facing) in vec)
    ensures next.Some? ==> next.value == Beside(section.value, toward, facing) && Removed(vec, vec', next.value)
  {
    if section.None? {
      return vec, None;
    }
    var target := Beside(section.value, toward, facing);
    var index := Position(vec, target);
    if index.None? {
      return vec, None;
    }
    vec' := Remove(vec, index.value);
    next := Some(target);
  }

  lemma RemovedDistinct(vec: seq<Section>, vec': seq<Section>, target: Section)
    requires Distinct(vec) && Removed(vec, vec', target)
    ensures Distinct(vec') && |vec'| == |vec| - 1 && Elements(vec') == Elements(vec) - {target}
  {
    var i :| 0 <= i < |vec| && vec[i] == target && target !in vec[..i] && vec' == Remove(vec, i);
    RemoveDistinct(vec, i);
  }

  /** The walks from `c` so far: `left` has reached `hi` steps and `right`
      `lo` steps along the side, every section in between has been taken
      out of `vec'`, and a walk that stopped found no section one step on. */
  ghost predicate Tracing(c: Section, sections: set<Section>, vec': seq<Section>,
                          left: Option<Section>, right: Option<Section>, lo: int, hi: int)
  {
    && lo <= 0 <= hi && Distinct(vec')
    && RunWithin(sections, c, lo, hi) && Elements(vec') == Without(sections, c, lo, hi)
    && (left.Some? ==> left.value == Along(c, hi))
    && (left.None? ==> Along(c, hi + 1) !in sections)
    && (right.Some? ==> right.value == Along(c, lo))
    && (right.None? ==> Along(c, lo - 1) !in sections)
  }

  /** The inner `loop`: both walks from the popped section `c` until
      neither finds a section. What is taken out of `vec` is the whole side
      of `c`: the run `lo..hi` through it, with no section of `vec` one step
      beyond either end. */
  method TraceSide(c: Section, vec: seq<Section>) returns (vec': seq<Section>, ghost lo: int, ghost hi: int)
    requires Distinct(vec) && c !in vec
    ensures lo <= 0 <= hi && Distinct(vec')
    ensures RunWithin(Elements(vec) + {c}, c, lo, hi)
    ensures Along(c, hi + 1) !in Elements(vec) + {c} && Along(c, lo - 1) !in Elements(vec) + {c}
    ensures Elements(vec') == Without(Elements(vec) + {c}, c, lo, hi)
  {
    ghost var sections := Elements(vec) + {c};
    var left, right := Some(c), Some(c);
    vec', lo, hi := vec, 0, 0;
    StartTrace(c, vec);
    while true
      invariant Tracing(c, sections, vec', left, right, lo, hi)
      decreases |vec'|
    {
      vec', left, hi := WalkLeft(c, sections, vec', left, right, lo, hi);
      vec', right, lo := WalkRight(c, sections, vec', left, right, lo, hi);
      if left.None? && right.None? {
        break;
      }
    }
  }

  lemma StartTrace(c: Section, vec: seq<Section>)
    requires c !in vec
    ensures RunWithin(Elements(vec) + {c}, c, 0, 0)
    ensures Elements(vec) == Without(Elements(vec) + {c}, c, 0, 0)
  {
    AlongStep(c, 0);
    forall s | s in Elements(vec) + {c} && OnRun(c, 0, 0, s)
      ensures s == c
    {
      OnRunAlong(c, 0, 0, s);
    }
  }

  /** The `left` walk of one round. */
  method WalkLeft(c: Section, ghost sections: set<Section>, vec: seq<Section>, left: Option<Section>,
                  ghost right: Option<Section>, ghost lo: int, ghost hi: int)
    returns (vec': seq<Section>, left': Option<Section>, ghost hi': int)
    requires Tracing(c, sections, vec, left, right, lo, hi)
    ensures Tracing(c, sections, vec', left', right, lo, hi')
    ensures left'.None? ==> vec' == vec
    ensures left'.Some? ==> |vec'| == |vec| - 1
  {
    vec', left' := Follow(vec, left, Perpendicular(c.1).0, c.1);
    hi' := hi;
    if left.Some? {
      AlongStep(c, hi);
      assert Along(c, hi + 1) in vec <==> Along(c, hi + 1) in Elements(vec);
      if left'.Some? {
        RemovedDistinct(vec, vec', left'.value);
        RunGrows(sections, c, lo, hi);
        hi' := hi + 1;
      }
    }
  }

  /** The `right` walk of one round. */
  method WalkRight(c: Section, ghost sections: set<Section>, vec: seq<Section>, ghost left: Option<Section>,
                   right: Option<Section>, ghost lo: int, ghost hi: int)
    returns (vec': seq<Section>, right': Option<Section>, ghost lo': int)
    requires Tracing(c, sections, vec, left, right, lo, hi)
    ensures Tracing(c, sections, vec', left, right', lo', hi)
    ensures right'.None? ==> vec' == vec
    ensures right'.Some? ==> |vec'| == |vec| - 1
  {
    vec', right' := Follow(vec, right, Perpendicular(c.1).1, c.1);
    lo' := lo;
    if right.Some? {
      AlongStep(c, lo);
      assert Along(c, lo - 1) in vec <==> Along(c, lo - 1) in Elements(vec);
      if right'.Some? {
        RemovedDistinct(vec, vec', right'.value);
        RunGrows(sections, c, lo, hi);
        lo' := lo - 1;
      }
    }
  }

  /** `into_iter().collect()` of the set of sections: each section once, in
      an order the model leaves open. */
  method Collect(sections: set<Section>) returns (vec: seq<Section>)
    ensures Distinct(vec) && Elements(vec) == sections
  {
    vec := [];
    var rest := sections;
    while rest != {}
      invariant Distinct(vec) && Elements(vec) + rest == sections && Elements(vec) !! rest
      decreases |rest|
    {
      var s :| s in rest;
      vec := vec + [s];
      rest := rest - {s};
    }
  }

  /** The outer loop: pop a section, count a side, take out the rest of
      that side. The count is the number of left ends, at most the number
      of sections and at least one when there is a section. */
  method CountSides(sections: set<Section>) returns (sides: nat)
    ensures sides == |Ends(sections)|
    ensures sides <= |sections|
    ensures sections != {} ==> sides >= 1
  {
    var vec := Collect(sections);
    sides := 0;
    while vec != []
      invariant Distinct(vec) && sides + |Ends(Elements(vec))| == |Ends(sections)|
      invariant sides == 0 ==> Elements(vec) == sections
      decreases |vec|
    {
      vec := TakeSide(vec);
      sides := sides + 1;
    }
    EndsWithin(sections);
  }

  /** One round of the outer loop: pop a section and take out the rest of
      its side, which leaves one end fewer. */
  method TakeSide(vec: seq<Section>) returns (vec': seq<Section>)
    requires vec != [] && Distinct(vec)
    ensures Distinct(vec') && |vec'| < |vec|
    ensures |Ends(Elements(vec'))| + 1 == |Ends(Elements(vec))|
  {
    var current := vec[|vec| - 1];
    vec' := vec[..|vec| - 1];
    PopElements(vec);
    ghost var lo, hi;
    vec', lo, hi := TraceSide(current, vec');
    EndsOfRun(Elements(vec), current, lo, hi);
    DistinctCard(vec');
    DistinctCard(vec[..|vec| - 1]);
    WithoutSmaller(Elements(vec), current, lo, hi);
  }

  lemma WithoutSmaller(sections: set<Section>, c: Section, lo: int, hi: int)
    requires lo <= 0 <= hi && c in sections
    ensures |Without(sections, c, lo, hi)| < |sections|
  {
    AlongStep(c, 0);
    var w := Without(sections, c, lo, hi);
    assert w <= sections - {c};
    SubsetCard(w, sections - {c});
  }

  lemma SubsetCard(a: set<Section>, b: set<Section>)
    requires a <= b
    ensures |a| <= |b|
  {
    assert b == a + (b - a);
  }

  lemma PopElements(s: seq<Section>)
    requires s != [] && Distinct(s)
    ensures Distinct(s[..|s| - 1]) && Elements(s) == Elements(s[..|s| - 1]) + {s[|s| - 1]}
    ensures s[|s| - 1] !in s[..|s| - 1]
  {
    assert s == s[..|s| - 1] + [s[|s| - 1]];
  }

  /** The sections of `sections` strictly left of `s` on its line. */
  ghost function Ahead(sections: set<Section>, s: Section): set<Section> {
    set t | t in sections && t.1 == s.1 && Offset(s, t) > 0 && OnRun(s, Offset(s, t), Offset(s, t), t)
  }

  /** Some section of a non-empty set has nothing to its left: walking
      left from any section ends, since there are finitely many. */
  lemma HasEnd(sections: set<Section>)
    requires sections != {}
    ensures |Ends(sections)| >= 1
  {
    var s :| s in sections;
    var e := EndFrom(sections, s);
    assert e in Ends(sections);
  }

  lemma {:induction false} EndFrom(sections: set<Section>, s: Section) returns (e: Section)
    requires s in sections
    ensures e in Ends(sections)
    decreases |Ahead(sections, s)|
  {
    if LeftOf(s) in sections {
      AheadShrinks(sections, s);
      e := EndFrom(sections, LeftOf(s));
    } else {
      e := s;
    }
  }

  lemma AheadShrinks(sections: set<Section>, s: Section)
    requires LeftOf(s) in sections
    ensures |Ahead(sections, LeftOf(s))| < |Ahead(sections, s)|
  {
    var a, b := Ahead(sections, LeftOf(s)), Ahead(sections, s);
    AlongStep(s, 0);
    assert LeftOf(s) in b;
    assert LeftOf(s) !in a;
    assert a <= b;
    assert b == a + (b - a);
  }

  lemma EndsWithin(sections: set<Section>)
    ensures |Ends(sections)| <= |sections|
  {
    SubsetCard(Ends(sections), sections);
  }
}

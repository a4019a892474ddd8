/** Day 1 of src/bin/day1.rs: two columns of location ids. Part 1 pairs the
    columns smallest with smallest and adds the distances; part 2 adds, for
    each left id, the id times the number of times it occurs on the right. */
module Day1 {
  import opened Wrappers
  import opened Text
  import opened Sorting

  /** Why a line is refused: a column has no token, or its token is not a
      `u64`. `group` is 1 for the left column and 2 for the right. */
  datatype IdError = MissingId(group: nat) | InvalidId(group: nat, token: string)

  /** One line: the first two whitespace-separated tokens as `u64`s; any
      further tokens are ignored. */
  function ParseIds(line: string): (r: Result<(nat, nat), IdError>)
    ensures r.Ok? <==> (|SplitWhitespace(line)| >= 2
      && ParseU64(SplitWhitespace(line)[0]).Some? && ParseU64(SplitWhitespace(line)[1]).Some?)
    ensures r.Ok? ==> (Some(r.value.0) == ParseU64(SplitWhitespace(line)[0])
      && Some(r.value.1) == ParseU64(SplitWhitespace(line)[1]))
    ensures r == Err(MissingId(1)) <==> |SplitWhitespace(line)| == 0
  {
    var tokens := SplitWhitespace(line);
    if |tokens| == 0 then Err(MissingId(1))
    else match ParseU64(tokens[0])
      case None => Err(InvalidId(1, tokens[0]))
      case Some(id1) =>
        if |tokens| == 1 then Err(MissingId(2))
        else match ParseU64(tokens[1])
          case None => Err(InvalidId(2, tokens[1]))
          case Some(id2) => Ok((id1, id2))
  }

  /** `left` and `right` are the columns of the lines, line by line. */
  ghost predicate ColumnsOf(lines: seq<string>, left: seq<nat>, right: seq<nat>) {
    |left| == |lines| && |right| == |lines|
    && forall i :: 0 <= i < |lines| ==> ParseIds(lines[i]) == Ok((left[i], right[i]))
  }

  /** The loop that pushes each line's ids; the first bad line stops it. */
  method ReadColumns(lines: seq<string>) returns (r: Result<(seq<nat>, seq<nat>), IdError>)
    ensures r.Ok? <==> forall i :: 0 <= i < |lines| ==> ParseIds(lines[i]).Ok?
    ensures r.Ok? ==> ColumnsOf(lines, r.value.0, r.value.1)
    ensures r.Err? ==> exists i :: (0 <= i < |lines| && ParseIds(lines[i]) == Err(r.error)
      && forall j :: 0 <= j < i ==> ParseIds(lines[j]).Ok?)
  {
    var left: seq<nat> := [];
    var right: seq<nat> := [];
    var i := 0;
    while i < |lines|
      invariant 0 <= i <= |lines|
      invariant |left| == i && |right| == i
      invariant forall j :: 0 <= j < i ==> ParseIds(lines[j]) == Ok((left[j], right[j]))
    {
      var ids := ParseIds(lines[i]);
      if ids.Err? {
        return Err(ids.error);
      }
      left := left + [ids.value.0];
      right := right + [ids.value.1];
      i := i + 1;
    }
    r := Ok((left, right));
  }

  function AbsDiff(a: nat, b: nat): nat {
    if a < b then b - a else a - b
  }

  /** `zip(..).map(abs_diff).sum()`: the distances of the pairs in order. */
  function PairedDistance(a: seq<nat>, b: seq<nat>): nat {
    if a == [] || b == [] then 0 else AbsDiff(a[0], b[0]) + PairedDistance(a[1..], b[1..])
  }

  /** The part-1 answer for two columns. */
  function TotalDistance(left: seq<nat>, right: seq<nat>): nat {
    PairedDistance(Sort(left), Sort(right))
  }

  /** The answer depends only on which ids each column holds, not on the
      order of the lines: both columns are sorted first. */
  lemma TotalDistanceOrderFree(left: seq<nat>, right: seq<nat>, left': seq<nat>, right': seq<nat>)
    requires multiset(left) == multiset(left') && multiset(right) == multiset(right')
    ensures TotalDistance(left, right) == TotalDistance(left', right')
  {
    SortedUnique(Sort(left), Sort(left'));
    SortedUnique(Sort(right), Sort(right'));
  }

  /** Swapping the columns gives the same answer. */
  lemma {:induction false} PairedDistanceSymmetric(a: seq<nat>, b: seq<nat>)
    ensures PairedDistance(a, b) == PairedDistance(b, a)
  {
    if a != [] && b != [] {
      PairedDistanceSymmetric(a[1..], b[1..]);
    }
  }

  /** `part1`. */
  method Part1(input: string) returns (r: Result<nat, IdError>)
    ensures r.Ok? <==> forall i :: 0 <= i < |Lines(input)| ==> ParseIds(Lines(input)[i]).Ok?
    ensures r.Ok? ==> exists left, right ::
      ColumnsOf(Lines(input), left, right) && r.value == TotalDistance(left, right)
  {
    var lines := Lines(input);
    var columns := ReadColumns(lines);
    if columns.Err? {
      return Err(columns.error);
    }
    var (left, right) := columns.value;
    var sortedLeft := Sort(left);
    var sortedRight := Sort(right);
    r := Ok(PairedDistance(sortedLeft, sortedRight));
  }

  /** How often `id` occurs in `s`. */
  function Count(s: seq<nat>, id: nat): nat {
    multiset(s)[id]
  }

  /** `sums` maps each id of `s` to the id times its number of occurrences
      in `s`, and holds no other key. */
  ghost predicate SumsOf(sums: map<nat, nat>, s: seq<nat>) {
    forall id :: (id in sums <==> id in s) && (id in sums ==> sums[id] == id * Count(s, id))
  }

  /** `*group2_id_sums.entry(id).or_default() += id`. */
  function AddId(sums: map<nat, nat>, id: nat): map<nat, nat> {
    sums[id := (if id in sums then sums[id] else 0) + id]
  }

  /** Adding one occurrence of `id` keeps the entry of key `k` right. */
  lemma AddIdAt(sums: map<nat, nat>, s: seq<nat>, id: nat, k: nat)
    requires (k in sums <==> k in s) && (k in sums ==> sums[k] == k * Count(s, k))
    ensures var sums' := AddId(sums, id);
      (k in sums' <==> k in s + [id]) && (k in sums' ==> sums'[k] == k * Count(s + [id], k))
  {
    assert multiset(s + [id]) == multiset(s) + multiset{id};
    if k == id {
      var c := Count(s, k);
      assert Count(s + [id], k) == c + 1;
      assert k * (c + 1) == k * c + k;
    } else {
      assert Count(s + [id], k) == Count(s, k);
    }
  }

  lemma AddIdStep(sums: map<nat, nat>, s: seq<nat>, id: nat)
    requires SumsOf(sums, s)
    ensures SumsOf(AddId(sums, id), s + [id])
  {
    forall k {
      AddIdAt(sums, s, id, k);
    }
  }

  /** `group2_id_sums`: each id of the right column mapped to the id times
      the number of its occurrences. */
  method IdSums(right: seq<nat>) returns (sums: map<nat, nat>)
    ensures forall id :: id in sums <==> id in right
    ensures forall id :: id in sums ==> sums[id] == id * Count(right, id)
  {
    sums := map[];
    var i := 0;
    while i < |right|
      invariant 0 <= i <= |right|
      invariant SumsOf(sums, right[..i])
    {
      var id := right[i];
      assert right[..i + 1] == right[..i] + [id];
      AddIdStep(sums, right[..i], id);
      var before := if id in sums then sums[id] else 0;
      sums := sums[id := before + id];
      i := i + 1;
    }
    assert right[..i] == right;
  }

  /** `get(&id).copied().unwrap_or_default()` summed over the left column. */
  function LookupSum(left: seq<nat>, sums: map<nat, nat>): nat {
    if left == [] then 0
    else (if left[0] in sums then sums[left[0]] else 0) + LookupSum(left[1..], sums)
  }

  /** The part-2 answer for two columns: each left id times its count on the
      right. An id absent from the right adds 0. */
  function Similarity(left: seq<nat>, right: seq<nat>): nat {
    if left == [] then 0 else left[0] * Count(right, left[0]) + Similarity(left[1..], right)
  }

  /** Looking the ids up in `IdSums` gives the similarity score. */
  lemma {:induction false} LookupSumIsSimilarity(left: seq<nat>, right: seq<nat>, sums: map<nat, nat>)
    requires forall id :: id in sums <==> id in right
    requires forall id :: id in sums ==> sums[id] == id * Count(right, id)
    ensures LookupSum(left, sums) == Similarity(left, right)
  {
    if left != [] {
      LookupSumIsSimilarity(left[1..], right, sums);
    }
  }

  /** Only the right column's multiset matters for the score. */
  lemma {:induction false} SimilarityOrderFree(left: seq<nat>, right: seq<nat>, right': seq<nat>)
    requires multiset(right) == multiset(right')
    ensures Similarity(left, right) == Similarity(left, right')
  {
    if left != [] {
      SimilarityOrderFree(left[1..], right, right');
    }
  }

  /** `part2`. */
  method Part2(input: string) returns (r: Result<nat, IdError>)
    ensures r.Ok? <==> forall i :: 0 <= i < |Lines(input)| ==> ParseIds(Lines(input)[i]).Ok?
    ensures r.Ok? ==> exists left, right ::
      ColumnsOf(Lines(input), left, right) && r.value == Similarity(left, right)
  {
    var lines := Lines(input);
    var columns := ReadColumns(lines);
    if columns.Err? {
      return Err(columns.error);
    }
    var (left, right) := columns.value;
    var sums := IdSums(right);
    LookupSumIsSimilarity(left, right, sums);
    r := Ok(LookupSum(left, sums));
  }
}

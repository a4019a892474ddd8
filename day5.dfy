/** Day 5 of src/bin/day5.rs: page-ordering rules `p|q` (p must come before
    q) and updates (lists of pages). Part 1 adds the middle page of every
    update that breaks no rule; part 2 reorders every update that breaks one
    and adds the middle page of the result. */
module Day5 {
  import opened Wrappers
  import opened Text

  /** The rules: each page mapped to the pages that must come after it. */
  type Rules = map<nat, set<nat>>

  predicate Follows(rules: Rules, p: nat, q: nat) {
    p in rules && q in rules[p]
  }

  // ---------------------------------------------------------------- parsing

  /** One rule line `p|q`. */
  function RuleOf(line: string): (r: Result<(nat, nat), string>)
    ensures r.Ok? ==> SplitOnce(line, "|").Some?
  {
    match SplitOnce(line, "|")
    case None => Err("Ordering rule does not have a separator.")
    case Some((a, b)) =>
      match (ParseU64OrError(a), ParseU64OrError(b))
      case (Err(e), _) => Err(e)
      case (_, Err(e)) => Err(e)
      case (Ok(p), Ok(q)) => Ok((p, q))
  }

  /** The rule lines parsed in order; the first bad line's error otherwise. */
  function RuleList(lines: seq<string>): (r: Result<seq<(nat, nat)>, string>)
    ensures r.Ok? ==> |r.value| == |lines|
  {
    if lines == [] then Ok([])
    else
      var n := |lines| - 1;
      match RuleList(lines[..n])
      case Err(e) => Err(e)
      case Ok(pairs) =>
        match RuleOf(lines[n])
        case Err(e) => Err(e)
        case Ok(pq) => Ok(pairs + [pq])
  }

  /** `rules` holds exactly the pairs the lines state, and no page maps to
      an empty set. */
  ghost predicate RulesOf(lines: seq<string>, rules: Rules) {
    && RuleList(lines).Ok?
    && (forall p: nat, q: nat :: Follows(rules, p, q) <==> (p, q) in RuleList(lines).value)
    && (forall p :: p in rules ==> rules[p] != {})
  }

  /** `entry(p).or_default().insert(q)`: the rules with `p|q` added. */
  function AddRule(rules: Rules, p: nat, q: nat): (r: Rules)
    ensures forall a: nat, b: nat :: Follows(r, a, b) <==> Follows(rules, a, b) || (a == p && b == q)
    ensures (forall a :: a in rules ==> rules[a] != {}) ==> forall a :: a in r ==> r[a] != {}
  {
    rules[p := (if p in rules then rules[p] else {}) + {q}]
  }

  /** Parsing one more line. */
  lemma RuleListStep(lines: seq<string>, i: nat, pairs: seq<(nat, nat)>)
    requires i < |lines| && RuleList(lines[..i]) == Ok(pairs)
    ensures RuleOf(lines[i]).Ok? ==> RuleList(lines[..i + 1]) == Ok(pairs + [RuleOf(lines[i]).value])
    ensures RuleOf(lines[i]).Err? ==> RuleList(lines[..i + 1]).Err?
  {
    assert lines[..i + 1][..i] == lines[..i];
  }

  /** The loop that fills `ordering_rules`. */
  method BuildRules(lines: seq<string>) returns (r: Result<Rules, string>)
    ensures r.Ok? <==> RuleList(lines).Ok?
    ensures r.Ok? ==> RulesOf(lines, r.value)
  {
    var rules: Rules := map[];
    ghost var pairs: seq<(nat, nat)> := [];
    var i := 0;
    while i < |lines|
      invariant 0 <= i <= |lines|
      invariant RuleList(lines[..i]) == Ok(pairs)
      invariant forall p: nat, q: nat :: Follows(rules, p, q) <==> (p, q) in pairs
      invariant forall p :: p in rules ==> rules[p] != {}
    {
      RuleListStep(lines, i, pairs);
      var rule := RuleOf(lines[i]);
      if rule.Err? {
        RuleListErrPersists(lines, i + 1);
        return Err(rule.error);
      }
      var (p, q) := rule.value;
      rules := AddRule(rules, p, q);
      pairs := pairs + [(p, q)];
      i := i + 1;
    }
    assert lines[..i] == lines;
    r := Ok(rules);
  }

  /** The first bad line decides the error, whatever follows. */
  lemma {:induction false} RuleListErrPersists(lines: seq<string>, k: nat)
    requires k <= |lines| && RuleList(lines[..k]).Err?
    ensures RuleList(lines).Err? && RuleList(lines).error == RuleList(lines[..k]).error
    decreases |lines| - k
  {
    if k == |lines| {
      assert lines[..k] == lines;
    } else {
      assert lines[..k + 1][..k] == lines[..k];
      RuleListErrPersists(lines, k + 1);
    }
  }

  /** One update line: comma-separated `u64` pages. */
  function UpdateOf(line: string): Result<seq<nat>, string> {
    ParseEach(Split(line, ','), ParseU64OrError)
  }

  /** An update both parts accept: it parses and has an odd number of pages. */
  predicate UpdateOk(line: string) {
    UpdateOf(line).Ok? && |UpdateOf(line).value| % 2 == 1
  }

  /** The parse of one update line followed by the odd-length check. */
  method ReadUpdate(line: string) returns (r: Result<seq<nat>, string>)
    ensures r.Ok? <==> UpdateOk(line)
    ensures r.Ok? ==> UpdateOf(line) == Ok(r.value) && |r.value| % 2 == 1
  {
    r := UpdateOf(line);
    if r.Ok? && |r.value| % 2 == 0 {
      r := Err("The number of page numbers for a given update should be odd.");
    }
  }

  /** Every update line is well formed. */
  ghost predicate UpdatesOk(lines: seq<string>) {
    forall i :: 0 <= i < |lines| ==> UpdateOk(lines[i])
  }

  /** `updates` are the pages of the lines, each of odd length. */
  ghost predicate UpdatesOf(lines: seq<string>, updates: seq<seq<nat>>) {
    |updates| == |lines| && forall i :: 0 <= i < |lines| ==> UpdateOf(lines[i]) == Ok(updates[i]) && |updates[i]| % 2 == 1
  }

  /** The lines fix the rules: two maps both holding exactly the stated
      pairs, with no empty set, are the same map. */
  lemma RulesOfUnique(lines: seq<string>, a: Rules, b: Rules)
    requires RulesOf(lines, a) && RulesOf(lines, b)
    ensures a == b
  {
    forall p | p in a
      ensures p in b && a[p] == b[p]
    {
      var q :| q in a[p];
      assert Follows(a, p, q);
      assert forall x :: x in a[p] <==> Follows(a, p, x);
      assert forall x :: x in b[p] <==> Follows(b, p, x);
    }
    forall p | p in b
      ensures p in a
    {
      var q :| q in b[p];
      assert Follows(b, p, q);
    }
  }

  /** The lines fix the updates. */
  lemma UpdatesOfUnique(lines: seq<string>, a: seq<seq<nat>>, b: seq<seq<nat>>)
    requires UpdatesOf(lines, a) && UpdatesOf(lines, b)
    ensures a == b
  {
    forall i | 0 <= i < |a|
      ensures a[i] == b[i]
    {
      assert UpdateOf(lines[i]) == Ok(a[i]) && UpdateOf(lines[i]) == Ok(b[i]);
    }
  }

  /** The whole input is accepted: two sections, every rule and every update
      well formed. */
  ghost predicate InputOk(input: string) {
    SplitOnce(input, "\n\n").Some?
    && RuleList(Lines(SplitOnce(input, "\n\n").value.0)).Ok?
    && UpdatesOk(Lines(SplitOnce(input, "\n\n").value.1))
  }

  /** `rules` and `updates` are what the input says. */
  ghost predicate Parsed(input: string, rules: Rules, updates: seq<seq<nat>>) {
    SplitOnce(input, "\n\n").Some?
    && RulesOf(Lines(SplitOnce(input, "\n\n").value.0), rules)
    && UpdatesOf(Lines(SplitOnce(input, "\n\n").value.1), updates)
  }

  /** The input fixes the rules and the updates, so the parts' answers,
      stated over them, are fixed too. */
  lemma ParsedUnique(input: string, rules: Rules, updates: seq<seq<nat>>, rules': Rules, updates': seq<seq<nat>>)
    requires Parsed(input, rules, updates) && Parsed(input, rules', updates')
    ensures rules == rules' && updates == updates'
  {
    var (first, second) := SplitOnce(input, "\n\n").value;
    RulesOfUnique(Lines(first), rules, rules');
    UpdatesOfUnique(Lines(second), updates, updates');
  }

  // ------------------------------------------------------------ correctness

  /** No page comes after a page it must precede. */
  predicate Correct(pages: seq<nat>, rules: Rules) {
    forall i, j :: 0 <= i < j < |pages| ==> !Follows(rules, pages[j], pages[i])
  }

  /** The scan with `seen_pages`: a page whose rule set meets the pages seen
      so far stops it. */
  method CheckOrder(pages: seq<nat>, rules: Rules) returns (correct: bool)
    ensures correct <==> Correct(pages, rules)
  {
    var seen: set<nat> := {};
    var k := 0;
    while k < |pages|
      invariant 0 <= k <= |pages|
      invariant seen == set i | 0 <= i < k :: pages[i]
      invariant forall i, j :: 0 <= i < j < k ==> !Follows(rules, pages[j], pages[i])
    {
      var page := pages[k];
      if page in rules && rules[page] * seen != {} {
        var q :| q in rules[page] * seen;
        var i :| 0 <= i < k && pages[i] == q;
        assert Follows(rules, pages[k], pages[i]);
        return false;
      }
      forall i | 0 <= i < k
        ensures !Follows(rules, page, pages[i])
      {
        assert pages[i] in seen;
      }
      seen := seen + {page};
      k := k + 1;
    }
    correct := true;
  }

  /** The middle page of an update. */
  function Middle(pages: seq<nat>): nat
    requires |pages| % 2 == 1
  {
    pages[|pages| / 2]
  }

  /** Part 1's sum: the middle page of every correct update. */
  function CorrectMiddleSum(updates: seq<seq<nat>>, rules: Rules): nat
    requires forall k :: 0 <= k < |updates| ==> |updates[k]| % 2 == 1
  {
    if updates == [] then 0
    else
      var u := updates[|updates| - 1];
      CorrectMiddleSum(updates[..|updates| - 1], rules) + if Correct(u, rules) then Middle(u) else 0
  }

  // ------------------------------------------------------------- reordering

  /** The rules restricted to the pages of an update, dropping pages left
      with no later page. */
  function Restrict(rules: Rules, pageSet: set<nat>): (r: Rules)
    ensures forall p: nat, q: nat :: Follows(r, p, q) <==> Follows(rules, p, q) && p in pageSet && q in pageSet
    ensures forall p :: p in r ==> r[p] != {}
  {
    var r := map p | p in rules && p in pageSet && rules[p] * pageSet != {} :: rules[p] * pageSet;
    assert forall p: nat, q: nat :: Follows(rules, p, q) && p in pageSet && q in pageSet ==> q in rules[p] * pageSet;
    r
  }

  function PageSet(pages: seq<nat>): (s: set<nat>)
    ensures forall p :: p in s <==> p in pages
  {
    set i | 0 <= i < |pages| :: pages[i]
  }

  /** Restricting the rules to its pages does not change whether an update
      is correct. */
  lemma RestrictKeepsCorrect(pages: seq<nat>, rules: Rules)
    ensures Correct(pages, Restrict(rules, PageSet(pages))) <==> Correct(pages, rules)
  {
  }

  /** A numbering of the pages that every rule among them increases: the
      rules among the pages have no cycle. */
  ghost predicate Ranked(rules: Rules, pages: seq<nat>, rank: map<nat, nat>) {
    (forall p :: p in pages ==> p in rank)
    && forall p: nat, q: nat :: Follows(rules, p, q) && p in pages && q in pages ==> rank[p] < rank[q]
  }

  ghost predicate Acyclic(rules: Rules, pages: seq<nat>) {
    exists rank :: Ranked(rules, pages, rank)
  }

  /** The loop's removal of an emitted page: it leaves every rule set, and
      rule sets that become empty go. */
  function RemovePage(rules: Rules, page: nat): (r: Rules)
    ensures forall p: nat, q: nat :: Follows(r, p, q) <==> Follows(rules, p, q) && q != page
    ensures forall p :: p in r ==> r[p] != {}
  {
    var r := map p | p in rules && rules[p] - {page} != {} :: rules[p] - {page};
    assert forall p: nat, q: nat :: Follows(rules, p, q) && q != page ==> q in rules[p] - {page};
    r
  }

  /** What the reordering promises: a permutation of the update in which
      every page comes after all the pages it must precede, i.e. the reverse
      of an order that respects the rules. */
  ghost predicate ReverseOrdered(pages: seq<nat>, rules: Rules, out: seq<nat>) {
    multiset(out) == multiset(pages)
    && forall j, q: nat :: 0 <= j < |out| && Follows(rules, out[j], q) ==> q in out[..j]
  }

  /** Some page of a non-empty queue has no rule left, given a ranking: one
      of greatest rank. */
  lemma FreePageExists(queue: seq<nat>, rules: Rules, rank: map<nat, nat>)
    requires |queue| > 0 && forall p :: p in queue ==> p in rank
    requires forall p: nat, q: nat :: Follows(rules, p, q) ==> q in queue && p in rank && q in rank && rank[p] < rank[q]
    requires forall p :: p in rules ==> rules[p] != {}
    ensures exists i :: 0 <= i < |queue| && queue[i] !in rules
  {
    var top := TopRanked(queue, rank);
    HigherRanked(queue, rules, rank, queue[top]);
  }

  /** A page with a rule left must precede a page of greater rank still in
      the queue. */
  lemma HigherRanked(queue: seq<nat>, rules: Rules, rank: map<nat, nat>, p: nat)
    requires forall p: nat, q: nat :: Follows(rules, p, q) ==> q in queue && p in rank && q in rank && rank[p] < rank[q]
    requires forall p :: p in rules ==> rules[p] != {}
    ensures p in rules ==> exists j :: 0 <= j < |queue| && queue[j] in rank && p in rank && rank[queue[j]] > rank[p]
  {
    if p in rules {
      var q :| q in rules[p];
      assert Follows(rules, p, q);
      var j :| 0 <= j < |queue| && queue[j] == q;
    }
  }

  /** An index of greatest rank. */
  function TopRanked(queue: seq<nat>, rank: map<nat, nat>): (i: nat)
    requires |queue| > 0 && forall p :: p in queue ==> p in rank
    ensures i < |queue| && forall j :: 0 <= j < |queue| ==> rank[queue[j]] <= rank[queue[i]]
  {
    if |queue| == 1 then 0
    else
      var i := TopRanked(queue[1..], rank);
      assert forall j :: 1 <= j < |queue| ==> queue[j] == queue[1..][j - 1];
      if rank[queue[0]] >= rank[queue[i + 1]] then 0 else i + 1
  }

  /** How many pops until a page with no rule left comes up. */
  ghost function FirstFree(queue: seq<nat>, rules: Rules): (i: nat)
    requires exists i :: 0 <= i < |queue| && queue[i] !in rules
    ensures i < |queue| && queue[i] !in rules && forall j :: 0 <= j < i ==> queue[j] in rules
  {
    if queue[0] !in rules then 0
    else
      assert exists i :: 0 <= i < |queue[1..]| && queue[1..][i] !in rules by {
        var i :| 0 <= i < |queue| && queue[i] !in rules;
        assert queue[1..][i - 1] == queue[i];
      }
      var i := FirstFree(queue[1..], rules);
      assert forall j :: 1 <= j < |queue| ==> queue[j] == queue[1..][j - 1];
      i + 1
  }

  /** A page that must wait goes to the back: the free page comes one pop
      nearer. */
  lemma RotateFree(queue: seq<nat>, rules: Rules)
    requires |queue| > 0 && queue[0] in rules && exists i :: 0 <= i < |queue| && queue[i] !in rules
    ensures exists i :: 0 <= i < |queue[1..] + [queue[0]]| && (queue[1..] + [queue[0]])[i] !in rules
    ensures FirstFree(queue[1..] + [queue[0]], rules) < FirstFree(queue, rules)
  {
    var q := queue[1..] + [queue[0]];
    var f := FirstFree(queue, rules);
    assert q[f - 1] == queue[f];
    assert forall j :: 0 <= j < f - 1 ==> q[j] == queue[j + 1];
  }

  /** The loop state of the reordering. */
  ghost predicate ReorderInv(pages: seq<nat>, rules0: Rules, rank: map<nat, nat>,
                             rules: Rules, queue: seq<nat>, out: seq<nat>) {
    && multiset(out) + multiset(queue) == multiset(pages)
    && (forall p :: p in rules ==> rules[p] != {})
    && (forall p: nat, q: nat :: Follows(rules, p, q) ==> q in queue && Follows(rules0, p, q))
    && (forall p: nat, q: nat :: Follows(rules0, p, q) && q !in out ==> Follows(rules, p, q))
    && (forall j, q: nat :: 0 <= j < |out| && Follows(rules0, out[j], q) ==> q in out[..j])
    && (forall p :: p in pages ==> p in rank)
    && (forall p: nat, q: nat :: Follows(rules0, p, q) ==> p in pages && q in pages && rank[p] < rank[q])
  }

  /** Emitting a free page keeps the loop state. */
  lemma EmitStep(pages: seq<nat>, rules0: Rules, rank: map<nat, nat>, rules: Rules, queue: seq<nat>, out: seq<nat>)
    requires ReorderInv(pages, rules0, rank, rules, queue, out) && |queue| > 0 && queue[0] !in rules
    ensures ReorderInv(pages, rules0, rank, RemovePage(rules, queue[0]), queue[1..], out + [queue[0]])
  {
    var page := queue[0];
    var rules', queue', out' := RemovePage(rules, page), queue[1..], out + [page];
    assert queue == [page] + queue';
    assert multiset(out') + multiset(queue') == multiset(pages);
    forall p, q | Follows(rules', p, q)
      ensures q in queue'
    {
      assert q in queue && q != page;
    }
    forall j, q | 0 <= j < |out'| && Follows(rules0, out'[j], q)
      ensures q in out'[..j]
    {
      if j < |out| {
        assert out'[..j] == out[..j];
      } else {
        assert out'[..j] == out;
        assert q in out;
      }
    }
  }

  /** Pushing a waiting page to the back keeps the loop state. */
  lemma WaitStep(pages: seq<nat>, rules0: Rules, rank: map<nat, nat>, rules: Rules, queue: seq<nat>, out: seq<nat>)
    requires ReorderInv(pages, rules0, rank, rules, queue, out) && |queue| > 0
    ensures ReorderInv(pages, rules0, rank, rules, queue[1..] + [queue[0]], out)
  {
    var queue' := queue[1..] + [queue[0]];
    assert queue == [queue[0]] + queue[1..];
    assert multiset(queue') == multiset(queue);
    forall p | p in queue
      ensures p in queue'
    {
      assert p in multiset(queue');
    }
  }

  /** What the queue loop needs at every turn: no empty rule set, every rule
      between queued pages, no cycle among them, and (hence) a free page
      whenever the queue is not empty. */
  ghost predicate QueueReady(rules: Rules, queue: seq<nat>) {
    && (forall p :: p in rules ==> rules[p] != {})
    && (forall p: nat, q: nat :: Follows(rules, p, q) ==> p in queue && q in queue)
    && Acyclic(rules, queue)
    && (|queue| > 0 ==> exists i :: 0 <= i < |queue| && queue[i] !in rules)
  }

  /** Without a cycle a non-empty queue has a free page. */
  lemma ReadyFree(rules: Rules, queue: seq<nat>, rank: map<nat, nat>)
    requires forall p :: p in rules ==> rules[p] != {}
    requires forall p: nat, q: nat :: Follows(rules, p, q) ==> p in queue && q in queue
    requires Ranked(rules, queue, rank)
    ensures |queue| > 0 ==> exists i :: 0 <= i < |queue| && queue[i] !in rules
  {
    if |queue| > 0 {
      FreePageExists(queue, rules, rank);
    }
  }

  /** Emitting the free page at the front keeps the queue ready. */
  lemma EmitReady(rules: Rules, queue: seq<nat>)
    requires QueueReady(rules, queue) && |queue| > 0 && queue[0] !in rules
    ensures QueueReady(RemovePage(rules, queue[0]), queue[1..])
  {
    var page := queue[0];
    var rules', queue' := RemovePage(rules, page), queue[1..];
    var rank :| Ranked(rules, queue, rank);
    assert queue == [page] + queue';
    forall p: nat, q: nat | Follows(rules', p, q)
      ensures p in queue' && q in queue'
    {
      assert Follows(rules, p, q) && p != page && q != page;
    }
    assert Ranked(rules', queue', rank);
    ReadyFree(rules', queue', rank);
  }

  /** Pushing the front page to the back keeps the queue ready. */
  lemma WaitReady(rules: Rules, queue: seq<nat>)
    requires QueueReady(rules, queue) && |queue| > 0 && queue[0] in rules
    ensures QueueReady(rules, queue[1..] + [queue[0]])
  {
    var queue' := queue[1..] + [queue[0]];
    var rank :| Ranked(rules, queue, rank);
    assert queue == [queue[0]] + queue[1..];
    assert forall p :: p in queue <==> p in queue';
    assert Ranked(rules, queue', rank);
    RotateFree(queue, rules);
  }

  /** The pages in the order the queue loop emits them: pop the front page;
      emit it when no rule still makes it wait for another page, and drop it
      from the rules; otherwise push it to the back. */
  function Drain(rules: Rules, queue: seq<nat>): (r: seq<nat>)
    requires QueueReady(rules, queue)
    ensures |r| == |queue|
    decreases |queue|, if |queue| > 0 then FirstFree(queue, rules) else 0
  {
    if |queue| == 0 then []
    else if queue[0] !in rules then
      EmitReady(rules, queue);
      [queue[0]] + Drain(RemovePage(rules, queue[0]), queue[1..])
    else
      WaitReady(rules, queue);
      RotateFree(queue, rules);
      Drain(rules, queue[1..] + [queue[0]])
  }

  /** Whatever the loop has emitted so far, the rest of the run completes a
      permutation in which every page comes after the pages it must precede. */
  lemma {:induction false} DrainOrdered(pages: seq<nat>, rules0: Rules, rank: map<nat, nat>,
                                        rules: Rules, queue: seq<nat>, out: seq<nat>)
    requires ReorderInv(pages, rules0, rank, rules, queue, out) && QueueReady(rules, queue)
    ensures ReverseOrdered(pages, rules0, out + Drain(rules, queue))
    decreases |queue|, if |queue| > 0 then FirstFree(queue, rules) else 0
  {
    if |queue| == 0 {
      assert out + Drain(rules, queue) == out;
    } else if queue[0] !in rules {
      EmitStep(pages, rules0, rank, rules, queue, out);
      EmitReady(rules, queue);
      DrainOrdered(pages, rules0, rank, RemovePage(rules, queue[0]), queue[1..], out + [queue[0]]);
      assert out + Drain(rules, queue) == (out + [queue[0]]) + Drain(RemovePage(rules, queue[0]), queue[1..]);
    } else {
      WaitStep(pages, rules0, rank, rules, queue, out);
      WaitReady(rules, queue);
      RotateFree(queue, rules);
      DrainOrdered(pages, rules0, rank, rules, queue[1..] + [queue[0]], out);
    }
  }

  /** The rules an update is reordered under start the queue loop ready. */
  lemma RestrictReady(pages: seq<nat>, rules: Rules)
    requires Acyclic(rules, pages)
    ensures QueueReady(Restrict(rules, PageSet(pages)), pages)
  {
    var restricted := Restrict(rules, PageSet(pages));
    var rank :| Ranked(rules, pages, rank);
    assert Ranked(restricted, pages, rank);
    ReadyFree(restricted, pages, rank);
  }

  /** Part 2's reordering of an update without rule cycles, under the rules
      restricted to its pages. */
  function QueueOrder(pages: seq<nat>, rules: Rules): (r: seq<nat>)
    requires Acyclic(rules, pages)
    ensures |r| == |pages|
  {
    RestrictReady(pages, rules);
    Drain(Restrict(rules, PageSet(pages)), pages)
  }

  /** The queue's order is a permutation of the update in which every page
      comes after all the pages it must precede, and it has the update's
      length. */
  lemma QueueOrderOrdered(pages: seq<nat>, rules: Rules)
    requires Acyclic(rules, pages)
    ensures ReverseOrdered(pages, Restrict(rules, PageSet(pages)), QueueOrder(pages, rules))
  {
    var restricted := Restrict(rules, PageSet(pages));
    var rank :| Ranked(rules, pages, rank);
    RestrictReady(pages, rules);
    assert ReorderInv(pages, restricted, rank, restricted, pages, []);
    DrainOrdered(pages, restricted, rank, restricted, pages, []);
    assert [] + Drain(restricted, pages) == QueueOrder(pages, rules);
  }

  /** The reordering loop, with a `VecDeque` modelled as a sequence: it
      emits the queue's order. */
  method Reorder(pages: seq<nat>, rules0: Rules) returns (out: seq<nat>)
    requires QueueReady(rules0, pages)
    ensures out == Drain(rules0, pages)
  {
    var rules := rules0;
    var queue := pages;
    out := [];
    while |queue| > 0
      invariant QueueReady(rules, queue)
      invariant out + Drain(rules, queue) == Drain(rules0, pages)
      decreases |queue|, if |queue| > 0 then FirstFree(queue, rules) else 0
    {
      var page := queue[0];
      if page !in rules {
        EmitReady(rules, queue);
        assert Drain(rules, queue) == [page] + Drain(RemovePage(rules, page), queue[1..]);
        assert out + Drain(rules, queue) == (out + [page]) + Drain(RemovePage(rules, page), queue[1..]);
        out := out + [page];
        rules := RemovePage(rules, page);
        queue := queue[1..];
      } else {
        WaitReady(rules, queue);
        RotateFree(queue, rules);
        assert Drain(rules, queue) == Drain(rules, queue[1..] + [page]);
        queue := queue[1..] + [page];
      }
    }
    assert out + [] == out;
  }

  function Reverse(s: seq<nat>): (r: seq<nat>)
    ensures |r| == |s| && forall i :: 0 <= i < |s| ==> r[i] == s[|s| - 1 - i]
  {
    if s == [] then [] else Reverse(s[1..]) + [s[0]]
  }

  /** For an update without repeated pages, reversing the reordering gives an
      order that breaks no rule. */
  lemma ReversedIsCorrect(pages: seq<nat>, rules: Rules, out: seq<nat>)
    requires ReverseOrdered(pages, rules, out)
    requires forall i, j :: 0 <= i < j < |pages| ==> pages[i] != pages[j]
    ensures Correct(Reverse(out), rules)
  {
    var n := |out|;
    var rev := Reverse(out);
    assert |out| == |pages| by {
      assert |multiset(out)| == |multiset(pages)|;
    }
    forall i, j | 0 <= i < j < n
      ensures !Follows(rules, rev[j], rev[i])
    {
      var a, b := n - 1 - j, n - 1 - i;
      assert rev[j] == out[a] && rev[i] == out[b] && a < b;
      if Follows(rules, out[a], out[b]) {
        assert out[b] in out[..a];
        var k :| 0 <= k < a && out[k] == out[b];
        DistinctPermutation(pages, out, k, b);
      }
    }
  }

  /** Reordering fixes an update without repeated pages: read backwards,
      the result breaks none of the rules. */
  lemma ReorderFixes(pages: seq<nat>, rules: Rules, out: seq<nat>)
    requires ReverseOrdered(pages, Restrict(rules, PageSet(pages)), out)
    requires forall i, j :: 0 <= i < j < |pages| ==> pages[i] != pages[j]
    ensures Correct(Reverse(out), rules)
  {
    ReversedIsCorrect(pages, Restrict(rules, PageSet(pages)), out);
    var rev := Reverse(out);
    assert PageSet(rev) == PageSet(pages) by {
      forall p
        ensures p in rev <==> p in pages
      {
        assert p in rev <==> p in multiset(out) by {
          if p in rev {
            var i :| 0 <= i < |rev| && rev[i] == p;
            assert out[|out| - 1 - i] == p;
          }
          if p in multiset(out) {
            var i :| 0 <= i < |out| && out[i] == p;
            assert rev[|out| - 1 - i] == p;
          }
        }
      }
    }
    RestrictKeepsCorrect(rev, rules);
  }

  /** A permutation of a sequence without repeats has none either. */
  lemma DistinctPermutation(pages: seq<nat>, out: seq<nat>, k: nat, b: nat)
    requires multiset(out) == multiset(pages) && k < b < |out|
    requires forall i, j :: 0 <= i < j < |pages| ==> pages[i] != pages[j]
    ensures out[k] != out[b]
  {
    if out[k] == out[b] {
      var x := out[k];
      assert multiset(out)[x] >= 2 by {
        assert out == out[..k] + [x] + out[k + 1..b] + [x] + out[b + 1..];
      }
      CountAtMostOne(pages, x);
      assert false;
    }
  }

  lemma {:induction false} CountAtMostOne(s: seq<nat>, x: nat)
    requires forall i, j :: 0 <= i < j < |s| ==> s[i] != s[j]
    ensures multiset(s)[x] <= 1
  {
    if s != [] {
      assert s == [s[0]] + s[1..];
      CountAtMostOne(s[1..], x);
      if s[0] == x {
        assert x !in s[1..];
      }
    }
  }

  /** Part 2's sum: the middle page of the queue's order of each incorrect
      update. An update with a rule cycle never leaves the source's loop; it
      adds nothing here, and `Terminates` rules it out. */
  ghost function ReorderedMiddleSum(updates: seq<seq<nat>>, rules: Rules): nat
    requires forall k :: 0 <= k < |updates| ==> |updates[k]| % 2 == 1
  {
    if updates == [] then 0
    else
      var n := |updates| - 1;
      var u := updates[n];
      ReorderedMiddleSum(updates[..n], rules)
      + if Correct(u, rules) || !Acyclic(rules, u) then 0 else Middle(QueueOrder(u, rules))
  }

  // ------------------------------------------------------------------ parts

  lemma UpdatesOfSnoc(lines: seq<string>, updates: seq<seq<nat>>, i: nat, pages: seq<nat>)
    requires i < |lines| && UpdatesOf(lines[..i], updates) && UpdateOf(lines[i]) == Ok(pages) && |pages| % 2 == 1
    ensures UpdatesOf(lines[..i + 1], updates + [pages])
    ensures (updates + [pages])[..|updates|] == updates
  {
    assert (updates + [pages])[..|updates|] == updates;
    forall j | 0 <= j < i + 1
      ensures UpdateOf(lines[..i + 1][j]) == Ok((updates + [pages])[j])
    {
      if j < i {
        assert lines[..i + 1][j] == lines[..i][j];
      }
    }
  }

  /** The first section's rules and the second section's lines, or why
      they are refused. */
  method ReadRules(input: string) returns (r: Result<(Rules, seq<string>), string>)
    ensures r.Ok? <==> SplitOnce(input, "\n\n").Some? && RuleList(Lines(SplitOnce(input, "\n\n").value.0)).Ok?
    ensures r.Ok? ==> (SplitOnce(input, "\n\n").Some?
      && RulesOf(Lines(SplitOnce(input, "\n\n").value.0), r.value.0)
      && r.value.1 == Lines(SplitOnce(input, "\n\n").value.1))
  {
    var sections := SplitOnce(input, "\n\n");
    if sections.None? {
      return Err("Input is not comprised of 2 sections.");
    }
    var (rulesText, updatesText) := sections.value;
    var rules := BuildRules(Lines(rulesText));
    if rules.Err? {
      return Err(rules.error);
    }
    r := Ok((rules.value, Lines(updatesText)));
  }

  lemma CorrectSumSnoc(updates: seq<seq<nat>>, rules: Rules, pages: seq<nat>)
    requires (forall k :: 0 <= k < |updates| ==> |updates[k]| % 2 == 1) && |pages| % 2 == 1
    ensures forall k :: 0 <= k < |updates + [pages]| ==> |(updates + [pages])[k]| % 2 == 1
    ensures CorrectMiddleSum(updates + [pages], rules)
      == CorrectMiddleSum(updates, rules) + if Correct(pages, rules) then Middle(pages) else 0
  {
    assert (updates + [pages])[..|updates|] == updates;
  }

  /** One line of part 1: its update is read, checked, and its middle page
      added to the sum so far when it breaks no rule. */
  method TallyCorrect(rules: Rules, line: string, ghost updates: seq<seq<nat>>, sum: nat) returns (r: Result<nat, string>)
    requires forall k :: 0 <= k < |updates| ==> |updates[k]| % 2 == 1
    requires sum == CorrectMiddleSum(updates, rules)
    ensures r.Ok? <==> UpdateOk(line)
    ensures r.Ok? ==> UpdateOk(line) && r.value == CorrectMiddleSum(updates + [UpdateOf(line).value], rules)
  {
    var pages := ReadUpdate(line);
    if pages.Err? {
      return Err(pages.error);
    }
    var correct := CheckOrder(pages.value, rules);
    var middle := if correct then pages.value[|pages.value| / 2] else 0;
    CorrectSumSnoc(updates, rules, pages.value);
    r := Ok(sum + middle);
  }

  /** Part 1's loop over the update lines. */
  method SumCorrect(rules: Rules, lines: seq<string>) returns (r: Result<nat, string>)
    ensures r.Ok? <==> UpdatesOk(lines)
    ensures r.Ok? ==> exists updates :: UpdatesOf(lines, updates) && r.value == CorrectMiddleSum(updates, rules)
  {
    var sum := 0;
    ghost var updates: seq<seq<nat>> := [];
    var i := 0;
    while i < |lines|
      invariant 0 <= i <= |lines|
      invariant UpdatesOf(lines[..i], updates)
      invariant sum == CorrectMiddleSum(updates, rules)
    {
      var tallied := TallyCorrect(rules, lines[i], updates, sum);
      if tallied.Err? {
        assert !UpdateOk(lines[i]);
        return Err(tallied.error);
      }
      ghost var pages := UpdateOf(lines[i]).value;
      UpdatesOfSnoc(lines, updates, i, pages);
      updates := updates + [pages];
      sum := tallied.value;
      i := i + 1;
    }
    assert lines[..i] == lines;
    r := Ok(sum);
  }

  /** `part1`. */
  method Part1(input: string) returns (r: Result<nat, string>)
    ensures r.Ok? <==> InputOk(input)
    ensures r.Ok? ==> exists rules, updates :: Parsed(input, rules, updates) && r.value == CorrectMiddleSum(updates, rules)
  {
    var read := ReadRules(input);
    if read.Err? {
      return Err(read.error);
    }
    var (rules, lines) := read.value;
    r := SumCorrect(rules, lines);
  }

  /** Every incorrect update the loop reaches (all lines before it, and it,
      well formed) has pages free of rule cycles; lines after the first
      refused one are never reordered. */
  ghost predicate Halts(rules: Rules, lines: seq<string>) {
    forall i ::
      (0 <= i < |lines| && UpdatesOk(lines[..i]) && UpdateOk(lines[i]) &&
       !Correct(UpdateOf(lines[i]).value, rules)) ==>
      Acyclic(rules, UpdateOf(lines[i]).value)
  }

  /** What part 2 needs to halt: the reordering only ends when the pages it
      reorders have no rule cycle. */
  ghost predicate Terminates(input: string) {
    SplitOnce(input, "\n\n").Some? ==>
      forall rules :: RulesOf(Lines(SplitOnce(input, "\n\n").value.0), rules) ==>
        Halts(rules, Lines(SplitOnce(input, "\n\n").value.1))
  }

  /** Part 2 on one update: nothing for a correct one, the middle of the
      queue's order for an incorrect one. */
  method Reordered(pages: seq<nat>, rules: Rules) returns (middle: nat)
    requires |pages| % 2 == 1
    requires !Correct(pages, rules) ==> Acyclic(rules, pages)
    ensures middle == if Correct(pages, rules) then 0 else Middle(QueueOrder(pages, rules))
  {
    var restricted := Restrict(rules, PageSet(pages));
    var correct := CheckOrder(pages, restricted);
    RestrictKeepsCorrect(pages, rules);
    if correct {
      return 0;
    }
    RestrictReady(pages, rules);
    var reversed := Reorder(pages, restricted);
    middle := reversed[|reversed| / 2];
  }

  /** Part 2's loop over the update lines. */
  method SumReordered(rules: Rules, lines: seq<string>) returns (r: Result<nat, string>)
    requires Halts(rules, lines)
    ensures r.Ok? <==> UpdatesOk(lines)
    ensures r.Ok? ==> exists updates ::
      UpdatesOf(lines, updates) && r.value == ReorderedMiddleSum(updates, rules)
  {
    var sum := 0;
    ghost var updates: seq<seq<nat>> := [];
    var i := 0;
    while i < |lines|
      invariant 0 <= i <= |lines|
      invariant UpdatesOf(lines[..i], updates)
      invariant sum == ReorderedMiddleSum(updates, rules)
    {
      var pages := ReadUpdate(lines[i]);
      if pages.Err? {
        assert !UpdateOk(lines[i]);
        return Err(pages.error);
      }
      assert UpdateOk(lines[i]) && UpdateOf(lines[i]).value == pages.value;
      assert UpdatesOk(lines[..i]) by {
        forall j | 0 <= j < i ensures UpdateOk(lines[..i][j]) {
          assert lines[..i][j] == lines[j];
        }
      }
      var middle := Reordered(pages.value, rules);
      UpdatesOfSnoc(lines, updates, i, pages.value);
      updates := updates + [pages.value];
      sum := sum + middle;
      i := i + 1;
    }
    assert lines[..i] == lines;
    r := Ok(sum);
  }

  /** `part2`: halts when no incorrect update has a rule cycle. */
  method Part2(input: string) returns (r: Result<nat, string>)
    requires Terminates(input)
    ensures r.Ok? <==> InputOk(input)
    ensures r.Ok? ==> exists rules, updates ::
      Parsed(input, rules, updates) && r.value == ReorderedMiddleSum(updates, rules)
  {
    var read := ReadRules(input);
    if read.Err? {
      return Err(read.error);
    }
    var (rules, lines) := read.value;
    r := SumReordered(rules, lines);
  }
}

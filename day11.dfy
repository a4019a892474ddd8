/** Day 11 of src/bin/day11.rs: a line of numbered stones changes at every
    blink; the answer is the number of stones after 25 (part 1) or 75
    (part 2) blinks. */
module Day11 {
  import opened Wrappers
  import opened Text
  import opened Digits

  /** A positive stone whose `ilog10` is odd has an even number of digits
      and splits in two. */
  predicate Splits(n: nat) {
    n != 0 && (NumDigits(n) - 1) % 2 == 1
  }

  /** What one stone becomes: 0 becomes 1, an even-digit stone splits into
      its high and low halves, any other is multiplied by 2024. */
  function Rewrite(n: nat): (r: seq<nat>)
    ensures |r| == if Splits(n) then 2 else 1
  {
    if n == 0 then [1]
    else if Splits(n) then
      var divisor := Pow10(NumDigits(n) / 2);
      var a := n / divisor;
      [a, n - a * divisor]
    else [n * 2024]
  }

  /** The halves of a split stone: `n == a·10^h + b` with `b < 10^h`, where
      `a` has exactly `h` digits and `h` is half the digit count of `n`. */
  lemma SplitHalves(n: nat)
    requires Splits(n)
    ensures var h := NumDigits(n) / 2;
      var r := Rewrite(n);
      && NumDigits(n) == 2 * h
      && n == r[0] * Pow10(h) + r[1] && r[1] < Pow10(h)
      && NumDigits(r[0]) == h
  {
    var d := NumDigits(n);
    var h := d / 2;
    assert d == 2 * h && h >= 1;
    NumDigitsBounds(n);
    var lo, hi := Pow10(h - 1), Pow10(h);
    assert Pow10(d - 1) == lo * hi by {
      assert d - 1 == (h - 1) + h;
      Pow10Add(h - 1, h);
    }
    assert Pow10(d) == hi * hi by {
      assert d == h + h;
      Pow10Add(h, h);
    }
    DivBetween(n, hi, lo, hi);
    NumDigitsUnique(n / hi, h);
    var a := n / hi;
    Euclid(n, hi);
    assert Rewrite(n) == [a, n - a * hi];
  }

  lemma Euclid(n: nat, d: nat)
    requires d >= 1
    ensures n == (n / d) * d + n % d && n % d < d
  {
  }

  /** Integer division by `d` keeps bounds that are multiples of `d`. */
  lemma DivBetween(n: nat, d: nat, lo: nat, hi: nat)
    requires d >= 1 && lo * d <= n < hi * d
    ensures lo <= n / d < hi
  {
    var a := n / d;
    assert n == a * d + n % d && n % d < d;
    if a < lo {
      MulMonotone(a + 1, lo, d);
    }
    if a >= hi {
      MulMonotone(hi, a, d);
    }
  }

  /** One blink, stone by stone in order: each stone's replacements take its
      place. */
  function BlinkAll(s: seq<nat>): (r: seq<nat>)
    ensures |r| == |s| + SplitCount(s)
  {
    if s == [] then [] else BlinkAll(s[..|s| - 1]) + Rewrite(s[|s| - 1])
  }

  /** The number of stones that split. */
  function SplitCount(s: seq<nat>): nat {
    if s == [] then 0 else SplitCount(s[..|s| - 1]) + if Splits(s[|s| - 1]) then 1 else 0
  }

  /** The loop body on the stone at `current`: its first replacement is
      written in place, and for a split the low half is inserted after it and
      skipped. */
  method RewriteAt(r: seq<nat>, current: nat) returns (r': seq<nat>, next: nat)
    requires current < |r|
    ensures r' == r[..current] + Rewrite(r[current]) + r[current + 1..]
    ensures next == current + |Rewrite(r[current])|
  {
    var replacement := Rewrite(r[current]);
    r' := r[current := replacement[0]];
    next := current + 1;
    if |replacement| == 2 {
      r' := r'[..current + 1] + [replacement[1]] + r'[current + 1..];
      next := next + 1;
    }
  }

  /** The per-blink loop: `current_index` walks the stones, each stone's
      replacements take its place. */
  method Blink(stones: seq<nat>) returns (r: seq<nat>)
    ensures r == BlinkAll(stones)
  {
    r := stones;
    var current := 0;
    ghost var k := 0;
    ghost var done: seq<nat> := [];
    while current < |r|
      invariant 0 <= k <= |stones|
      invariant done == BlinkAll(stones[..k])
      invariant current == |done|
      invariant r == done + stones[k..]
      decreases |stones| - k
    {
      ghost var before := r;
      r, current := RewriteAt(r, current);
      Spliced(before, done, stones, k, r);
      done := done + Rewrite(stones[k]);
      k := k + 1;
    }
    assert stones[..k] == stones;
  }

  /** The loop step: the stone at `current` is the next unblinked one, and
      splicing its replacements in extends the blinked prefix by one. */
  lemma Spliced(r: seq<nat>, done: seq<nat>, stones: seq<nat>, k: nat, r': seq<nat>)
    requires k < |stones| && r == done + stones[k..] && done == BlinkAll(stones[..k])
    requires |done| < |r| && r' == r[..|done|] + Rewrite(r[|done|]) + r[|done| + 1..]
    ensures r[|done|] == stones[k]
    ensures BlinkAll(stones[..k + 1]) == done + Rewrite(stones[k])
    ensures r' == (done + Rewrite(stones[k])) + stones[k + 1..]
  {
    assert stones[..k + 1][..k] == stones[..k];
    assert stones[k..] == [stones[k]] + stones[k + 1..];
    assert r[..|done|] == done && r[|done| + 1..] == stones[k + 1..];
  }

  /** `t` blinks. */
  function Blinks(s: seq<nat>, t: nat): seq<nat>
    decreases t
  {
    if t == 0 then s else Blinks(BlinkAll(s), t - 1)
  }

  /** Blinking never loses a stone: each blink adds one per splitting stone. */
  lemma {:induction false} BlinksNeverShrink(s: seq<nat>, t: nat)
    ensures |Blinks(s, t)| >= |s|
    decreases t
  {
    if t > 0 {
      BlinksNeverShrink(BlinkAll(s), t - 1);
    }
  }

  /** Blinking is compositional: `t + u` blinks are `t` blinks then `u`. */
  lemma {:induction false} BlinksCompose(s: seq<nat>, t: nat, u: nat)
    ensures Blinks(s, t + u) == Blinks(Blinks(s, t), u)
    decreases t
  {
    if t > 0 {
      BlinksCompose(BlinkAll(s), t - 1, u);
    }
  }

  /** A blink acts on each stone separately: blinking two rows one after the
      other gives the two blinked rows one after the other. */
  lemma {:induction false} BlinkAllAppend(s: seq<nat>, t: seq<nat>)
    ensures BlinkAll(s + t) == BlinkAll(s) + BlinkAll(t)
    decreases |t|
  {
    if t == [] {
      assert s + t == s;
    } else {
      var n := |t| - 1;
      assert (s + t)[..|s + t| - 1] == s + t[..n];
      BlinkAllAppend(s, t[..n]);
    }
  }

  /** The `for _ in 0..BLINKS` loop. */
  method BlinkTimes(stones: seq<nat>, blinks: nat) returns (r: seq<nat>)
    ensures r == Blinks(stones, blinks)
  {
    r := stones;
    var t := 0;
    while t < blinks
      invariant 0 <= t <= blinks
      invariant Blinks(r, blinks - t) == Blinks(stones, blinks)
    {
      r := Blink(r);
      t := t + 1;
    }
  }

  /** Both parts: parse, blink `blinks` times, count. */
  method CountAfter(input: string, blinks: nat) returns (r: Result<nat, string>)
    ensures r.Ok? <==> ParseEach(Split(input, ' '), ParseU64OrError).Ok?
    ensures r.Ok? ==> r.value == |Blinks(ParseEach(Split(input, ' '), ParseU64OrError).value, blinks)|
  {
    var parsed := ParseEach(Split(input, ' '), ParseU64OrError);
    if parsed.Err? {
      return Err(parsed.error);
    }
    var stones := BlinkTimes(parsed.value, blinks);
    r := Ok(|stones|);
  }

  /** `part1`. */
  method Part1(input: string) returns (r: Result<nat, string>)
    ensures r.Ok? <==> ParseEach(Split(input, ' '), ParseU64OrError).Ok?
    ensures r.Ok? ==> r.value == |Blinks(ParseEach(Split(input, ' '), ParseU64OrError).value, 25)|
  {
    r := CountAfter(input, 25);
  }

  /** `part2`. */
  method Part2(input: string) returns (r: Result<nat, string>)
    ensures r.Ok? <==> ParseEach(Split(input, ' '), ParseU64OrError).Ok?
    ensures r.Ok? ==> r.value == |Blinks(ParseEach(Split(input, ' '), ParseU64OrError).value, 75)|
  {
    r := CountAfter(input, 75);
  }
}

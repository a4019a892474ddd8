/** The pieces of Rust's `str` API that the solutions use to take their input
    apart: `lines`, `split`, `split_once`, `split_whitespace`, `trim_ascii_end`,
    `char::to_digit(10)` and `str::parse` for `u64` and `i64`. */
module Text {
  import opened Wrappers

  const U64_LIMIT: nat := 0x1_0000_0000_0000_0000
  const I64_LIMIT: nat := 0x8000_0000_0000_0000

  /** The index of the first `c` in `s`. */
  function IndexOf(s: string, c: char): (r: Option<nat>)
    ensures r.Some? ==> r.value < |s| && s[r.value] == c && c !in s[..r.value]
    ensures r.None? <==> c !in s
  {
    if s == [] then None
    else if s[0] == c then Some(0)
    else match IndexOf(s[1..], c)
      case None => None
      case Some(i) =>
        assert s[..i + 1] == [s[0]] + s[1..][..i];
        Some(i + 1)
  }

  function StripCarriageReturn(line: string): string {
    if |line| > 0 && line[|line| - 1] == '\r' then line[..|line| - 1] else line
  }

  /** `str::lines`: split at every `\n`, drop one `\r` before it, and yield
      no empty line after a final `\n`. A bare `\r` at the very end stays. */
  function Lines(s: string): (r: seq<string>)
    ensures forall i :: 0 <= i < |r| ==> '\n' !in r[i]
    ensures s == [] <==> r == []
    decreases |s|
  {
    if s == [] then []
    else match IndexOf(s, '\n')
      case None => [s]
      case Some(i) => [StripCarriageReturn(s[..i])] + Lines(s[i + 1..])
  }

  /** Each line followed by `\n`: the text `Lines` takes apart. */
  function Terminated(ls: seq<string>): string {
    if ls == [] then [] else ls[0] + "\n" + Terminated(ls[1..])
  }

  predicate PlainLine(l: string) {
    '\n' !in l && (|l| == 0 || l[|l| - 1] != '\r')
  }

  /** The first `c` in `a + [c] + b` is the one after `a` when `a` holds none. */
  lemma {:induction false} IndexOfAfter(a: string, b: string, c: char)
    requires c !in a
    ensures IndexOf(a + [c] + b, c) == Some(|a|)
  {
    if a != [] {
      assert (a + [c] + b)[1..] == a[1..] + [c] + b;
      IndexOfAfter(a[1..], b, c);
    }
  }

  /** Lines that hold no `\n` and do not end in `\r` come back from the text
      that terminates each of them with `\n`. */
  lemma {:induction false} LinesOfTerminated(ls: seq<string>)
    requires forall i :: 0 <= i < |ls| ==> PlainLine(ls[i])
    ensures Lines(Terminated(ls)) == ls
  {
    if ls != [] {
      var s := Terminated(ls);
      var l := ls[0];
      assert PlainLine(l);
      assert s == l + ['\n'] + Terminated(ls[1..]);
      IndexOfAfter(l, Terminated(ls[1..]), '\n');
      assert s[..|l|] == l;
      assert s[|l| + 1..] == Terminated(ls[1..]);
      assert StripCarriageReturn(l) == l;
      LinesOfTerminated(ls[1..]);
    }
  }

  /** `str::split(c)`: always at least one piece, even of the empty text. */
  function Split(s: string, c: char): (r: seq<string>)
    ensures |r| >= 1
    ensures forall i :: 0 <= i < |r| ==> c !in r[i]
    decreases |s|
  {
    match IndexOf(s, c)
    case None => [s]
    case Some(i) => [s[..i]] + Split(s[i + 1..], c)
  }

  /** The pieces put back together with `c` between them. */
  function Join(pieces: seq<string>, c: char): string
    requires |pieces| >= 1
  {
    if |pieces| == 1 then pieces[0] else pieces[0] + [c] + Join(pieces[1..], c)
  }

  lemma {:induction false} JoinSplit(s: string, c: char)
    ensures Join(Split(s, c), c) == s
    decreases |s|
  {
    var idx := IndexOf(s, c);
    if idx.Some? {
      var i := idx.value;
      var rest := Split(s[i + 1..], c);
      assert Split(s, c) == [s[..i]] + rest;
      JoinSplit(s[i + 1..], c);
      JoinCons(s[..i], rest, c);
      Around(s, i);
    }
  }

  /** A text is what comes before index `i`, the character there, and what
      comes after. */
  lemma Around<T>(s: seq<T>, i: nat)
    requires i < |s|
    ensures s == s[..i] + [s[i]] + s[i + 1..]
  {
  }

  lemma JoinCons(piece: string, rest: seq<string>, c: char)
    requires |rest| >= 1
    ensures Join([piece] + rest, c) == piece + [c] + Join(rest, c)
  {
    assert ([piece] + rest)[1..] == rest;
  }

  /** Whether `sep` occurs in `s` at index `i`. */
  predicate OccursAt(s: string, sep: string, i: nat) {
    i + |sep| <= |s| && s[i..i + |sep|] == sep
  }

  /** The first index at or after `from` where `sep` occurs. */
  function FindFrom(s: string, sep: string, from: nat): (r: Option<nat>)
    ensures r.Some? ==> (from <= r.value && OccursAt(s, sep, r.value)
                         && forall j :: from <= j < r.value ==> !OccursAt(s, sep, j))
    ensures r.None? ==> forall j :: from <= j ==> !OccursAt(s, sep, j)
    decreases |s| - from
  {
    if from + |sep| > |s| then None
    else if s[from..from + |sep|] == sep then Some(from)
    else FindFrom(s, sep, from + 1)
  }

  /** `str::split_once(sep)`: the text before and after the first `sep`. */
  function SplitOnce(s: string, sep: string): (r: Option<(string, string)>)
    ensures r.Some? ==> (r.value.0 + sep + r.value.1 == s
                         && forall j :: 0 <= j < |r.value.0| ==> !OccursAt(s, sep, j))
    ensures r.None? <==> forall j :: 0 <= j ==> !OccursAt(s, sep, j)
  {
    match FindFrom(s, sep, 0)
    case None => None
    case Some(i) =>
      assert s == s[..i] + s[i..i + |sep|] + s[i + |sep|..];
      Some((s[..i], s[i + |sep|..]))
  }

  /** `char::is_whitespace`: the Unicode White_Space property. */
  predicate IsWhitespace(c: char) {
    c == ' ' || ('\t' <= c <= '\r') || c == '\U{0085}' || c == '\U{00A0}' || c == '\U{1680}'
    || ('\U{2000}' <= c <= '\U{200A}') || c == '\U{2028}' || c == '\U{2029}' || c == '\U{202F}'
    || c == '\U{205F}' || c == '\U{3000}'
  }

  /** The length of the run of non-whitespace at the start of `s`. */
  function WordLength(s: string): (n: nat)
    ensures n <= |s| && (n < |s| ==> IsWhitespace(s[n]))
    ensures forall i :: 0 <= i < n ==> !IsWhitespace(s[i])
  {
    if s == [] || IsWhitespace(s[0]) then 0 else 1 + WordLength(s[1..])
  }

  /** `str::split_whitespace`: the maximal non-empty runs of non-whitespace. */
  function SplitWhitespace(s: string): (r: seq<string>)
    ensures forall i :: 0 <= i < |r| ==> |r[i]| > 0
    ensures forall i, j :: 0 <= i < |r| && 0 <= j < |r[i]| ==> !IsWhitespace(r[i][j])
    decreases |s|
  {
    if s == [] then []
    else if IsWhitespace(s[0]) then SplitWhitespace(s[1..])
    else
      var n := WordLength(s);
      [s[..n]] + SplitWhitespace(s[n..])
  }

  /** `sep` splits `a + sep + b` at the end of `a` when `a` does not contain
      the single-character `sep`. */
  lemma SplitOnceAt(a: string, sep: char, b: string)
    requires sep !in a
    ensures SplitOnce(a + [sep] + b, [sep]) == Some((a, b))
  {
    var s := a + [sep] + b;
    assert OccursAt(s, [sep], |a|) by {
      assert s[|a|..|a| + 1] == [sep];
    }
    forall j | 0 <= j < |a|
      ensures !OccursAt(s, [sep], j)
    {
      assert s[j] == a[j];
    }
    var r := FindFrom(s, [sep], 0);
    assert r == Some(|a|);
    assert s[..|a|] == a && s[|a| + 1..] == b;
  }

  predicate Word(w: string) {
    |w| > 0 && forall i :: 0 <= i < |w| ==> !IsWhitespace(w[i])
  }

  /** The words, each after one space. */
  function Spaced(words: seq<string>): string {
    if words == [] then [] else " " + words[0] + Spaced(words[1..])
  }

  lemma {:induction false} WordLengthOfWord(w: string, rest: string)
    requires forall i :: 0 <= i < |w| ==> !IsWhitespace(w[i])
    requires rest == [] || IsWhitespace(rest[0])
    ensures WordLength(w + rest) == |w|
    decreases |w|
  {
    if w != [] {
      assert (w + rest)[1..] == w[1..] + rest;
      WordLengthOfWord(w[1..], rest);
    } else {
      assert w + rest == rest;
    }
  }

  /** Splitting spaced words at whitespace gives the words back. */
  lemma {:induction false} SplitWhitespaceSpaced(words: seq<string>)
    requires forall i :: 0 <= i < |words| ==> Word(words[i])
    ensures SplitWhitespace(Spaced(words)) == words
    decreases |words|
  {
    if words != [] {
      var w, rest := words[0], Spaced(words[1..]);
      assert rest == [] || rest[0] == ' ';
      var s := " " + w + rest;
      assert s[1..] == w + rest;
      WordLengthOfWord(w, rest);
      assert (w + rest)[..|w|] == w && (w + rest)[|w|..] == rest;
      SplitWhitespaceSpaced(words[1..]);
    }
  }

  /** `u8::is_ascii_whitespace`: space, tab, line feed, form feed, carriage return. */
  predicate IsAsciiWhitespace(c: char) {
    c == ' ' || c == '\t' || c == '\n' || c == '\U{000C}' || c == '\r'
  }

  /** `str::trim_ascii_end`. */
  function TrimAsciiEnd(s: string): (r: string)
    ensures r <= s
    ensures |r| > 0 ==> !IsAsciiWhitespace(r[|r| - 1])
    ensures forall i :: |r| <= i < |s| ==> IsAsciiWhitespace(s[i])
  {
    if |s| > 0 && IsAsciiWhitespace(s[|s| - 1]) then TrimAsciiEnd(s[..|s| - 1]) else s
  }

  predicate IsDigit(c: char) { '0' <= c <= '9' }

  /** `char::to_digit(10)`: only the ASCII digits have a value. */
  function ToDigit(c: char): (r: Option<nat>)
    ensures r.Some? <==> IsDigit(c)
    ensures r.Some? ==> r.value < 10 && c == ('0' as int + r.value) as char
  {
    if IsDigit(c) then Some(c as int - '0' as int) else None
  }

  predicate AllDigits(s: string) {
    forall i :: 0 <= i < |s| ==> IsDigit(s[i])
  }

  /** The value of a run of decimal digits, most significant first. */
  function DigitsValue(s: string): nat
    requires AllDigits(s)
  {
    if s == [] then 0 else 10 * DigitsValue(s[..|s| - 1]) + (s[|s| - 1] as int - '0' as int)
  }

  /** `str::parse::<u64>`: an optional `+`, at least one ASCII digit, and a
      value below 2^64. */
  function ParseU64(s: string): (r: Option<nat>)
    ensures r.Some? ==> r.value < U64_LIMIT
    ensures r.Some? ==> |s| > 0 && (IsDigit(s[0]) || s[0] == '+')
  {
    var digits := if |s| > 0 && s[0] == '+' then s[1..] else s;
    if digits == [] || !AllDigits(digits) then None
    else
      var v := DigitsValue(digits);
      if v < U64_LIMIT then Some(v) else None
  }

  /** The message of the `ParseIntError` that `str::parse::<u64>` gives for
      a token it refuses. */
  function U64ErrorMessage(s: string): string {
    var digits := if |s| > 0 && s[0] == '+' then s[1..] else s;
    if s == [] then "cannot parse integer from empty string"
    else if digits == [] || !AllDigits(digits) then "invalid digit found in string"
    else "number too large to fit in target type"
  }

  /** `str::parse::<u64>` with its error. */
  function ParseU64OrError(s: string): (r: Result<nat, string>)
    ensures r.Ok? <==> ParseU64(s).Some?
    ensures r.Ok? ==> ParseU64(s) == Some(r.value)
    ensures r.Err? ==> r.error == U64ErrorMessage(s)
  {
    match ParseU64(s)
    case None => Err(U64ErrorMessage(s))
    case Some(n) => Ok(n)
  }

  /** `items.map(parse).collect::<Result<Vec<_>, _>>()`: every item parsed,
      in order, or the error of the first that fails. */
  function ParseEach<T, E>(items: seq<string>, parse: string -> Result<T, E>): (r: Result<seq<T>, E>)
    ensures r.Ok? <==> forall i :: 0 <= i < |items| ==> parse(items[i]).Ok?
    ensures r.Ok? ==> |r.value| == |items| && forall i :: 0 <= i < |items| ==> parse(items[i]) == Ok(r.value[i])
    ensures r.Err? ==> exists i :: 0 <= i < |items| && parse(items[i]) == Err(r.error)
  {
    if items == [] then Ok([])
    else match parse(items[0])
      case Err(e) => Err(e)
      case Ok(v) =>
        match ParseEach(items[1..], parse)
        case Err(e) =>
          assert exists i :: 0 <= i < |items| && parse(items[i]) == Err(e) by {
            var j :| 0 <= j < |items[1..]| && parse(items[1..][j]) == Err(e);
            assert items[1..][j] == items[j + 1];
          }
          Err(e)
        case Ok(rest) =>
          assert forall i :: 1 <= i < |items| ==> items[i] == items[1..][i - 1];
          Ok([v] + rest)
  }

  /** Every item satisfies `p`, read from the last item back: the loop
      invariant of a pass that stops at the first item failing `p`. */
  predicate Every<T>(items: seq<T>, p: T -> bool) {
    items == [] || (Every(items[..|items| - 1], p) && p(items[|items| - 1]))
  }

  lemma {:induction false} EveryIff<T>(items: seq<T>, p: T -> bool)
    ensures Every(items, p) <==> forall i :: 0 <= i < |items| ==> p(items[i])
    decreases |items|
  {
    if items != [] {
      var n := |items| - 1;
      EveryIff(items[..n], p);
      assert forall i :: 0 <= i < n ==> items[..n][i] == items[i];
    }
  }

  /** One more item passes. */
  lemma EverySnoc<T>(items: seq<T>, i: nat, p: T -> bool)
    requires i < |items| && Every(items[..i], p) && p(items[i])
    ensures Every(items[..i + 1], p)
  {
    assert items[..i + 1][..i] == items[..i];
  }

  /** `str::parse::<i64>`: an optional `+` or `-`, at least one ASCII digit,
      and a value in [-2^63, 2^63). */
  function ParseI64(s: string): (r: Option<int>)
    ensures r.Some? ==> -(I64_LIMIT as int) <= r.value < I64_LIMIT
  {
    var negative := |s| > 0 && s[0] == '-';
    var digits := if |s| > 0 && (s[0] == '+' || s[0] == '-') then s[1..] else s;
    if digits == [] || !AllDigits(digits) then None
    else
      var v: int := DigitsValue(digits);
      if negative then (if v <= I64_LIMIT then Some(-v) else None)
      else (if v < I64_LIMIT then Some(v) else None)
  }

  /** The decimal digits of `n`, without leading zeros: what `to_string` gives. */
  function Decimal(n: nat): (s: string)
    ensures |s| > 0 && AllDigits(s)
  {
    if n < 10 then [('0' as int + n) as char]
    else Decimal(n / 10) + [('0' as int + n % 10) as char]
  }

  lemma {:induction false} DigitsValueOfDecimal(n: nat)
    ensures DigitsValue(Decimal(n)) == n
  {
    var s := Decimal(n);
    if n >= 10 {
      assert s[..|s| - 1] == Decimal(n / 10);
      DigitsValueOfDecimal(n / 10);
    }
  }

  /** Every `u64` survives printing and parsing. */
  lemma ParseU64OfDecimal(n: nat)
    requires n < U64_LIMIT
    ensures ParseU64(Decimal(n)) == Some(n)
  {
    DigitsValueOfDecimal(n);
  }

  /** Every `i64` survives printing (with a `-` when negative) and parsing. */
  lemma ParseI64OfDecimal(n: int)
    requires -(I64_LIMIT as int) <= n < I64_LIMIT
    ensures ParseI64(if n < 0 then "-" + Decimal(-n) else Decimal(n)) == Some(n)
  {
    if n < 0 {
      DigitsValueOfDecimal(-n);
      assert ("-" + Decimal(-n))[1..] == Decimal(-n);
    } else {
      DigitsValueOfDecimal(n);
    }
  }
}

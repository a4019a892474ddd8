/** Day 9 of src/bin/day9.rs: a disk map of digits alternates file lengths
    and free-space lengths; part 1 moves single blocks from the end into the
    leftmost gap, part 2 moves whole files, highest id first, into the
    leftmost gap that fits them; both answer a checksum. */
module Day9 {
  import opened Wrappers
  import opened Text

  datatype BlockType = File | Free

  datatype Block = Block(blockType: BlockType, id: nat)

  /** A run of `length` blocks of one kind. */
  datatype Chunk = Chunk(block: Block, length: nat)

  const DIGIT_ERROR := "Attempted to parse char outside the range 0-9"
  const UNWRAP_ERROR := "called `Option::unwrap()` on a `None` value"

  /** `Block::default`. */
  const FIRST_BLOCK := Block(File, 0)

  /** `Block::next`: a file is followed by free space under the same id, free
      space by the next file. */
  function Next(b: Block): (r: Block)
    ensures r.blockType != b.blockType
  {
    match b.blockType
    case File => Block(Free, b.id)
    case Free => Block(File, b.id + 1)
  }

  /** What the `i`-th digit of the disk map describes: even digits are files,
      odd digits free space, and both carry the number of files before them
      that came earlier in pairs. */
  function BlockAt(i: nat): Block {
    Block(if i % 2 == 0 then File else Free, i / 2)
  }

  /** Starting from the default block, `Next` walks through `BlockAt`. */
  lemma NextBlockAt(i: nat)
    ensures BlockAt(0) == FIRST_BLOCK
    ensures Next(BlockAt(i)) == BlockAt(i + 1)
  {
  }

  /** The disk a digit string describes. */
  function DiskOf(t: string): (r: seq<Chunk>)
    requires AllDigits(t)
    ensures |r| == |t|
    ensures forall i :: 0 <= i < |t| ==> r[i] == Chunk(BlockAt(i), ToDigit(t[i]).value)
  {
    if t == [] then [] else DiskOf(t[..|t| - 1]) + [Chunk(BlockAt(|t| - 1), ToDigit(t[|t| - 1]).value)]
  }

  /** The parsing loop shared by both parts: one chunk per character of the
      trimmed input, the block advancing by `Next`; a character that is not a
      decimal digit is an error. */
  method ParseDisk(input: string) returns (r: Result<(seq<Chunk>, Block), string>)
    ensures r.Ok? <==> AllDigits(TrimAsciiEnd(input))
    ensures r.Err? ==> r.error == DIGIT_ERROR
    ensures r.Ok? ==> r.value == (DiskOf(TrimAsciiEnd(input)), BlockAt(|TrimAsciiEnd(input)|))
  {
    var t := TrimAsciiEnd(input);
    var current := FIRST_BLOCK;
    var disk: seq<Chunk> := [];
    var k := 0;
    NextBlockAt(0);
    while k < |t|
      invariant 0 <= k <= |t| && AllDigits(t[..k])
      invariant disk == DiskOf(t[..k]) && current == BlockAt(k)
    {
      var digit := ToDigit(t[k]);
      if digit.None? {
        return Err(DIGIT_ERROR);
      }
      assert t[..k + 1][..k] == t[..k];
      disk := disk + [Chunk(current, digit.value)];
      NextBlockAt(k);
      current := Next(current);
      k := k + 1;
    }
    assert t[..k] == t;
    r := Ok((disk, current));
  }

  /** `Iterator::position`: the first index whose element satisfies `p`. */
  function Position<T>(s: seq<T>, p: T -> bool): (r: Option<nat>)
    ensures r.Some? ==> r.value < |s| && p(s[r.value])
  {
    PositionFrom(s, p, 0)
  }

  /** The first index from `k` on whose element satisfies `p`. */
  function PositionFrom<T>(s: seq<T>, p: T -> bool, k: nat): (r: Option<nat>)
    requires k <= |s|
    ensures r.Some? ==> k <= r.value < |s| && p(s[r.value])
    decreases |s| - k
  {
    if k == |s| then None
    else if p(s[k]) then Some(k)
    else PositionFrom(s, p, k + 1)
  }

  /** The index `PositionFrom` finds is the first one from `k` on satisfying
      `p`, and it finds none only when no element from `k` on does. */
  lemma {:induction false} PositionFromFirst<T>(s: seq<T>, p: T -> bool, k: nat)
    requires k <= |s|
    ensures PositionFrom(s, p, k).Some? ==> forall j :: k <= j < PositionFrom(s, p, k).value ==> !p(s[j])
    ensures PositionFrom(s, p, k).None? ==> forall j :: k <= j < |s| ==> !p(s[j])
    decreases |s| - k
  {
    if k < |s| && !p(s[k]) {
      PositionFromFirst(s, p, k + 1);
    }
  }

  /** The index `Position` finds is the first one satisfying `p`, and it
      finds none only when no element does. */
  lemma PositionFirst<T>(s: seq<T>, p: T -> bool)
    ensures Position(s, p).Some? ==> forall j :: 0 <= j < Position(s, p).value ==> !p(s[j])
    ensures Position(s, p).None? ==> forall j :: 0 <= j < |s| ==> !p(s[j])
  {
    PositionFromFirst(s, p, 0);
  }

  /** The first index from `from` on satisfying `p` is the one whose
      predecessors from `from` on all fail. */
  lemma {:induction false} PositionFromIs<T>(s: seq<T>, p: T -> bool, from: nat, k: nat)
    requires from <= k < |s| && p(s[k]) && forall j :: from <= j < k ==> !p(s[j])
    ensures PositionFrom(s, p, from) == Some(k)
    decreases k - from
  {
    if from < k {
      PositionFromIs(s, p, from + 1, k);
    }
  }

  /** The first index satisfying `p` is the one whose predecessors all fail. */
  lemma PositionIs<T>(s: seq<T>, p: T -> bool, k: nat)
    requires k < |s| && p(s[k]) && forall j :: 0 <= j < k ==> !p(s[j])
    ensures Position(s, p) == Some(k)
  {
    PositionFromIs(s, p, 0, k);
  }

  predicate IsFree(c: Chunk) { c.block.blockType == Free }

  /** The quantities the compactions keep or consume, each a sum over chunks. */
  datatype Measure = Files(id: nat) | Used | Total | Frees

  function Share(c: Chunk, m: Measure): nat {
    match m
    case Files(id) => if c.block == Block(File, id) then c.length else 0
    case Used => if IsFree(c) then 0 else c.length
    case Total => c.length
    case Frees => if IsFree(c) then 1 else 0
  }

  function Sum(disk: seq<Chunk>, m: Measure): nat {
    if disk == [] then 0 else Sum(disk[..|disk| - 1], m) + Share(disk[|disk| - 1], m)
  }

  lemma {:induction false} SumAppend(a: seq<Chunk>, b: seq<Chunk>, m: Measure)
    ensures Sum(a + b, m) == Sum(a, m) + Sum(b, m)
    decreases |b|
  {
    if b == [] {
      assert a + b == a;
    } else {
      var n := |b| - 1;
      assert (a + b)[..|a + b| - 1] == a + b[..n];
      assert (a + b)[|a + b| - 1] == b[n];
      SumAppend(a, b[..n], m);
    }
  }

  lemma SumOne(c: Chunk, m: Measure)
    ensures Sum([c], m) == Share(c, m)
  {
    assert [c][..0] == [];
  }

  lemma SumFour(a: seq<Chunk>, b: Chunk, c: seq<Chunk>, d: seq<Chunk>, m: Measure)
    ensures Sum(a + [b] + c + d, m) == Sum(a, m) + Share(b, m) + Sum(c, m) + Sum(d, m)
  {
    SumAppend(a + [b] + c, d, m);
    SumAppend(a + [b], c, m);
    SumAppend(a, [b], m);
    SumOne(b, m);
  }

  /** Every file keeps its total length, and so does the file space as a whole. */
  ghost predicate KeepsFiles(before: seq<Chunk>, after: seq<Chunk>) {
    && (forall id :: Sum(after, Files(id)) == Sum(before, Files(id)))
    && Sum(after, Used) == Sum(before, Used)
  }

  /** A disk without free chunks is exactly as long as the files on it. */
  lemma {:induction false} NoFreeAllUsed(disk: seq<Chunk>)
    requires forall i :: 0 <= i < |disk| ==> !IsFree(disk[i])
    ensures Sum(disk, Total) == Sum(disk, Used)
    decreases |disk|
  {
    if disk != [] {
      NoFreeAllUsed(disk[..|disk| - 1]);
    }
  }

  // Part 1: block by block

  /** How far the first free chunk is from the end; 0 when there is none. */
  function FreeDistance(disk: seq<Chunk>): nat {
    match Position(disk, IsFree)
    case None => 0
    case Some(i) => |disk| - i
  }

  /** One pass of part 1's loop: its measure, the chunk count, then the free
      chunk count, then the first free chunk's distance from the end, goes
      down. */
  ghost predicate Progress(before: seq<Chunk>, after: seq<Chunk>) {
    || |after| < |before|
    || (|after| == |before| && Sum(after, Frees) < Sum(before, Frees))
    || (|after| == |before| && Sum(after, Frees) == Sum(before, Frees)
        && FreeDistance(after) < FreeDistance(before))
  }

  function Min(a: nat, b: nat): nat { if a <= b then a else b }

  /** One pass of part 1's loop, with the first free chunk at `i`: a free
      last chunk is dropped; otherwise the first free chunk takes as much of
      the last file as fits. A shorter free chunk takes the file's id and
      the file keeps the rest at the end; one as long takes the whole file;
      a longer one shrinks behind the whole file, moved in front of it. */
  function Fill(disk: seq<Chunk>, i: nat): (r: seq<Chunk>)
    requires Position(disk, IsFree) == Some(i)
  {
    var n := |disk|;
    var free, last := disk[i], disk[n - 1];
    if IsFree(last) then disk[..n - 1]
    else if free.length < last.length then
      disk[i := Chunk(last.block, free.length)][n - 1 := Chunk(last.block, last.length - free.length)]
    else if free.length == last.length then
      disk[i := Chunk(last.block, free.length)][..n - 1]
    else
      disk[..i] + [last] + [Chunk(free.block, free.length - last.length)] + disk[i + 1..n - 1]
  }

  /** A pass keeps every file's length and makes progress. */
  lemma FillKeeps(disk: seq<Chunk>, i: nat)
    requires Position(disk, IsFree) == Some(i)
    ensures KeepsFiles(disk, Fill(disk, i)) && Progress(disk, Fill(disk, i))
  {
    var n := |disk|;
    var free, last := disk[i], disk[n - 1];
    if IsFree(last) {
      DropLastFree(disk);
    } else if free.length < last.length {
      FillKeepsLess(disk, i);
    } else if free.length == last.length {
      FillKeepsEqual(disk, i);
    } else {
      FillKeepsGreater(disk, i);
    }
  }

  lemma FillKeepsLess(disk: seq<Chunk>, i: nat)
    requires Position(disk, IsFree) == Some(i) && !IsFree(disk[|disk| - 1])
    requires disk[i].length < disk[|disk| - 1].length
    ensures KeepsFiles(disk, Fill(disk, i)) && Progress(disk, Fill(disk, i))
  {
    var n := |disk|;
    var free, last := disk[i], disk[n - 1];
    PositionFirst(disk, IsFree);
    var head, middle := disk[..i], disk[i + 1..n - 1];
    assert disk == head + [free] + middle + [last];
    assert Fill(disk, i) == head + [Chunk(last.block, free.length)] + middle + [Chunk(last.block, last.length - free.length)];
    LessKeeps(head, free, middle, last);
  }

  lemma FillKeepsEqual(disk: seq<Chunk>, i: nat)
    requires Position(disk, IsFree) == Some(i) && !IsFree(disk[|disk| - 1])
    requires disk[i].length == disk[|disk| - 1].length
    ensures KeepsFiles(disk, Fill(disk, i)) && Progress(disk, Fill(disk, i))
  {
    var n := |disk|;
    var free, last := disk[i], disk[n - 1];
    var head, middle := disk[..i], disk[i + 1..n - 1];
    assert disk == head + [free] + middle + [last];
    assert Fill(disk, i) == head + [Chunk(last.block, free.length)] + middle + [];
    EqualKeeps(head, free, middle, last);
  }

  lemma FillKeepsGreater(disk: seq<Chunk>, i: nat)
    requires Position(disk, IsFree) == Some(i) && !IsFree(disk[|disk| - 1])
    requires disk[i].length > disk[|disk| - 1].length
    ensures KeepsFiles(disk, Fill(disk, i)) && Progress(disk, Fill(disk, i))
  {
    var n := |disk|;
    var free, last := disk[i], disk[n - 1];
    PositionFirst(disk, IsFree);
    var head, middle := disk[..i], disk[i + 1..n - 1];
    assert disk == head + [free] + middle + [last];
    assert Fill(disk, i) == head + [last] + ([Chunk(free.block, free.length - last.length)] + middle) + [];
    GreaterKeeps(head, free, middle, last);
  }

  /** Part 1's compaction: passes until no free chunk is left. */
  function BlockCompaction(disk: seq<Chunk>): (r: seq<Chunk>)
    ensures forall i :: 0 <= i < |r| ==> !IsFree(r[i])
    ensures KeepsFiles(disk, r)
    decreases |disk|, Sum(disk, Frees), FreeDistance(disk)
  {
    match Position(disk, IsFree)
    case None => PositionFirst(disk, IsFree); disk
    case Some(i) =>
      FillKeeps(disk, i);
      BlockCompaction(Fill(disk, i))
  }

  /** Part 1's loop body: the pass on the disk, in place. */
  method FillFirstFree(disk: seq<Chunk>, i: nat) returns (disk': seq<Chunk>)
    requires Position(disk, IsFree) == Some(i)
    ensures disk' == Fill(disk, i)
  {
    var n := |disk|;
    var last := disk[n - 1];
    if IsFree(last) {
      disk' := disk[..n - 1];
      return;
    }
    if disk[i].length < last.length {
      disk' := FillLess(disk, i);
    } else if disk[i].length == last.length {
      disk' := FillEqual(disk, i);
    } else {
      disk' := FillGreater(disk, i);
    }
  }

  /** The first free chunk is shorter than the last file: it takes its id,
      and the last file keeps the rest of its length. */
  method FillLess(disk: seq<Chunk>, i: nat) returns (disk': seq<Chunk>)
    requires Position(disk, IsFree) == Some(i)
    requires !IsFree(disk[|disk| - 1]) && disk[i].length < disk[|disk| - 1].length
    ensures disk' == Fill(disk, i)
  {
    var n := |disk|;
    var free, last := disk[i], disk[n - 1];
    disk' := disk[i := Chunk(last.block, free.length)];
    disk' := disk'[n - 1 := Chunk(last.block, last.length - free.length)];
  }

  /** The first free chunk is exactly as long as the last file: the file
      moves there whole. */
  method FillEqual(disk: seq<Chunk>, i: nat) returns (disk': seq<Chunk>)
    requires Position(disk, IsFree) == Some(i)
    requires !IsFree(disk[|disk| - 1]) && disk[i].length == disk[|disk| - 1].length
    ensures disk' == Fill(disk, i)
  {
    var n := |disk|;
    var last := disk[n - 1];
    disk' := disk[i := Chunk(last.block, disk[i].length)];
    disk' := disk'[..n - 1];
  }

  /** The first free chunk is longer than the last file: the file moves in
      front of it, and it shrinks by the file's length. */
  method FillGreater(disk: seq<Chunk>, i: nat) returns (disk': seq<Chunk>)
    requires Position(disk, IsFree) == Some(i)
    requires !IsFree(disk[|disk| - 1]) && disk[i].length > disk[|disk| - 1].length
    ensures disk' == Fill(disk, i)
  {
    var n := |disk|;
    var free, last := disk[i], disk[n - 1];
    disk' := disk[i := Chunk(free.block, free.length - last.length)];
    assert disk'[..i] == disk[..i] && disk'[i..] == [Chunk(free.block, free.length - last.length)] + disk[i + 1..];
    disk' := disk'[..i] + [last] + disk'[i..];
    disk' := disk'[..|disk'| - 1];
    assert disk' == disk[..i] + [last] + [Chunk(free.block, free.length - last.length)] + disk[i + 1..n - 1];
  }

  lemma DropLastFree(disk: seq<Chunk>)
    requires disk != [] && IsFree(disk[|disk| - 1])
    ensures KeepsFiles(disk, disk[..|disk| - 1]) && Progress(disk, disk[..|disk| - 1])
  {
  }

  lemma LessKeeps(head: seq<Chunk>, free: Chunk, middle: seq<Chunk>, last: Chunk)
    requires IsFree(free) && !IsFree(last) && free.length < last.length
    requires forall j :: 0 <= j < |head| ==> !IsFree(head[j])
    ensures var disk := head + [free] + middle + [last];
      var disk' := head + [Chunk(last.block, free.length)] + middle + [Chunk(last.block, last.length - free.length)];
      KeepsFiles(disk, disk') && Progress(disk, disk')
  {
    var disk := head + [free] + middle + [last];
    var disk' := head + [Chunk(last.block, free.length)] + middle + [Chunk(last.block, last.length - free.length)];
    forall m: Measure
      ensures Sum(disk, m) == Sum(head, m) + Share(free, m) + Sum(middle, m) + Share(last, m)
      ensures Sum(disk', m) == Sum(head, m) + Share(Chunk(last.block, free.length), m) + Sum(middle, m)
        + Share(Chunk(last.block, last.length - free.length), m)
    {
      SumFour(head, free, middle, [last], m);
      SumFour(head, Chunk(last.block, free.length), middle, [Chunk(last.block, last.length - free.length)], m);
      SumOne(last, m);
      SumOne(Chunk(last.block, last.length - free.length), m);
    }
    assert Sum(disk', Frees) < Sum(disk, Frees);
  }

  lemma EqualKeeps(head: seq<Chunk>, free: Chunk, middle: seq<Chunk>, last: Chunk)
    requires IsFree(free) && !IsFree(last) && free.length == last.length
    ensures var disk := head + [free] + middle + [last];
      var disk' := head + [Chunk(last.block, free.length)] + middle + [];
      KeepsFiles(disk, disk') && Progress(disk, disk')
  {
    var disk := head + [free] + middle + [last];
    var disk' := head + [Chunk(last.block, free.length)] + middle + [];
    forall m: Measure
      ensures Sum(disk, m) == Sum(head, m) + Share(free, m) + Sum(middle, m) + Share(last, m)
      ensures Sum(disk', m) == Sum(head, m) + Share(Chunk(last.block, free.length), m) + Sum(middle, m)
    {
      SumFour(head, free, middle, [last], m);
      SumFour(head, Chunk(last.block, free.length), middle, [], m);
      SumOne(last, m);
    }
  }

  lemma GreaterKeeps(head: seq<Chunk>, free: Chunk, middle: seq<Chunk>, last: Chunk)
    requires IsFree(free) && !IsFree(last) && free.length > last.length
    requires forall j :: 0 <= j < |head| ==> !IsFree(head[j])
    requires Position(head + [free] + middle + [last], IsFree) == Some(|head|)
    ensures var disk := head + [free] + middle + [last];
      var disk' := head + [last] + ([Chunk(free.block, free.length - last.length)] + middle) + [];
      KeepsFiles(disk, disk') && Progress(disk, disk')
  {
    var disk := head + [free] + middle + [last];
    var shrunk := Chunk(free.block, free.length - last.length);
    var disk' := head + [last] + ([shrunk] + middle) + [];
    forall m: Measure
      ensures Sum(disk, m) == Sum(head, m) + Share(free, m) + Sum(middle, m) + Share(last, m)
      ensures Sum(disk', m) == Sum(head, m) + Share(last, m) + Share(shrunk, m) + Sum(middle, m)
    {
      SumFour(head, free, middle, [last], m);
      SumFour(head, last, [shrunk] + middle, [], m);
      SumAppend([shrunk], middle, m);
      SumOne(last, m);
      SumOne(shrunk, m);
    }
    assert disk'[|head| + 1] == shrunk;
    PositionIs(disk', IsFree, |head| + 1);
  }

  /** Part 1's `while let Some(first_free_chunk_index)` loop: it ends only
      when no free chunk is left, so the disk is then exactly as long as its
      files. */
  method CompactBlocks(disk0: seq<Chunk>) returns (disk: seq<Chunk>)
    ensures disk == BlockCompaction(disk0)
    ensures Sum(disk, Total) == Sum(disk0, Used)
  {
    disk := disk0;
    while Position(disk, IsFree).Some?
      invariant BlockCompaction(disk) == BlockCompaction(disk0)
      decreases |disk|, Sum(disk, Frees), FreeDistance(disk)
    {
      FillKeeps(disk, Position(disk, IsFree).value);
      disk := FillFirstFree(disk, Position(disk, IsFree).value);
    }
    NoFreeAllUsed(disk);
  }

  // The checksum

  /** `n` copies of `x`. */
  function Repeat(x: nat, n: nat): (r: seq<nat>)
    ensures |r| == n && forall i :: 0 <= i < n ==> r[i] == x
  {
    if n == 0 then [] else Repeat(x, n - 1) + [x]
  }

  /** The id a chunk's blocks contribute: part 2 counts free blocks as 0. */
  function Label(c: Chunk, filesOnly: bool): nat {
    if filesOnly && IsFree(c) then 0 else c.block.id
  }

  /** The disk block by block. */
  function Blocks(disk: seq<Chunk>, filesOnly: bool): (r: seq<nat>)
    ensures |r| == Sum(disk, Total)
  {
    if disk == [] then []
    else
      var c := disk[|disk| - 1];
      Blocks(disk[..|disk| - 1], filesOnly) + Repeat(Label(c, filesOnly), c.length)
  }

  /** The checksum as the puzzle defines it: the sum of each block's
      position times its id. */
  function BlockChecksum(blocks: seq<nat>): nat {
    if blocks == [] then 0 else BlockChecksum(blocks[..|blocks| - 1]) + (|blocks| - 1) * blocks[|blocks| - 1]
  }

  /** `(from..from + length).map(|position| position * id).sum()`. */
  function RangeSum(from: nat, length: nat, id: nat): nat {
    if length == 0 then 0 else RangeSum(from, length - 1, id) + (from + length - 1) * id
  }

  /** A chunk placed after `blocks` adds its range to the checksum. */
  lemma {:induction false} ChecksumRepeat(blocks: seq<nat>, x: nat, n: nat)
    ensures BlockChecksum(blocks + Repeat(x, n)) == BlockChecksum(blocks) + RangeSum(|blocks|, n, x)
    decreases n
  {
    if n == 0 {
      assert blocks + Repeat(x, 0) == blocks;
    } else {
      var s := blocks + Repeat(x, n);
      assert s[..|s| - 1] == blocks + Repeat(x, n - 1);
      ChecksumRepeat(blocks, x, n - 1);
    }
  }

  /** The closing `for chunk in disk` loop: a running position and the sum
      of each (counted) chunk's range. */
  method Checksum(disk: seq<Chunk>, filesOnly: bool) returns (checksum: nat)
    ensures checksum == BlockChecksum(Blocks(disk, filesOnly))
  {
    checksum := 0;
    var position := 0;
    var k := 0;
    while k < |disk|
      invariant 0 <= k <= |disk|
      invariant position == |Blocks(disk[..k], filesOnly)|
      invariant checksum == BlockChecksum(Blocks(disk[..k], filesOnly))
    {
      var c := disk[k];
      assert disk[..k + 1][..k] == disk[..k];
      ChecksumRepeat(Blocks(disk[..k], filesOnly), Label(c, filesOnly), c.length);
      if !filesOnly || !IsFree(c) {
        checksum := checksum + RangeSum(position, c.length, c.block.id);
      } else {
        assert RangeSum(position, c.length, 0) == 0 by { RangeSumZero(position, c.length); }
      }
      position := position + c.length;
      k := k + 1;
    }
    assert disk[..k] == disk;
  }

  lemma {:induction false} RangeSumZero(from: nat, length: nat)
    ensures RangeSum(from, length, 0) == 0
    decreases length
  {
    if length > 0 {
      RangeSumZero(from, length - 1);
    }
  }

  /** Gauss's sum: a range's checksum in closed form. */
  lemma RangeSumClosed(from: nat, length: nat, id: nat)
    ensures 2 * RangeSum(from, length, id) == id * (length * (2 * from + length - 1))
  {
    RangeSumScale(from, length, id);
    Gauss(from, length);
  }

  lemma {:induction false} Gauss(from: nat, length: nat)
    ensures 2 * RangeSum(from, length, 1) == length * (2 * from + length - 1)
    decreases length
  {
    if length > 0 {
      var l := length - 1;
      Gauss(from, l);
      assert length * (2 * from + length - 1) == l * (2 * from + l - 1) + 2 * (from + l);
    }
  }

  lemma {:induction false} RangeSumScale(from: nat, length: nat, id: nat)
    ensures RangeSum(from, length, id) == id * RangeSum(from, length, 1)
    decreases length
  {
    if length > 0 {
      var l := length - 1;
      RangeSumScale(from, l, id);
      assert (from + l) * id == id * ((from + l) * 1);
    }
  }

  /** `part1`. */
  method Part1(input: string) returns (r: Result<nat, string>)
    ensures r.Ok? <==> AllDigits(TrimAsciiEnd(input))
    ensures r.Err? ==> r.error == DIGIT_ERROR
    ensures r.Ok? ==> r.value == BlockChecksum(Blocks(BlockCompaction(DiskOf(TrimAsciiEnd(input))), false))
  {
    var parsed := ParseDisk(input);
    if parsed.Err? {
      return Err(parsed.error);
    }
    var disk := CompactBlocks(parsed.value.0);
    var checksum := Checksum(disk, false);
    r := Ok(checksum);
  }

  // Part 2: whole files

  function HasId(id: nat): Chunk -> bool {
    (c: Chunk) => c.block.id == id
  }

  function Fits(length: nat): Chunk -> bool {
    (c: Chunk) => IsFree(c) && c.length >= length
  }

  /** The disk after the chunk at `i` moves into the free chunk at `j < i`:
      it goes in front of the free chunk, which shrinks by its length, and
      its old place becomes free space of the same length with id 0. */
  function Moved(disk: seq<Chunk>, i: nat, j: nat): (r: seq<Chunk>)
    requires j < i < |disk| && disk[j].length >= disk[i].length
  {
    var file := disk[i];
    disk[..j] + [file, Chunk(disk[j].block, disk[j].length - file.length)]
      + disk[j + 1..i] + [Chunk(Block(Free, 0), file.length)] + disk[i + 1..]
  }

  /** Moving a chunk into free space that fits it keeps every file's length
      and the disk's length. */
  lemma MovedKeeps(disk: seq<Chunk>, i: nat, j: nat)
    requires j < i < |disk| && IsFree(disk[j]) && disk[j].length >= disk[i].length
    ensures KeepsFiles(disk, Moved(disk, i, j))
    ensures Sum(Moved(disk, i, j), Total) == Sum(disk, Total)
  {
    var head, middle, tail := MovedPieces(disk, i, j);
    forall m: Measure | m != Frees
      ensures Sum(Moved(disk, i, j), m) == Sum(disk, m)
    {
      MovedSum(head, disk[j], middle, disk[i], tail, m);
    }
  }

  /** The pieces a move rearranges. */
  lemma MovedPieces(disk: seq<Chunk>, i: nat, j: nat) returns (head: seq<Chunk>, middle: seq<Chunk>, tail: seq<Chunk>)
    requires j < i < |disk| && disk[j].length >= disk[i].length
    ensures disk == head + [disk[j]] + middle + ([disk[i]] + tail)
    ensures Moved(disk, i, j) == head + [disk[i]] + ([Chunk(disk[j].block, disk[j].length - disk[i].length)] + middle)
      + ([Chunk(Block(Free, 0), disk[i].length)] + tail)
  {
    head, middle, tail := disk[..j], disk[j + 1..i], disk[i + 1..];
    assert disk == head + [disk[j]] + middle + ([disk[i]] + tail);
  }

  /** The sums over the pieces a move rearranges. */
  lemma MovedSum(head: seq<Chunk>, free: Chunk, middle: seq<Chunk>, file: Chunk, tail: seq<Chunk>, m: Measure)
    requires IsFree(free) && free.length >= file.length && m != Frees
    ensures var shrunk := Chunk(free.block, free.length - file.length);
      var vacated := Chunk(Block(Free, 0), file.length);
      Sum(head + [file] + ([shrunk] + middle) + ([vacated] + tail), m)
        == Sum(head + [free] + middle + ([file] + tail), m)
  {
    var shrunk := Chunk(free.block, free.length - file.length);
    var vacated := Chunk(Block(Free, 0), file.length);
    SumFour(head, free, middle, [file] + tail, m);
    SumFour(head, file, [shrunk] + middle, [vacated] + tail, m);
    SumAppend([file], tail, m);
    SumAppend([shrunk], middle, m);
    SumAppend([vacated], tail, m);
    SumOne(file, m);
    SumOne(shrunk, m);
    SumOne(vacated, m);
  }

  ghost predicate HasFile(disk: seq<Chunk>, id: nat) {
    exists i :: 0 <= i < |disk| && disk[i].block == Block(File, id)
  }

  lemma HasFileFound(disk: seq<Chunk>, id: nat)
    requires HasFile(disk, id)
    ensures Position(disk, HasId(id)).Some?
  {
    var x :| 0 <= x < |disk| && disk[x].block == Block(File, id);
    assert HasId(id)(disk[x]);
    PositionFirst(disk, HasId(id));
  }

  /** A move takes away no file other than the one moved. */
  lemma MovedHasFile(disk: seq<Chunk>, i: nat, j: nat, id: nat)
    requires j < i < |disk| && IsFree(disk[j]) && disk[j].length >= disk[i].length
    requires HasFile(disk, id) && disk[i].block.id != id
    ensures HasFile(Moved(disk, i, j), id)
  {
    var x :| 0 <= x < |disk| && disk[x].block == Block(File, id);
    var r := Moved(disk, i, j);
    if x < j {
      assert r[x] == disk[x];
    } else {
      assert j < x && x != i;
      assert r[x + 1] == disk[x];
    }
  }

  /** One pass of part 2's loop for `file_id`: the first chunk with that id
      moves into the leftmost free chunk before it that is long enough, and
      stays where it is when there is none; no chunk with that id is the
      source's `unwrap` panic. */
  function FileMove(disk: seq<Chunk>, fileId: nat): Result<seq<Chunk>, string> {
    match Position(disk, HasId(fileId))
    case None => Err(UNWRAP_ERROR)
    case Some(i) =>
      match Position(disk[..i], Fits(disk[i].length))
      case None => Ok(disk)
      case Some(j) =>
        assert disk[..i][j] == disk[j];
        Ok(Moved(disk, i, j))
  }

  /** A pass fails exactly when the file is missing. */
  lemma FileMoveFails(disk: seq<Chunk>, fileId: nat)
    ensures FileMove(disk, fileId).Err? <==> Position(disk, HasId(fileId)).None?
    ensures FileMove(disk, fileId).Err? ==> FileMove(disk, fileId).error == UNWRAP_ERROR
  {
  }

  /** A pass keeps every file's length and the disk's length. */
  lemma FileMoveKeeps(disk: seq<Chunk>, fileId: nat)
    requires FileMove(disk, fileId).Ok?
    ensures KeepsFiles(disk, FileMove(disk, fileId).value)
    ensures Sum(FileMove(disk, fileId).value, Total) == Sum(disk, Total)
  {
    var i := Position(disk, HasId(fileId)).value;
    match Position(disk[..i], Fits(disk[i].length))
    case None =>
    case Some(j) =>
      assert disk[..i][j] == disk[j];
      MovedKeeps(disk, i, j);
  }

  /** A pass takes away no file other than the one it moves. */
  lemma FileMoveHasFile(disk: seq<Chunk>, fileId: nat, id: nat)
    requires FileMove(disk, fileId).Ok? && id != fileId && HasFile(disk, id)
    ensures HasFile(FileMove(disk, fileId).value, id)
  {
    var i := Position(disk, HasId(fileId)).value;
    match Position(disk[..i], Fits(disk[i].length))
    case None =>
    case Some(j) =>
      assert disk[..i][j] == disk[j];
      MovedHasFile(disk, i, j, id);
  }

  /** Keeping every file's length is transitive. */
  lemma KeepsFilesTrans(a: seq<Chunk>, b: seq<Chunk>, c: seq<Chunk>)
    requires KeepsFiles(a, b) && KeepsFiles(b, c)
    ensures KeepsFiles(a, c)
  {
  }

  /** Part 2's compaction: a pass for every id from `id` down to 1. */
  function FileCompaction(disk: seq<Chunk>, id: nat): Result<seq<Chunk>, string>
    decreases id
  {
    if id == 0 then Ok(disk)
    else
      match FileMove(disk, id)
      case Err(e) => Err(e)
      case Ok(d) => FileCompaction(d, id - 1)
  }

  /** A compaction that succeeds has made a successful first pass. */
  lemma FileCompactionStep(disk: seq<Chunk>, id: nat)
    requires id > 0 && FileCompaction(disk, id).Ok?
    ensures FileMove(disk, id).Ok?
    ensures FileCompaction(FileMove(disk, id).value, id - 1) == FileCompaction(disk, id)
  {
  }

  /** A successful compaction keeps every file's length. */
  lemma {:induction false} FileCompactionKeeps(disk: seq<Chunk>, id: nat)
    requires FileCompaction(disk, id).Ok?
    ensures KeepsFiles(disk, FileCompaction(disk, id).value)
    decreases id
  {
    if id > 0 {
      FileCompactionStep(disk, id);
      var d := FileMove(disk, id).value;
      FileMoveKeeps(disk, id);
      FileCompactionKeeps(d, id - 1);
      KeepsFilesTrans(disk, d, FileCompaction(d, id - 1).value);
    }
  }

  /** A successful compaction keeps the disk's length. */
  lemma {:induction false} FileCompactionLength(disk: seq<Chunk>, id: nat)
    requires FileCompaction(disk, id).Ok?
    ensures Sum(FileCompaction(disk, id).value, Total) == Sum(disk, Total)
    decreases id
  {
    if id > 0 {
      FileCompactionStep(disk, id);
      FileMoveKeeps(disk, id);
      FileCompactionLength(FileMove(disk, id).value, id - 1);
    }
  }

  /** Every file from 1 up to `id` is on the disk. */
  ghost predicate Complete(disk: seq<Chunk>, id: nat)
    decreases id
  {
    id == 0 || (HasFile(disk, id) && Complete(disk, id - 1))
  }

  /** A pass keeps every file below the one it moves. */
  lemma {:induction false} MoveKeepsComplete(disk: seq<Chunk>, fileId: nat, id: nat)
    requires FileMove(disk, fileId).Ok? && Complete(disk, id) && id < fileId
    ensures Complete(FileMove(disk, fileId).value, id)
    decreases id
  {
    if id > 0 {
      FileMoveHasFile(disk, fileId, id);
      MoveKeepsComplete(disk, fileId, id - 1);
    }
  }

  /** A pass over a disk holding every file up to `id` succeeds and keeps
      every file below `id`. */
  lemma FileMoveComplete(disk: seq<Chunk>, id: nat)
    requires id >= 1 && Complete(disk, id)
    ensures FileMove(disk, id).Ok? && Complete(FileMove(disk, id).value, id - 1)
  {
    FileMoveFails(disk, id);
    HasFileFound(disk, id);
    MoveKeepsComplete(disk, id, id - 1);
  }

  /** The compaction succeeds when every file it moves is on the disk. */
  lemma {:induction false} FileCompactionOk(disk: seq<Chunk>, id: nat)
    requires Complete(disk, id)
    ensures FileCompaction(disk, id).Ok?
    decreases id
  {
    if id > 0 {
      FileMoveComplete(disk, id);
      FileCompactionOk(FileMove(disk, id).value, id - 1);
    }
  }

  /** The compaction can only fail on a missing file. */
  lemma {:induction false} FileCompactionFails(disk: seq<Chunk>, id: nat)
    ensures FileCompaction(disk, id).Err? ==> FileCompaction(disk, id).error == UNWRAP_ERROR
    decreases id
  {
    if id > 0 {
      FileMoveFails(disk, id);
      if FileMove(disk, id).Ok? {
        FileCompactionFails(FileMove(disk, id).value, id - 1);
      }
    }
  }

  /** The compaction fails at once when the first file it moves is
      missing. */
  lemma FileCompactionMissing(disk: seq<Chunk>, id: nat)
    requires id >= 1 && Position(disk, HasId(id)).None?
    ensures FileCompaction(disk, id).Err?
  {
    FileMoveFails(disk, id);
  }

  /** Part 2's loop body, in place. */
  method MoveFile(disk: seq<Chunk>, fileId: nat) returns (r: Result<seq<Chunk>, string>)
    ensures r == FileMove(disk, fileId)
  {
    var found := Position(disk, HasId(fileId));
    if found.None? {
      return Err(UNWRAP_ERROR);
    }
    var i := found.value;
    var target := Position(disk[..i], Fits(disk[i].length));
    if target.None? {
      return Ok(disk);
    }
    var j := target.value;
    assert disk[..i][j] == disk[j];
    var free := disk[j];
    var moved := disk[j := Chunk(free.block, free.length - disk[i].length)];
    moved := moved[i := Chunk(Block(Free, 0), disk[i].length)];
    moved := moved[..j] + [disk[i]] + moved[j..];
    assert moved == Moved(disk, i, j);
    r := Ok(moved);
  }

  /** Part 2's `for file_id in (1..=current_block.id).rev()` loop: every id
      from `lastId` down to 1, once each. */
  method CompactFiles(disk0: seq<Chunk>, lastId: nat) returns (r: Result<seq<Chunk>, string>)
    ensures r == FileCompaction(disk0, lastId)
  {
    var disk := disk0;
    var fileId := lastId;
    while fileId >= 1
      invariant FileCompaction(disk, fileId) == FileCompaction(disk0, lastId)
    {
      var moved := MoveFile(disk, fileId);
      if moved.Err? {
        return Err(moved.error);
      }
      disk := moved.value;
      fileId := fileId - 1;
    }
    r := Ok(disk);
  }

  /** Every file id up to the last one in a parsed disk of odd length. */
  lemma ParsedFiles(t: string, id: nat)
    requires AllDigits(t) && |t| % 2 == 1 && id <= BlockAt(|t|).id
    ensures HasFile(DiskOf(t), id)
  {
    var x := id + id;
    assert x < |t| && x % 2 == 0 && x / 2 == id;
    assert DiskOf(t)[x].block == BlockAt(x);
  }

  /** A parsed disk of odd length holds every file up to the last one. */
  lemma {:induction false} ParsedComplete(t: string, id: nat)
    requires AllDigits(t) && |t| % 2 == 1 && id <= BlockAt(|t|).id
    ensures Complete(DiskOf(t), id)
    decreases id
  {
    if id > 0 {
      ParsedFiles(t, id);
      ParsedComplete(t, id - 1);
    }
  }

  /** A parsed disk of even length ends on free space: the file `Next`
      announces is not on it. */
  lemma ParsedMissing(t: string)
    requires AllDigits(t) && |t| % 2 == 0 && |t| >= 2
    ensures BlockAt(|t|).id >= 1 && Position(DiskOf(t), HasId(BlockAt(|t|).id)).None?
  {
    var disk := DiskOf(t);
    forall x | 0 <= x < |disk|
      ensures !HasId(BlockAt(|t|).id)(disk[x])
    {
      assert disk[x].block == BlockAt(x);
    }
  }

  /** `part2`: it fails on a non-digit, and on a disk map of even length,
      where the announced last file does not exist. */
  method Part2(input: string) returns (r: Result<nat, string>)
    ensures var t := TrimAsciiEnd(input);
      r.Ok? <==> AllDigits(t) && (|t| % 2 == 1 || |t| == 0)
    ensures r.Ok? ==>
      var t := TrimAsciiEnd(input);
      var compacted := FileCompaction(DiskOf(t), BlockAt(|t|).id);
      compacted.Ok? && r.value == BlockChecksum(Blocks(compacted.value, true))
  {
    var parsed := ParseDisk(input);
    if parsed.Err? {
      return Err(parsed.error);
    }
    ghost var t := TrimAsciiEnd(input);
    var (disk0, current) := parsed.value;
    FileCompactionFails(disk0, current.id);
    if |t| % 2 == 1 {
      ParsedComplete(t, current.id);
      FileCompactionOk(disk0, current.id);
    } else if |t| >= 2 {
      ParsedMissing(t);
      FileCompactionMissing(disk0, current.id);
    }
    var compacted := CompactFiles(disk0, current.id);
    if compacted.Err? {
      return Err(compacted.error);
    }
    var checksum := Checksum(compacted.value, true);
    r := Ok(checksum);
  }
}

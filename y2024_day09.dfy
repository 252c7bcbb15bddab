/** 2024 day 9: a disk map expands into blocks that hold a file id or are free; the blocks of
    files at the end are moved, one at a time, into the leftmost free blocks until no free
    block sits before a file block, and the result is summarised by a positional checksum. */
module DiskCompaction {
  import opened Wrappers
  import opened Text
  import opened Decimal

  /** One disk block: `Some(id)` holds part of file `id`, `None` is free. */
  type Block = Option<nat>

  /** The blocks described by the digits `ds`, read from position `i` of the disk map on: the
      digit at an even position `i` is the length of file `i / 2`, the one at an odd position
      the length of a free gap. */
  function Expand(ds: seq<nat>, i: nat): seq<Block>
    decreases |ds|
  {
    if ds == [] then []
    else Fill(ds[0], BlockAt(i)) + Expand(ds[1..], i + 1)
  }

  /** What the digit at position `i` of the disk map describes. */
  function BlockAt(i: nat): Block
  {
    if i % 2 == 0 then Some(i / 2) else None
  }

  lemma BlockAtFile(i: nat, id: nat)
    ensures BlockAt(i) == Some(id) <==> i == 2 * id
  {
  }

  function Fill(count: nat, b: Block): seq<Block>
  {
    seq(count, _ => b)
  }

  function Sum(ds: seq<nat>): nat
  {
    if ds == [] then 0 else ds[0] + Sum(ds[1..])
  }

  /** The disk has as many blocks as the digits add up to. */
  lemma {:induction false} ExpandLength(ds: seq<nat>, i: nat)
    ensures |Expand(ds, i)| == Sum(ds)
    decreases |ds|
  {
    if ds != [] {
      ExpandLength(ds[1..], i + 1);
    }
  }

  /** File `id` occupies exactly as many blocks as the digit at position `2 * id` says. */
  lemma {:induction false} ExpandFileSize(ds: seq<nat>, i: nat, id: nat)
    requires i <= 2 * id < i + |ds|
    ensures multiset(Expand(ds, i))[Some(id)] == ds[2 * id - i]
    decreases |ds|
  {
    assert Expand(ds, i) == Fill(ds[0], BlockAt(i)) + Expand(ds[1..], i + 1);
    FillCount(ds[0], BlockAt(i), Some(id));
    BlockAtFile(i, id);
    if 2 * id == i {
      AbsentFile(ds[1..], i + 1, id);
    } else {
      ExpandFileSize(ds[1..], i + 1, id);
    }
  }

  lemma {:induction false} AbsentFile(ds: seq<nat>, i: nat, id: nat)
    requires 2 * id < i
    ensures multiset(Expand(ds, i))[Some(id)] == 0
    decreases |ds|
  {
    if ds != [] {
      FillCount(ds[0], BlockAt(i), Some(id));
      BlockAtFile(i, id);
      AbsentFile(ds[1..], i + 1, id);
    }
  }

  lemma FillCount(count: nat, b: Block, x: Block)
    ensures multiset(Fill(count, b))[x] == if x == b then count else 0
  {
    if count > 0 {
      assert Fill(count, b) == Fill(count - 1, b) + [b];
      FillCount(count - 1, b, x);
    }
  }

  datatype ParseError = NoLine | NotADigit

  /** `parse`: the first line of the input is the disk map; a character other than a decimal
      digit is an error. */
  function Parse(input: string): (r: Result<seq<Block>, ParseError>)
    ensures r.Err? <==> Lines(input) == [] || !AllDigitChars(Lines(input)[0])
    ensures r.Ok? ==> |r.value| == Sum(CharValues(Lines(input)[0]))
  {
    var lines := Lines(input);
    if lines == [] then Err(NoLine)
    else if !AllDigitChars(lines[0]) then Err(NotADigit)
    else
      ExpandLength(CharValues(lines[0]), 0);
      Ok(Expand(CharValues(lines[0]), 0))
  }

  /** No free block comes before a file block. */
  predicate Compacted(s: seq<Block>)
  {
    forall i, j :: 0 <= i < j < |s| && s[i].None? ==> s[j].None?
  }

  predicate HasFile(s: seq<Block>)
  {
    exists i :: 0 <= i < |s| && s[i].Some?
  }

  /** The position of the first free block, or the length of the disk if there is none. */
  function FirstFree(s: seq<Block>): (r: nat)
    ensures r <= |s| && forall i :: 0 <= i < r ==> s[i].Some?
    ensures r < |s| ==> s[r].None?
  {
    match IndexOf(s, None)
    case None => |s|
    case Some(i) => i
  }

  /** The position of the last file block, if there is one. */
  function LastFile(s: seq<Block>): (r: Option<nat>)
    ensures r.None? ==> forall i :: 0 <= i < |s| ==> s[i].None?
    ensures r.Some? ==> r.value < |s| && s[r.value].Some?
    ensures r.Some? ==> forall i :: r.value < i < |s| ==> s[i].None?
  {
    if s == [] then None
    else if s[|s| - 1].Some? then Some(|s| - 1)
    else LastFile(s[..|s| - 1])
  }

  /** Compaction, stated without the two scans: while a free block comes before the last file
      block, that file block moves into the first free block. */
  function Compact(s: seq<Block>): seq<Block>
    decreases |s| - FirstFree(s)
  {
    var i := FirstFree(s);
    match LastFile(s)
    case None => s
    case Some(j) =>
      if j < i then s
      else
        var s' := s[i := s[j]][j := None];
        assert FirstFree(s') > i by { FirstFreeAfterMove(s, i, j); }
        Compact(s')
  }

  lemma FirstFreeAfterMove(s: seq<Block>, i: nat, j: nat)
    requires i == FirstFree(s) && i < j < |s| && s[j].Some?
    ensures FirstFree(s[i := s[j]][j := None]) > i
  {
    var s' := s[i := s[j]][j := None];
    assert forall k :: 0 <= k <= i ==> s'[k].Some?;
  }

  /** A step of `Compact` moves one block into one free block: the blocks are the same, in
      a different order. */
  lemma {:induction false} CompactPermutes(s: seq<Block>)
    ensures |Compact(s)| == |s| && multiset(Compact(s)) == multiset(s)
    decreases |s| - FirstFree(s)
  {
    var i := FirstFree(s);
    match LastFile(s)
    case None =>
    case Some(j) =>
      if i <= j {
        var s' := s[i := s[j]][j := None];
        FirstFreeAfterMove(s, i, j);
        CompactPermutes(s');
        assert s[i] == None;
        SwapPermutes(s, i, j);
      }
  }

  /** Compaction ends with no free block before a file block. */
  lemma {:induction false} CompactCompacted(s: seq<Block>)
    ensures Compacted(Compact(s))
    decreases |s| - FirstFree(s)
  {
    var i := FirstFree(s);
    match LastFile(s)
    case None =>
    case Some(j) =>
      if i <= j {
        var s' := s[i := s[j]][j := None];
        FirstFreeAfterMove(s, i, j);
        CompactCompacted(s');
      }
  }

  /** The scan from the left over file blocks: it stops on the first free block at or after
      `from`, which must exist. */
  method SkipFiles(blocks: seq<Block>, from: nat) returns (i: nat)
    requires from <= |blocks| && exists k :: from <= k < |blocks| && blocks[k].None?
    ensures from <= i < |blocks| && blocks[i].None?
    ensures forall k :: from <= k < i ==> blocks[k].Some?
  {
    i := from;
    while blocks[i].Some?
      invariant from <= i < |blocks| && forall k :: from <= k < i ==> blocks[k].Some?
      invariant exists k :: i <= k < |blocks| && blocks[k].None?
      decreases |blocks| - i
    {
      i := i + 1;
    }
  }

  /** The scan from the right over free blocks: it stops on the last file block at or before
      `from`, which must exist. */
  method SkipFree(blocks: seq<Block>, from: nat) returns (i: nat)
    requires from < |blocks| && exists k :: 0 <= k <= from && blocks[k].Some?
    ensures i <= from && blocks[i].Some? && forall k :: i < k <= from ==> blocks[k].None?
  {
    i := from;
    while blocks[i].None?
      invariant i <= from && forall k :: i < k <= from ==> blocks[k].None?
      invariant exists k :: 0 <= k <= i && blocks[k].Some?
      decreases i
    {
      i := i - 1;
    }
  }

  /** `Compact` stops once the first free block comes after the last file block. */
  lemma CompactDone(s: seq<Block>, i: nat, j: nat)
    requires j < i < |s| && s[j].Some? && s[i].None?
    requires forall k :: 0 <= k < i ==> s[k].Some?
    requires forall k :: j < k < |s| ==> s[k].None?
    ensures Compact(s) == s
  {
    assert FirstFree(s) == i;
    LastFileAt(s, j);
  }

  /** One step of `Compact`, for a first free block `i` before a last file block `j`. */
  lemma CompactStep(s: seq<Block>, i: nat, j: nat)
    requires i < j < |s| && s[i].None? && s[j].Some?
    requires forall k :: 0 <= k < i ==> s[k].Some?
    requires forall k :: j < k < |s| ==> s[k].None?
    ensures Compact(s) == Compact(s[i := s[j]][j := s[i]])
  {
    assert FirstFree(s) == i;
    LastFileAt(s, j);
  }

  lemma LastFileAt(s: seq<Block>, j: nat)
    requires j < |s| && s[j].Some? && forall k :: j < k < |s| ==> s[k].None?
    ensures LastFile(s) == Some(j)
  {
    var r := LastFile(s);
    assert r.Some? ==> r.value <= j;
  }

  /** `blocks` with the blocks at `i` and `j` exchanged (`Vec::swap`). */
  function Swap(blocks: seq<Block>, i: nat, j: nat): seq<Block>
    requires i < |blocks| && j < |blocks|
  {
    blocks[i := blocks[j]][j := blocks[i]]
  }

  lemma SwapTwice(blocks: seq<Block>, i: nat, j: nat)
    requires i < |blocks| && j < |blocks|
    ensures Swap(Swap(blocks, i, j), i, j) == blocks
  {
  }

  /** What holds each time the two scans of `to_defragmented` restart from `left` and
      `right`: the blocks before `left` are files, those after `right` are free, each file
      block that was already in place is unmoved, the free blocks between the two positions
      were free from the start, and each scan has a block to stop on. */
  predicate Scanning(blocks: seq<Block>, disk: seq<Block>, left: nat, right: nat)
  {
    left <= right < |blocks| == |disk|
    && (forall i :: 0 <= i < left ==> blocks[i].Some?)
    && (forall i :: right < i < |blocks| ==> blocks[i].None?)
    && (forall i :: 0 <= i < |blocks| && blocks[i].Some? && disk[i].Some? ==> blocks[i] == disk[i])
    && (forall i :: left <= i < right && blocks[i].None? ==> disk[i].None?)
    && (exists i :: left <= i < |blocks| && blocks[i].None?)
    && (exists i :: 0 <= i <= right && blocks[i].Some?)
  }

  /** The scans stopped on a free block at `left` and a file block at `right`, having passed
      only file blocks and free blocks. */
  predicate Stopped(blocks: seq<Block>, left0: nat, right0: nat, left: nat, right: nat)
  {
    left0 <= left < |blocks| && right <= right0 < |blocks|
    && blocks[left].None? && blocks[right].Some?
    && (forall k :: left0 <= k < left ==> blocks[k].Some?)
    && (forall k :: right < k <= right0 ==> blocks[k].None?)
  }

  /** When the scans have not crossed, the swap moves the last file block into the first free
      block: one step of `Compact`, after which the scans restart. */
  lemma SwapStep(blocks: seq<Block>, disk: seq<Block>, left0: nat, right0: nat, left: nat,
                 right: nat)
    requires Scanning(blocks, disk, left0, right0)
    requires Stopped(blocks, left0, right0, left, right) && left < right
    ensures Scanning(Swap(blocks, left, right), disk, left, right)
    ensures Compact(Swap(blocks, left, right)) == Compact(blocks)
    ensures Swap(blocks, left, right)[left].Some?
  {
    CompactStep(blocks, left, right);
    var b := Swap(blocks, left, right);
    assert b[right].None? && b[left].Some?;
    forall i | 0 <= i < left ensures b[i].Some? {
      assert b[i] == blocks[i];
    }
    forall i | right < i < |b| ensures b[i].None? {
      assert b[i] == blocks[i];
    }
    assert disk[left].None?;
    forall i | 0 <= i < |b| && b[i].Some? && disk[i].Some? ensures b[i] == disk[i] {
      assert i != left && i != right && b[i] == blocks[i];
    }
    forall i | left <= i < right && b[i].None? ensures disk[i].None? {
      assert i != left && b[i] == blocks[i];
    }
  }

  /** Each swap brings the scans closer, or fills the free block the left scan stood on. */
  lemma ScansProgress(blocks: seq<Block>, left0: nat, right0: nat, left: nat, right: nat)
    requires Stopped(blocks, left0, right0, left, right)
    ensures right - left < right0 - left0 + if blocks[left0].None? then 1 else 0
  {
  }

  /** When the scans have crossed, they are side by side and the blocks are compacted. */
  lemma Crossed(blocks: seq<Block>, disk: seq<Block>, left0: nat, right0: nat, left: nat,
                right: nat)
    requires Scanning(blocks, disk, left0, right0)
    requires Stopped(blocks, left0, right0, left, right) && left > right
    ensures left == right + 1 && Compact(blocks) == blocks
    ensures forall i :: 0 <= i < |blocks| && blocks[i].Some? && disk[i].Some? ==> blocks[i] == disk[i]
  {
    if left > right + 1 {
      assert blocks[right + 1].Some?;
    }
    CompactDone(blocks, left, right);
  }

  /** `to_defragmented`: on a copy of the blocks, the leftmost free block and the rightmost
      file block are swapped until the two scans cross; the last swap, made after they have
      crossed, is undone. A file block that ends where a file block started is the one that
      was there. The scans need a free block and a file block to stop on. */
  method Defragment(disk: seq<Block>) returns (r: seq<Block>)
    requires HasFile(disk) && None in disk
    ensures r == Compact(disk)
    ensures |r| == |disk| && multiset(r) == multiset(disk) && Compacted(r)
    ensures forall i :: 0 <= i < |r| && r[i].Some? && disk[i].Some? ==> r[i] == disk[i]
  {
    var blocks := disk;
    var left: nat, right: nat := 0, |blocks| - 1;
    ghost var before := blocks;
    // The test `left <= right` holds on entry; it is made after each swap instead.
    while true
      invariant Scanning(blocks, disk, left, right) && Compact(blocks) == Compact(disk)
      decreases right - left + if blocks[left].None? then 1 else 0
    {
      ghost var left0, right0 := left, right;
      left := SkipFiles(blocks, left);
      right := SkipFree(blocks, right);
      if left > right {
        Crossed(blocks, disk, left0, right0, left, right);
        before := blocks;
        blocks := Swap(blocks, left, right);
        break;
      }
      SwapStep(blocks, disk, left0, right0, left, right);
      ScansProgress(blocks, left0, right0, left, right);
      blocks := Swap(blocks, left, right);
    }
    // The last swap was made after the scans had crossed; it is undone.
    SwapTwice(before, left, right);
    blocks := Swap(blocks, left, right);
    r := blocks;
    CompactPermutes(disk);
    CompactCompacted(disk);
  }

  /** The checksum of `s` laid out from position `start` on. */
  function ChecksumFrom(s: seq<Block>, start: nat): nat
    decreases |s|
  {
    if s == [] then 0
    else (if s[0].Some? then s[0].value * start else 0) + ChecksumFrom(s[1..], start + 1)
  }

  /** `checksum`: the sum of file id times position over the file blocks. */
  function Checksum(s: seq<Block>): nat
  {
    ChecksumFrom(s, 0)
  }

  /** Each file block adds its id times its position to the checksum and a free block adds
      nothing: freeing block `k` lowers the checksum by exactly its share. */
  lemma {:induction false} ChecksumUpdate(s: seq<Block>, start: nat, k: nat)
    requires k < |s|
    ensures ChecksumFrom(s, start)
      == ChecksumFrom(s[k := None], start) + if s[k].Some? then s[k].value * (start + k) else 0
    decreases |s|
  {
    if k > 0 {
      ChecksumUpdate(s[1..], start + 1, k - 1);
      assert s[k := None][1..] == s[1..][k - 1 := None];
    } else {
      assert s[k := None][1..] == s[1..];
    }
  }

  /** A disk of free blocks has checksum 0. */
  lemma {:induction false} ChecksumFree(s: seq<Block>, start: nat)
    requires forall i :: 0 <= i < |s| ==> s[i].None?
    ensures ChecksumFrom(s, start) == 0
    decreases |s|
  {
    if s != [] {
      ChecksumFree(s[1..], start + 1);
    }
  }

  /** `part1`: the checksum of the compacted disk. */
  method Part1(disk: seq<Block>) returns (sum: nat)
    requires HasFile(disk) && None in disk
    ensures sum == Checksum(Compact(disk))
  {
    var r := Defragment(disk);
    sum := Checksum(r);
  }
}

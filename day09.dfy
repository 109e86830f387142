/** Day 9: a disk map of digits expands into file and free blocks; file blocks
    are moved one at a time from the right end into the leftmost free block,
    and the checksum of the compacted disk is the answer. */
module Day09 {
  import opened Common
  import Text

  /** A disk block: part of the file with the given id, or free. */
  datatype Block = Id(id: nat) | Empty

  /** What the digit at `index` of the disk map stands for: even positions are
      files, numbered from zero, odd positions are free space. */
  function BlockAt(index: nat): (b: Block)
    ensures b.Id? <==> index % 2 == 0
    ensures b.Id? ==> b.id * 2 == index
  {
    if index % 2 == 0 then Id(index / 2) else Empty
  }

  /** The expansion of the disk map: `input[i]` copies of `BlockAt(i)`, in order. */
  function Expand(input: seq<nat>): seq<Block>
  {
    if input == [] then []
    else
      var n := |input| - 1;
      Expand(input[..n]) + seq(input[n], _ => BlockAt(n))
  }

  /** The expansion has as many blocks as the digits add up to. */
  lemma {:induction false} ExpandLength(input: seq<nat>)
    ensures |Expand(input)| == Sum(input)
  {
    if input != [] {
      var n := |input| - 1;
      ExpandLength(input[..n]);
      assert input == input[..n] + [input[n]];
      SumAppend(input[..n], [input[n]]);
      assert Sum([input[n]]) == input[n] + Sum([]);
    }
  }

  /** Digit `i` of the disk map fills the `input[i]` blocks that start after
      the blocks of the digits before it. */
  lemma {:induction false} ExpandAt(input: seq<nat>, i: nat, j: nat)
    requires i < |input| && j < input[i]
    ensures 0 <= Sum(input[..i]) + j < |Expand(input)| && Expand(input)[Sum(input[..i]) + j] == BlockAt(i)
  {
    var n := |input| - 1;
    ExpandLength(input[..n]);
    ExpandLength(input[..i]);
    if i == n {
      ExpandLength(input[..i]);
    } else {
      assert input[..n][..i] == input[..i];
      ExpandAt(input[..n], i, j);
    }
  }

  predicate HasFree(s: seq<Block>)
  {
    exists j :: 0 <= j < |s| && s[j].Empty?
  }

  predicate HasFile(s: seq<Block>)
  {
    exists j :: 0 <= j < |s| && s[j].Id?
  }

  /** The compacted disk, without its free tail: trailing free blocks are
      dropped, file blocks at the front stay, and a free block at the front
      takes the last file block. */
  function Compacted(s: seq<Block>): (r: seq<Block>)
    ensures |r| <= |s|
    decreases |s|
  {
    if s == [] then []
    else if s[|s| - 1].Empty? then Compacted(s[..|s| - 1])
    else if s[0].Id? then [s[0]] + Compacted(s[1..])
    else [s[|s| - 1]] + Compacted(s[1..|s| - 1])
  }

  /** A file block at the front stays at the front. */
  lemma {:induction false} CompactedFront(s: seq<Block>)
    requires s != [] && s[0].Id?
    ensures Compacted(s) == [s[0]] + Compacted(s[1..])
    decreases |s|
  {
    var n := |s| - 1;
    if s[n].Empty? {
      CompactedFront(s[..n]);
      assert s[..n][1..] == s[1..][..n - 1];
    }
  }

  /** `a` holds each file block as often as `s` does. */
  ghost predicate SameFiles(a: seq<Block>, s: seq<Block>)
  {
    forall b: Block :: b.Id? ==> multiset(a)[b] == multiset(s)[b]
  }

  lemma AppendFree(a: seq<Block>, t: seq<Block>)
    requires SameFiles(a, t)
    ensures SameFiles(a, t + [Empty])
  {
    assert multiset(t + [Empty]) == multiset(t) + multiset{Empty};
  }

  lemma PrependFile(a: seq<Block>, t: seq<Block>, x: Block)
    requires SameFiles(a, t)
    ensures SameFiles([x] + a, [x] + t)
  {
    assert multiset([x] + a) == multiset{x} + multiset(a);
    assert multiset([x] + t) == multiset{x} + multiset(t);
  }

  lemma FillFree(a: seq<Block>, t: seq<Block>, x: Block)
    requires SameFiles(a, t)
    ensures SameFiles([x] + a, [Empty] + t + [x])
  {
    assert multiset([x] + a) == multiset{x} + multiset(a);
    assert multiset([Empty] + t + [x]) == multiset{Empty} + multiset(t) + multiset{x};
  }

  /** A free block at the end is dropped. */
  lemma CountsDropFree(t: seq<Block>)
    requires SameFiles(Compacted(t), t)
    ensures SameFiles(Compacted(t + [Empty]), t + [Empty])
  {
    assert (t + [Empty])[..|t|] == t;
    AppendFree(Compacted(t), t);
  }

  /** A file block at the front stays. */
  lemma CountsKeepFile(s: seq<Block>)
    requires s != [] && s[|s| - 1].Id? && s[0].Id?
    requires SameFiles(Compacted(s[1..]), s[1..])
    ensures SameFiles(Compacted(s), s)
  {
    var t := s[1..];
    PrependFile(Compacted(t), t, s[0]);
    SplitFirst(s);
  }

  /** A free block at the front takes the last file block. */
  lemma CountsFillFree(s: seq<Block>)
    requires |s| >= 2 && s[|s| - 1].Id? && s[0].Empty?
    requires SameFiles(Compacted(s[1..|s| - 1]), s[1..|s| - 1])
    ensures SameFiles(Compacted(s), s)
  {
    var t := s[1..|s| - 1];
    FillFree(Compacted(t), t, s[|s| - 1]);
    SplitEnds(s);
  }

  lemma SplitLast(s: seq<Block>)
    requires s != []
    ensures s == s[..|s| - 1] + [s[|s| - 1]]
  {
  }

  lemma SplitFirst(s: seq<Block>)
    requires s != []
    ensures s == [s[0]] + s[1..]
  {
  }

  lemma SplitEnds(s: seq<Block>)
    requires |s| >= 2
    ensures s == [s[0]] + s[1..|s| - 1] + [s[|s| - 1]]
  {
  }

  /** Each file block occurs in the compacted disk as often as in the input. */
  lemma {:induction false} CompactedCounts(s: seq<Block>)
    ensures SameFiles(Compacted(s), s)
    decreases |s|
  {
    if s != [] {
      var n := |s| - 1;
      if s[n].Empty? {
        CompactedCounts(s[..n]);
        CountsDropFree(s[..n]);
        SplitLast(s);
      } else if s[0].Id? {
        CompactedCounts(s[1..]);
        CountsKeepFile(s);
      } else {
        CompactedCounts(s[1..n]);
        CountsFillFree(s);
      }
    }
  }

  /** The compacted disk holds no free block. */
  lemma {:induction false} CompactedOnlyFiles(s: seq<Block>)
    ensures Empty !in Compacted(s)
    decreases |s|
  {
    if s != [] {
      var n := |s| - 1;
      if s[n].Empty? {
        CompactedOnlyFiles(s[..n]);
      } else if s[0].Id? {
        CompactedOnlyFiles(s[1..]);
      } else {
        CompactedOnlyFiles(s[1..n]);
      }
    }
  }

  /** Compaction keeps exactly the file blocks: as a multiset, the result is
      the input without its free blocks. */
  lemma CompactedFiles(s: seq<Block>)
    ensures multiset(Compacted(s)) == multiset(s)[Empty := 0]
  {
    CompactedCounts(s);
    CompactedOnlyFiles(s);
    FilesOnly(Compacted(s), s);
  }

  lemma FilesOnly(c: seq<Block>, s: seq<Block>)
    requires SameFiles(c, s) && Empty !in c
    ensures multiset(c) == multiset(s)[Empty := 0]
  {
    forall b: Block ensures multiset(c)[b] == multiset(s)[Empty := 0][b] {
    }
  }

  /** A file block that already lies inside the compacted region is never
      moved. */
  lemma {:induction false} CompactedKeepsPlaced(s: seq<Block>, i: nat)
    requires i < |Compacted(s)| && s[i].Id?
    ensures Compacted(s)[i] == s[i]
    decreases |s|
  {
    var n := |s| - 1;
    if s[n].Empty? {
      CompactedKeepsPlaced(s[..n], i);
    } else if s[0].Id? {
      if i > 0 {
        CompactedKeepsPlaced(s[1..], i - 1);
      }
    } else {
      CompactedKeepsPlaced(s[1..n], i - 1);
    }
  }

  /** The compaction done so far: the compacted input is the settled prefix
      `b[..index]` followed by the compaction of the unsettled middle
      `b[index..rindex + 1]`. */
  ghost predicate Settled(s: seq<Block>, b: seq<Block>, index: nat, rindex: int)
  {
    index <= rindex + 1 <= |b| && Compacted(s) == b[..index] + Compacted(b[index..rindex + 1])
  }

  /** `solve`'s compaction loop and `truncate`: walking `index` right past
      file blocks and `rindex` left past free blocks, the file block at
      `rindex` is moved into the free block at `index` until the two meet;
      the disk is then cut at `index`. The source indexes without bounds
      checks, so the disk must hold both a free and a file block. */
  method Compact(blocks: array<Block>) returns (index: nat)
    requires HasFree(blocks[..]) && HasFile(blocks[..])
    modifies blocks
    ensures index <= blocks.Length
    ensures blocks[..index] == Compacted(old(blocks[..]))
    ensures forall j :: index <= j < blocks.Length ==> blocks[j].Empty?
    ensures multiset(blocks[..]) == multiset(old(blocks[..]))
  {
    ghost var s := blocks[..];
    ghost var e :| 0 <= e < blocks.Length && blocks[e].Empty?;
    ghost var f :| 0 <= f < blocks.Length && blocks[f].Id?;
    index := 0;
    var rindex := blocks.Length - 1;
    assert blocks[index..rindex + 1] == s;
    while true
      invariant index <= e < blocks.Length && blocks[e].Empty?
      invariant 0 <= f <= rindex < blocks.Length && blocks[f].Id?
      invariant Partitioned(blocks[..], index, rindex)
      invariant Settled(s, blocks[..], index, rindex)
      invariant multiset(blocks[..]) == multiset(s)
      decreases rindex - index + 1, if blocks[index].Empty? then 1 else 0
    {
      index := SkipFiles(blocks, index, rindex, s, e);
      rindex := SkipFrees(blocks, index, rindex, s, f);
      if rindex <= index {
        break;
      }
      MoveBlock(blocks, index, rindex, s);
      e, f := rindex, index;
    }
    // The source scans past file blocks once more; `index` is already free.
    assert blocks[index].Empty?;
    SettledAll(s, blocks[..], index, rindex);
  }

  /** Once the pointers have crossed, the settled prefix is the whole result. */
  lemma SettledAll(s: seq<Block>, b: seq<Block>, index: nat, rindex: int)
    requires Settled(s, b, index, rindex) && rindex < index
    ensures b[..index] == Compacted(s)
  {
    assert b[index..rindex + 1] == [];
    assert b[..index] + [] == b[..index];
  }

  /** Everything before `index` is a file block, everything after `rindex` free. */
  ghost predicate Partitioned(b: seq<Block>, index: nat, rindex: int)
  {
    && (forall j :: 0 <= j < index && j < |b| ==> b[j].Id?)
    && (forall j :: 0 <= j < |b| && rindex < j ==> b[j].Empty?)
  }

  /** The first inner loop of the compaction: move `index` past file blocks. */
  method SkipFiles(blocks: array<Block>, index0: nat, rindex: int, ghost s: seq<Block>, ghost e: nat) returns (index: nat)
    requires index0 <= e < blocks.Length && blocks[e].Empty? && 0 <= rindex < blocks.Length
    requires Partitioned(blocks[..], index0, rindex)
    requires Settled(s, blocks[..], index0, rindex)
    ensures blocks[..] == old(blocks[..])
    ensures index0 <= index <= e && blocks[index].Empty?
    ensures Partitioned(blocks[..], index, rindex)
    ensures Settled(s, blocks[..], index, rindex)
  {
    index := index0;
    while blocks[index].Id?
      invariant index0 <= index <= e
      invariant Partitioned(blocks[..], index, rindex)
      invariant Settled(s, blocks[..], index, rindex)
      decreases e - index
    {
      SkipFile(blocks[..], index, rindex);
      index := index + 1;
    }
  }

  /** The second inner loop of the compaction: move `rindex` past free blocks. */
  method SkipFrees(blocks: array<Block>, index: nat, rindex0: int, ghost s: seq<Block>, ghost f: nat) returns (rindex: int)
    requires index < blocks.Length && blocks[index].Empty?
    requires f <= rindex0 < blocks.Length && blocks[f].Id?
    requires Partitioned(blocks[..], index, rindex0)
    requires Settled(s, blocks[..], index, rindex0)
    ensures blocks[..] == old(blocks[..])
    ensures f <= rindex <= rindex0 && blocks[rindex].Id? && rindex != index
    ensures Partitioned(blocks[..], index, rindex)
    ensures Settled(s, blocks[..], index, rindex)
  {
    rindex := rindex0;
    while blocks[rindex].Empty?
      invariant f <= rindex <= rindex0
      invariant Partitioned(blocks[..], index, rindex)
      invariant Settled(s, blocks[..], index, rindex)
      decreases rindex
    {
      SkipFree(blocks[..], index, rindex);
      rindex := rindex - 1;
    }
  }

  /** The body of the compaction loop: the file block at `rindex` goes into
      the free block at `index`, and `rindex` becomes free. */
  method MoveBlock(blocks: array<Block>, index: nat, rindex: nat, ghost s: seq<Block>)
    requires index < rindex < blocks.Length && blocks[index].Empty? && blocks[rindex].Id?
    requires Partitioned(blocks[..], index, rindex)
    requires Settled(s, blocks[..], index, rindex)
    modifies blocks
    ensures blocks[index] == old(blocks[rindex]) && blocks[rindex] == Empty
    ensures forall j :: 0 <= j < blocks.Length && j != index && j != rindex ==> blocks[j] == old(blocks[j])
    ensures Partitioned(blocks[..], index, rindex)
    ensures Settled(s, blocks[..], index, rindex)
    ensures multiset(blocks[..]) == multiset(old(blocks[..]))
  {
    ghost var before := blocks[..];
    blocks[index] := blocks[rindex];
    blocks[rindex] := Empty;
    MoveFile(before, blocks[..], index, rindex);
    SkipFile(blocks[..], index, rindex);
  }

  /** Skipping a file block at `index` keeps the compaction invariant. */
  lemma SkipFile(b: seq<Block>, index: nat, rindex: int)
    requires index <= rindex < |b| && b[index].Id?
    ensures b[..index] + Compacted(b[index..rindex + 1]) == b[..index + 1] + Compacted(b[index + 1..rindex + 1])
  {
    CompactedFront(b[index..rindex + 1]);
    assert b[index..rindex + 1][1..] == b[index + 1..rindex + 1];
    assert b[..index + 1] == b[..index] + [b[index]];
  }

  /** Skipping a free block at `rindex` keeps the compaction invariant. */
  lemma SkipFree(b: seq<Block>, index: nat, rindex: int)
    requires index <= rindex < |b| && b[rindex].Empty?
    ensures Compacted(b[index..rindex + 1]) == Compacted(b[index..rindex])
  {
    assert b[index..rindex + 1][..rindex - index] == b[index..rindex];
  }

  lemma SliceOfSlice(b: seq<Block>, lo: nat, hi: nat, i: nat, j: nat)
    requires lo <= hi <= |b| && i <= j <= hi - lo
    ensures b[lo..hi][i..j] == b[lo + i..lo + j]
  {
    forall k | 0 <= k < j - i ensures b[lo..hi][i..j][k] == b[lo + i..lo + j][k] {
    }
  }

  /** Moving the file block at `rindex` into the free block at `index` keeps
      the compaction invariant and the multiset of blocks. */
  lemma MoveFile(b: seq<Block>, b': seq<Block>, index: nat, rindex: nat)
    requires index < rindex < |b| && b[index].Empty? && b[rindex].Id?
    requires b' == b[index := b[rindex]][rindex := Empty]
    ensures b[..index] + Compacted(b[index..rindex + 1]) == b'[..index + 1] + Compacted(b'[index + 1..rindex + 1])
    ensures multiset(b') == multiset(b)
  {
    var t := b[index..rindex + 1];
    SliceOfSlice(b, index, rindex + 1, 1, rindex - index);
    assert b'[..index + 1] == b[..index] + [b[rindex]];
    assert b'[index + 1..rindex + 1][..rindex - index - 1] == b[index + 1..rindex];
    assert b' == b[index := b[rindex]][rindex := b[index]];
  }

  /** The checksum: each file block's position times its id, summed. */
  function Checksum(s: seq<Block>): nat
  {
    if s == [] then 0
    else
      var n := |s| - 1;
      Checksum(s[..n]) + (if s[n].Id? then n * s[n].id else 0)
  }

  /** Free blocks at the end add nothing, so cutting them off with `truncate`
      leaves the checksum of the whole disk unchanged. */
  lemma {:induction false} ChecksumFreeTail(s: seq<Block>, t: seq<Block>)
    requires forall j :: 0 <= j < |t| ==> t[j].Empty?
    ensures Checksum(s + t) == Checksum(s)
  {
    if t != [] {
      var n := |t| - 1;
      assert (s + t)[|s + t| - 1] == t[n];
      assert (s + t)[..|s + t| - 1] == s + t[..n];
      ChecksumFreeTail(s, t[..n]);
    } else {
      assert s + t == s;
    }
  }

  /** `solve`: expand the disk map into a vector of blocks, compact it in
      place, truncate it at the first free block and take the checksum. */
  method Solve(input: seq<nat>) returns (result: nat)
    requires HasFree(Expand(input)) && HasFile(Expand(input))
    ensures result == Checksum(Compacted(Expand(input)))
  {
    var expanded := Expand(input);
    var blocks := new Block[|expanded|](i requires 0 <= i < |expanded| => expanded[i]);
    assert blocks[..] == expanded;
    var index := Compact(blocks);
    var kept := blocks[..index];
    result := Checksum(kept);
  }

  /** The digits of a string, or `None` when one is not a decimal digit. */
  function Digits(t: string): (r: Option<seq<nat>>)
    ensures r.Some? <==> forall i :: 0 <= i < |t| ==> Text.IsDigit(t[i])
    ensures r.Some? ==> |r.value| == |t| && forall i :: 0 <= i < |t| ==> r.value[i] == Text.DigitOf(t[i])
  {
    if t == [] then Some([])
    else
      match Digits(t[..|t| - 1])
      case None => None
      case Some(ds) =>
        if Text.IsDigit(t[|t| - 1]) then Some(ds + [Text.DigitOf(t[|t| - 1])]) else None
  }

  /** `parse_input`: trim the input and read each character as a digit (the
      source panics on any other character; that is `None` here). */
  function ParseInput(s: string): (r: Option<seq<nat>>)
  {
    Digits(Text.Trim(s))
  }

  /** The disk map written back as a string of digits. */
  function ShowDigits(ds: seq<nat>): (t: string)
    requires forall i :: 0 <= i < |ds| ==> ds[i] < 10
    ensures |t| == |ds|
    ensures forall i :: 0 <= i < |t| ==> Text.IsDigit(t[i]) && Text.DigitOf(t[i]) == ds[i]
  {
    if ds == [] then []
    else ShowDigits(ds[..|ds| - 1]) + [(ds[|ds| - 1] + '0' as int) as char]
  }

  /** Parsing a written-out disk map gives it back. */
  lemma ParseShow(ds: seq<nat>)
    requires forall i :: 0 <= i < |ds| ==> ds[i] < 10
    ensures ParseInput(ShowDigits(ds)) == Some(ds)
  {
    var t := ShowDigits(ds);
    Text.TrimUnpadded(t);
    assert Digits(t).value == ds;
  }
}

/** Block lists: the shape both heaps keep their memory in.

    A block starts with a header and runs up to the next block.  The last element of a
    list is the end marker, which is always used and owns no payload.  `mem.c` and
    `memheap.c` both split, mark and merge such lists; the pointer work that does it is
    in `SmallHeap` and `MemHeap`. */
module Blocks {
  import opened Common

  datatype Block = Block(at: nat, used: bool)

  // ----- shape -----

  /** The blocks tile `[lo, hi)`: they start at `lo`, each leaves room for its header, the marker sits at `hi`. */
  ghost predicate Tiles(bs: seq<Block>, lo: nat, hi: nat, header: nat) {
    && |bs| >= 2 && bs[0].at == lo && bs[|bs| - 1] == Block(hi, true)
    && forall i, j {:trigger Apart(bs, i, j, header)} :: Apart(bs, i, j, header)
  }

  ghost predicate Apart(bs: seq<Block>, i: int, j: int, header: nat) {
    0 <= i < j < |bs| ==> bs[i].at + header <= bs[j].at
  }

  /** `Tiles` is stated through `Apart` so that it is unfolded only where this lemma is called. */
  lemma Rising(bs: seq<Block>, lo: nat, hi: nat, header: nat)
    requires Tiles(bs, lo, hi, header)
    ensures forall i, j :: 0 <= i < j < |bs| ==> bs[i].at + header <= bs[j].at
  {
    forall i, j | 0 <= i < j < |bs| ensures bs[i].at + header <= bs[j].at {
      assert Apart(bs, i, j, header);
    }
  }

  /** No two neighbours are both free. */
  ghost predicate NoTwins(bs: seq<Block>) {
    forall i {:trigger NotTwins(bs, i)} :: NotTwins(bs, i)
  }

  ghost predicate NotTwins(bs: seq<Block>, i: int) {
    0 <= i < |bs| - 1 ==> bs[i].used || bs[i + 1].used
  }

  ghost function Size(bs: seq<Block>, i: nat, header: nat): int
    requires i < |bs| - 1
  {
    bs[i + 1].at - bs[i].at - header
  }

  // ----- payloads -----

  datatype Range = Range(lo: nat, hi: nat)

  ghost function RangeOf(bs: seq<Block>, i: int, header: nat): Range
    requires 0 <= i < |bs| - 1
  {
    Range(bs[i].at + header, bs[i + 1].at)
  }

  /** The payloads in use, as half-open ranges. */
  ghost function Live(bs: seq<Block>, header: nat): set<Range> {
    set i {:trigger RangeOf(bs, i, header)} | 0 <= i < |bs| - 1 && bs[i].used :: RangeOf(bs, i, header)
  }

  /** Address `o` lies in a payload in use. */
  ghost predicate InLive(live: set<Range>, o: int) {
    exists r :: r in live && r.lo <= o < r.hi
  }

  /** Two payloads in use never overlap. */
  lemma LiveDisjoint(bs: seq<Block>, lo: nat, hi: nat, header: nat, r: Range, s: Range)
    requires Tiles(bs, lo, hi, header) && r in Live(bs, header) && s in Live(bs, header)
    ensures r == s || r.hi <= s.lo || s.hi <= r.lo
    ensures lo + header <= r.lo <= r.hi <= hi
  {
    Rising(bs, lo, hi, header);
    var i :| 0 <= i < |bs| - 1 && bs[i].used && r == RangeOf(bs, i, header);
    var j :| 0 <= j < |bs| - 1 && bs[j].used && s == RangeOf(bs, j, header);
  }

  /** Headers lie outside every payload in use. */
  lemma HeaderNotLive(bs: seq<Block>, lo: nat, hi: nat, header: nat, k: nat, o: int)
    requires Tiles(bs, lo, hi, header) && k < |bs| && bs[k].at <= o < bs[k].at + header
    ensures !InLive(Live(bs, header), o)
  {
    Rising(bs, lo, hi, header);
    forall r | r in Live(bs, header) ensures o < r.lo || r.hi <= o {
      var i :| 0 <= i < |bs| - 1 && bs[i].used && r == RangeOf(bs, i, header);
    }
  }

  /** The extent of block `i` meets no payload in use but its own. */
  lemma ExtentNotLive(bs: seq<Block>, lo: nat, hi: nat, header: nat, i: nat, o: int, r: Range)
    requires Tiles(bs, lo, hi, header) && i < |bs| - 1 && bs[i].at <= o < bs[i + 1].at
    requires r in Live(bs, header)
    ensures o < r.lo || r.hi <= o || (bs[i].used && r == RangeOf(bs, i, header))
  {
    Rising(bs, lo, hi, header);
    var k :| 0 <= k < |bs| - 1 && bs[k].used && r == RangeOf(bs, k, header);
  }

  // ----- byte counts -----

  ghost function Weight1(b: Block, next: Block, used: bool, less: int): int {
    if b.used == used then next.at - b.at - less else 0
  }

  /** Total extent of those of the first `k` blocks that have the given mark, less `less` bytes for each. */
  ghost function WeighTo(bs: seq<Block>, k: nat, used: bool, less: int): int
    requires k < |bs|
  {
    if k == 0 then 0 else WeighTo(bs, k - 1, used, less) + Weight1(bs[k - 1], bs[k], used, less)
  }

  ghost function Weigh(bs: seq<Block>, used: bool, less: int): int
    requires |bs| > 0
  {
    WeighTo(bs, |bs| - 1, used, less)
  }

  lemma {:induction false} WeighPrefix(bs: seq<Block>, cs: seq<Block>, k: nat, used: bool, less: int)
    requires k < |bs| && k < |cs| && bs[k].at == cs[k].at
    requires forall j :: 0 <= j < k ==> bs[j] == cs[j]
    ensures WeighTo(bs, k, used, less) == WeighTo(cs, k, used, less)
  {
    if k > 0 { WeighPrefix(bs, cs, k - 1, used, less); }
  }

  lemma {:induction false} WeighSuffix(bs: seq<Block>, i: nat, cs: seq<Block>, j: nat, used: bool, less: int)
    requires i < |bs| && j < |cs| && bs[i..] == cs[j..]
    ensures Weigh(bs, used, less) - WeighTo(bs, i, used, less) == Weigh(cs, used, less) - WeighTo(cs, j, used, less)
    decreases |bs| - i
  {
    assert bs[i] == bs[i..][0] && cs[j] == cs[j..][0] && |bs| - i == |bs[i..]| == |cs[j..]|;
    if i < |bs| - 1 {
      assert bs[i + 1] == bs[i..][1] && cs[j + 1] == cs[j..][1];
      assert bs[i + 1..] == bs[i..][1..] && cs[j + 1..] == cs[j..][1..];
      WeighSuffix(bs, i + 1, cs, j + 1, used, less);
    }
  }

  // ----- the four edits -----

  ghost function Mark(bs: seq<Block>, i: nat, used: bool): seq<Block>
    requires i < |bs|
  {
    bs[i := Block(bs[i].at, used)]
  }

  /** A free block begins at `cut`, inside block `i`. */
  ghost function Cut(bs: seq<Block>, i: nat, cut: nat): seq<Block>
    requires i < |bs|
  {
    bs[..i + 1] + [Block(cut, false)] + bs[i + 1..]
  }

  /** Block `i` becomes used and ends at `cut`, where a free block begins. */
  ghost function Split(bs: seq<Block>, i: nat, cut: nat): seq<Block>
    requires i < |bs|
  {
    Mark(Cut(bs, i, cut), i, true)
  }

  /** What is left of the list once block `i` serves `n` bytes: split when the rest can hold `least` more. */
  ghost function Carve(bs: seq<Block>, i: nat, n: nat, header: nat, least: nat): seq<Block>
    requires i < |bs| - 1
  {
    if Size(bs, i, header) >= n + header + least then Split(bs, i, bs[i].at + header + n) else Mark(bs, i, true)
  }

  /** Block `i` is swallowed by the one before it. */
  ghost function Drop(bs: seq<Block>, i: nat): seq<Block>
    requires i < |bs|
  {
    bs[..i] + bs[i + 1..]
  }

  /** Block `i`, just freed, swallows a free right neighbour, then is swallowed by a free left one. */
  ghost function Plug(bs: seq<Block>, i: nat): seq<Block>
    requires i < |bs| - 1
  {
    var right := if !bs[i + 1].used then Drop(bs, i + 1) else bs;
    if i > 0 && !right[i - 1].used then Drop(right, i) else right
  }

  /** No other block starts where block `i` does. */
  ghost predicate Alone(bs: seq<Block>, i: nat)
    requires i < |bs|
  {
    forall k :: 0 <= k < |bs| && k != i ==> bs[k].at != bs[i].at
  }

  lemma StandsAlone(bs: seq<Block>, i: nat, lo: nat, hi: nat, header: nat)
    requires Tiles(bs, lo, hi, header) && i < |bs| && header > 0
    ensures Alone(bs, i)
  {
    forall k | 0 <= k < |bs| && k != i ensures bs[k].at != bs[i].at {
      assert Apart(bs, k, i, header) && Apart(bs, i, k, header);
    }
  }

  lemma MarkShape(bs: seq<Block>, i: nat, used: bool, lo: nat, hi: nat, header: nat)
    requires Tiles(bs, lo, hi, header) && i < |bs| - 1
    ensures Tiles(Mark(bs, i, used), lo, hi, header) && (header > 0 ==> Alone(bs, i))
  {
    Rising(bs, lo, hi, header);
  }

  lemma MarkTwins(bs: seq<Block>, i: nat)
    requires NoTwins(bs) && i < |bs|
    ensures NoTwins(Mark(bs, i, true))
  {
    forall k ensures NotTwins(Mark(bs, i, true), k) {
      assert NotTwins(bs, k);
    }
  }

  lemma MarkLive(bs: seq<Block>, i: nat, used: bool, header: nat)
    requires i < |bs| - 1 && Alone(bs, i)
    ensures var r := RangeOf(bs, i, header);
      Live(Mark(bs, i, used), header) == if used then Live(bs, header) + {r} else Live(bs, header) - {r}
  {
    var cs := Mark(bs, i, used);
    var r := RangeOf(bs, i, header);
    forall x ensures x in Live(cs, header) <==> if x == r then used else x in Live(bs, header) {
      if x in Live(cs, header) {
        var k :| 0 <= k < |cs| - 1 && cs[k].used && x == RangeOf(cs, k, header);
        assert k != i ==> x == RangeOf(bs, k, header);
      }
      if x in Live(bs, header) && x != r {
        var k :| 0 <= k < |bs| - 1 && bs[k].used && x == RangeOf(bs, k, header);
        assert x == RangeOf(cs, k, header);
      }
      if x == r && used { assert x == RangeOf(cs, i, header); }
    }
  }

  lemma MarkWeight(bs: seq<Block>, i: nat, used: bool, mark: bool, less: int)
    requires i < |bs| - 1
    ensures Weigh(Mark(bs, i, used), mark, less) ==
      Weigh(bs, mark, less) - Weight1(bs[i], bs[i + 1], mark, less) +
      Weight1(Block(bs[i].at, used), bs[i + 1], mark, less)
  {
    var cs := Mark(bs, i, used);
    WeighPrefix(bs, cs, i, mark, less);
    assert bs[i + 1..] == cs[i + 1..];
    WeighSuffix(bs, i + 1, cs, i + 1, mark, less);
    assert WeighTo(bs, i + 1, mark, less) == WeighTo(bs, i, mark, less) + Weight1(bs[i], bs[i + 1], mark, less);
    assert WeighTo(cs, i + 1, mark, less) == WeighTo(cs, i, mark, less) + Weight1(cs[i], cs[i + 1], mark, less);
  }

  lemma CutShape(bs: seq<Block>, i: nat, cut: nat, lo: nat, hi: nat, header: nat)
    requires Tiles(bs, lo, hi, header) && i < |bs| - 1
    requires bs[i].at + header <= cut && cut + header <= bs[i + 1].at
    ensures Tiles(Cut(bs, i, cut), lo, hi, header) && (header > 0 ==> Alone(bs, i))
  {
    Rising(bs, lo, hi, header);
    var cs := Cut(bs, i, cut);
    forall k, j | 0 <= k < j < |cs| ensures cs[k].at + header <= cs[j].at {
      if k <= i { assert cs[k] == bs[k]; }
      if k > i + 1 { assert cs[k] == bs[k - 1]; }
      if j > i + 1 { assert cs[j] == bs[j - 1]; }
    }
  }

  lemma SplitTwins(bs: seq<Block>, i: nat, cut: nat)
    requires i < |bs| - 1 && NoTwins(bs) && bs[i + 1].used
    ensures NoTwins(Split(bs, i, cut))
  {
    var cs := Split(bs, i, cut);
    forall k ensures NotTwins(cs, k) {
      if k < i { assert NotTwins(bs, k); }
      if k > i + 1 { assert NotTwins(bs, k - 1); }
    }
  }

  lemma SplitLive(bs: seq<Block>, i: nat, cut: nat, header: nat)
    requires i < |bs| - 1 && Alone(bs, i)
    ensures Live(Split(bs, i, cut), header) ==
      Live(bs, header) - {RangeOf(bs, i, header)} + {Range(bs[i].at + header, cut)}
  {
    var cs := Split(bs, i, cut);
    var r, s := RangeOf(bs, i, header), Range(bs[i].at + header, cut);
    forall x ensures x in Live(cs, header) <==> x == s || (x != r && x in Live(bs, header)) {
      if x in Live(cs, header) {
        var k :| 0 <= k < |cs| - 1 && cs[k].used && x == RangeOf(cs, k, header);
        if k < i { assert x == RangeOf(bs, k, header); }
        if k > i { assert x == RangeOf(bs, k - 1, header); }
      }
      if x in Live(bs, header) && x != r {
        var k :| 0 <= k < |bs| - 1 && bs[k].used && x == RangeOf(bs, k, header);
        if k < i { assert x == RangeOf(cs, k, header); }
        if k > i { assert x == RangeOf(cs, k + 1, header); }
      }
      if x == s { assert x == RangeOf(cs, i, header); }
    }
  }

  lemma SplitWeight(bs: seq<Block>, i: nat, cut: nat, mark: bool, less: int)
    requires i < |bs| - 1
    ensures Weigh(Split(bs, i, cut), mark, less) ==
      Weigh(bs, mark, less) - Weight1(bs[i], bs[i + 1], mark, less)
      + Weight1(Block(bs[i].at, true), Block(cut, false), mark, less) +
      Weight1(Block(cut, false), bs[i + 1], mark, less)
  {
    var cs := Split(bs, i, cut);
    WeighPrefix(bs, cs, i, mark, less);
    assert bs[i + 1..] == cs[i + 2..];
    WeighSuffix(bs, i + 1, cs, i + 2, mark, less);
    assert WeighTo(cs, i + 1, mark, less) == WeighTo(cs, i, mark, less) + Weight1(cs[i], cs[i + 1], mark, less);
  }

  lemma DropShape(bs: seq<Block>, i: nat, lo: nat, hi: nat, header: nat)
    requires Tiles(bs, lo, hi, header) && 0 < i < |bs| - 1
    ensures Tiles(Drop(bs, i), lo, hi, header)
  {
    Rising(bs, lo, hi, header);
    var cs := Drop(bs, i);
    forall k, j | 0 <= k < j < |cs| ensures cs[k].at + header <= cs[j].at {
      assert cs[k] == if k < i then bs[k] else bs[k + 1];
      assert cs[j] == if j < i then bs[j] else bs[j + 1];
    }
  }

  lemma DropLive(bs: seq<Block>, i: nat, header: nat)
    requires 0 < i < |bs| - 1 && !bs[i].used && !bs[i - 1].used
    ensures Live(Drop(bs, i), header) == Live(bs, header)
  {
    var cs := Drop(bs, i);
    forall x ensures x in Live(cs, header) <==> x in Live(bs, header) {
      if x in Live(cs, header) {
        var k :| 0 <= k < |cs| - 1 && cs[k].used && x == RangeOf(cs, k, header);
        if k < i { assert k != i - 1 && x == RangeOf(bs, k, header); } else { assert x == RangeOf(bs, k + 1, header); }
      }
      if x in Live(bs, header) {
        var k :| 0 <= k < |bs| - 1 && bs[k].used && x == RangeOf(bs, k, header);
        if k < i {
          assert k != i - 1 && x == RangeOf(cs, k, header);
        } else {
          assert k > i && x == RangeOf(cs, k - 1, header);
        }
      }
    }
  }

  lemma DropWeight(bs: seq<Block>, i: nat, mark: bool, less: int)
    requires 0 < i < |bs| - 1
    ensures Weigh(Drop(bs, i), mark, less) ==
      Weigh(bs, mark, less) - Weight1(bs[i - 1], bs[i], mark, less) - Weight1(bs[i], bs[i + 1], mark, less)
      + Weight1(bs[i - 1], bs[i + 1], mark, less)
  {
    var cs := Drop(bs, i);
    WeighPrefix(bs, cs, i - 1, mark, less);
    assert bs[i + 1..] == cs[i..];
    WeighSuffix(bs, i + 1, cs, i, mark, less);
    assert WeighTo(bs, i, mark, less) == WeighTo(bs, i - 1, mark, less) + Weight1(bs[i - 1], bs[i], mark, less);
  }

  // ----- finding blocks -----

  /** The lowest free block, or the end marker. */
  ghost function FirstFree(bs: seq<Block>): (k: nat)
    requires |bs| > 0 && bs[|bs| - 1].used
    ensures k < |bs| && (k < |bs| - 1 ==> !bs[k].used)
    ensures forall j :: 0 <= j < k ==> bs[j].used
  {
    FirstFreeFrom(bs, 0)
  }

  ghost function FirstFreeFrom(bs: seq<Block>, i: nat): (k: nat)
    requires i < |bs| && bs[|bs| - 1].used
    ensures i <= k < |bs| && (k < |bs| - 1 ==> !bs[k].used)
    ensures forall j :: i <= j < k ==> bs[j].used
    decreases |bs| - i
  {
    if !bs[i].used || i == |bs| - 1 then i else FirstFreeFrom(bs, i + 1)
  }

  lemma FirstFreeIs(bs: seq<Block>, k: nat)
    requires |bs| > 0 && bs[|bs| - 1].used && k < |bs|
    requires k < |bs| - 1 ==> !bs[k].used
    requires forall j :: 0 <= j < k ==> bs[j].used
    ensures FirstFree(bs) == k
  {
  }

  // ----- merging -----

  ghost predicate TwinsOnlyAt(bs: seq<Block>, i: nat) {
    forall k {:trigger NotTwins(bs, k)} :: k != i && k != i - 1 ==> NotTwins(bs, k)
  }

  /** Merging two free neighbours keeps the tiling, the payloads, the used bytes and the lowest free block. */
  lemma DropKeeps(bs: seq<Block>, i: nat, lo: nat, hi: nat, header: nat)
    requires Tiles(bs, lo, hi, header) && 0 < i < |bs| - 1 && !bs[i].used && !bs[i - 1].used
    ensures var cs := Drop(bs, i);
      && Tiles(cs, lo, hi, header) && Live(cs, header) == Live(bs, header)
      && Weigh(cs, true, 0) == Weigh(bs, true, 0)
      && cs[FirstFree(cs)] == bs[FirstFree(bs)]
  {
    DropShape(bs, i, lo, hi, header);
    DropLive(bs, i, header);
    DropWeight(bs, i, true, 0);
    var f := FirstFree(bs);
    assert f < i;
    FirstFreeIs(Drop(bs, i), f);
  }

  lemma PlugRight(bs: seq<Block>, i: nat)
    requires i + 2 < |bs| && !bs[i].used && !bs[i + 1].used && bs[|bs| - 1].used && TwinsOnlyAt(bs, i)
    ensures var cs := Drop(bs, i + 1);
      |cs| == |bs| - 1 && cs[i] == bs[i] && cs[i + 1].used && TwinsOnlyAt(cs, i) && (i > 0 ==> cs[i - 1] == bs[i - 1])
  {
    var cs := Drop(bs, i + 1);
    assert NotTwins(bs, i + 1);
    forall k | k != i && k != i - 1 ensures NotTwins(cs, k) {
      assert NotTwins(bs, k);
      if k > i { assert NotTwins(bs, k + 1); }
      if i < k < |cs| - 1 { assert cs[k] == bs[k + 1] && cs[k + 1] == bs[k + 2]; }
    }
  }

  lemma PlugLeft(bs: seq<Block>, i: nat)
    requires 0 < i < |bs| - 1 && !bs[i].used && !bs[i - 1].used && bs[i + 1].used && TwinsOnlyAt(bs, i)
    ensures NoTwins(Drop(bs, i))
  {
    var cs := Drop(bs, i);
    forall k ensures NotTwins(cs, k) {
      if k < i - 1 { assert NotTwins(bs, k); }
      if i <= k < |cs| - 1 { assert NotTwins(bs, k + 1) && cs[k] == bs[k + 1] && cs[k + 1] == bs[k + 2]; }
    }
  }

  lemma NothingToPlug(bs: seq<Block>, i: nat)
    requires i < |bs| - 1 && bs[i + 1].used && (i > 0 ==> bs[i - 1].used) && TwinsOnlyAt(bs, i)
    ensures NoTwins(bs)
  {
    forall k ensures NotTwins(bs, k) {
      if k == i - 1 && i > 0 { assert bs[k].used; }
    }
  }

  /** Block `i`, just freed, was swallowed by a free left neighbour: only the right side can still be free. */
  lemma LeftMerged(bs: seq<Block>, i: nat)
    requires 0 < i < |bs| - 1 && !bs[i].used && !bs[i - 1].used && TwinsOnlyAt(bs, i)
    ensures var cs := Drop(bs, i); TwinsOnlyAt(cs, i - 1) && (i > 1 ==> cs[i - 2].used) && !cs[i - 1].used
  {
    var cs := Drop(bs, i);
    assert NotTwins(bs, i - 2);
    forall k | k != i - 1 && k != i - 2 ensures NotTwins(cs, k) {
      if k < i - 2 { assert NotTwins(bs, k); }
      if i <= k < |cs| - 1 { assert NotTwins(bs, k + 1) && cs[k] == bs[k + 1] && cs[k + 1] == bs[k + 2]; }
    }
  }

  /** A freed block with a used left neighbour swallows a free right one. */
  lemma RightMerged(bs: seq<Block>, i: nat)
    requires i + 2 < |bs| && !bs[i].used && !bs[i + 1].used && (i > 0 ==> bs[i - 1].used) && TwinsOnlyAt(bs, i)
    ensures NoTwins(Drop(bs, i + 1)) && Drop(bs, i + 1)[i] == bs[i]
  {
    var cs := Drop(bs, i + 1);
    assert NotTwins(bs, i + 1);
    forall k ensures NotTwins(cs, k) {
      if k < i - 1 { assert NotTwins(bs, k); }
      if k == i - 1 && i > 0 { assert cs[k] == bs[k]; }
      if i < k < |cs| - 1 { assert NotTwins(bs, k + 1) && cs[k] == bs[k + 1] && cs[k + 1] == bs[k + 2]; }
    }
  }

  // ----- one list for each set of payloads -----

  lemma TailShape(bs: seq<Block>, lo: nat, hi: nat, header: nat)
    requires Tiles(bs, lo, hi, header) && NoTwins(bs) && |bs| > 2
    ensures Tiles(bs[1..], bs[1].at, hi, header) && NoTwins(bs[1..])
  {
    Rising(bs, lo, hi, header);
    var cs := bs[1..];
    assert forall k :: 0 <= k < |cs| ==> cs[k] == bs[k + 1];
    forall k ensures NotTwins(cs, k) {
      if k >= 0 { assert NotTwins(bs, k + 1); }
    }
  }

  lemma TailLive(bs: seq<Block>, header: nat)
    requires |bs| > 2 && Alone(bs, 0)
    ensures Live(bs[1..], header) == Live(bs, header) - {RangeOf(bs, 0, header)}
  {
    var cs := bs[1..];
    var r := RangeOf(bs, 0, header);
    forall x ensures x in Live(cs, header) <==> x != r && x in Live(bs, header) {
      if x in Live(cs, header) {
        var k :| 0 <= k < |cs| - 1 && cs[k].used && x == RangeOf(cs, k, header);
        assert x == RangeOf(bs, k + 1, header);
      }
      if x in Live(bs, header) && x != r {
        var k :| 0 <= k < |bs| - 1 && bs[k].used && x == RangeOf(bs, k, header);
        assert x == RangeOf(cs, k - 1, header);
      }
    }
  }

  /** The first payload in use tells where the first block ends. */
  lemma FirstEnd(bs: seq<Block>, cs: seq<Block>, lo: nat, hi: nat, header: nat)
    requires Tiles(bs, lo, hi, header) && NoTwins(bs) && Tiles(cs, lo, hi, header) && NoTwins(cs)
    requires Live(bs, header) == Live(cs, header) && header > 0
    ensures bs[0] == cs[0] && cs[1].at <= bs[1].at
  {
    Rising(cs, lo, hi, header);
    Rising(bs, lo, hi, header);
    assert bs[0].used ==> RangeOf(bs, 0, header) in Live(cs, header);
    assert cs[0].used ==> RangeOf(cs, 0, header) in Live(bs, header);
    assert bs[0].used == cs[0].used;
    assert NotTwins(bs, 0) && NotTwins(cs, 0);
    if !bs[0].used {
      assert bs[1].used;
      if |bs| > 2 {
        assert RangeOf(bs, 1, header) in Live(cs, header);
        var k :| 0 <= k < |cs| - 1 && cs[k].used && cs[k].at == bs[1].at;
        assert k > 0;
      }
    }
  }

  /** A tiling without free neighbours is determined by its payloads in use. */
  lemma {:induction false} Canonical(bs: seq<Block>, cs: seq<Block>, lo: nat, hi: nat, header: nat)
    requires Tiles(bs, lo, hi, header) && NoTwins(bs) && Tiles(cs, lo, hi, header) && NoTwins(cs)
    requires Live(bs, header) == Live(cs, header) && header > 0
    ensures bs == cs
  {
    Rising(cs, lo, hi, header);
    Rising(bs, lo, hi, header);
    FirstEnd(bs, cs, lo, hi, header);
    FirstEnd(cs, bs, lo, hi, header);
    if |bs| > 2 && |cs| > 2 {
      TailShape(bs, lo, hi, header);
      TailLive(bs, header);
      TailShape(cs, lo, hi, header);
      TailLive(cs, header);
      Canonical(bs[1..], cs[1..], bs[1].at, hi, header);
      assert bs == [bs[0]] + bs[1..] && cs == [cs[0]] + cs[1..];
    } else {
      assert bs[1].at + header <= bs[|bs| - 1].at || |bs| == 2;
      assert cs[1].at + header <= cs[|cs| - 1].at || |cs| == 2;
      assert bs == [bs[0], bs[1]] && cs == [cs[0], cs[1]];
    }
  }

  // ----- the free blocks, by address -----

  ghost function AddrOf(bs: seq<Block>, i: int): nat
    requires 0 <= i < |bs|
  {
    bs[i].at
  }

  ghost function FreeAddrs(bs: seq<Block>): set<nat> {
    set i {:trigger AddrOf(bs, i)} | 0 <= i < |bs| && !bs[i].used :: AddrOf(bs, i)
  }

  lemma MarkAddrs(bs: seq<Block>, i: nat, used: bool)
    requires i < |bs| && Alone(bs, i)
    ensures FreeAddrs(Mark(bs, i, used)) == if used then FreeAddrs(bs) - {bs[i].at} else FreeAddrs(bs) + {bs[i].at}
  {
    var cs := Mark(bs, i, used);
    forall a ensures a in FreeAddrs(cs) <==> if a == bs[i].at then !used else a in FreeAddrs(bs) {
      if a in FreeAddrs(cs) {
        var k :| 0 <= k < |cs| && !cs[k].used && a == AddrOf(cs, k);
        assert k != i ==> a == AddrOf(bs, k);
      }
      if a in FreeAddrs(bs) && a != bs[i].at {
        var k :| 0 <= k < |bs| && !bs[k].used && a == AddrOf(bs, k);
        assert a == AddrOf(cs, k);
      }
      if a == bs[i].at && !used { assert a == AddrOf(cs, i); }
    }
  }

  lemma CutAddrs(bs: seq<Block>, i: nat, cut: nat)
    requires i < |bs|
    ensures FreeAddrs(Cut(bs, i, cut)) == FreeAddrs(bs) + {cut}
  {
    var cs := Cut(bs, i, cut);
    forall a ensures a in FreeAddrs(cs) <==> a in FreeAddrs(bs) || a == cut {
      if a in FreeAddrs(cs) {
        var k :| 0 <= k < |cs| && !cs[k].used && a == AddrOf(cs, k);
        if k <= i { assert a == AddrOf(bs, k); }
        if k > i + 1 { assert a == AddrOf(bs, k - 1); }
      }
      if a in FreeAddrs(bs) {
        var k :| 0 <= k < |bs| && !bs[k].used && a == AddrOf(bs, k);
        assert a == AddrOf(cs, if k <= i then k else k + 1);
      }
      if a == cut { assert a == AddrOf(cs, i + 1); }
    }
  }

  lemma DropAddrs(bs: seq<Block>, i: nat)
    requires i < |bs| && Alone(bs, i)
    ensures FreeAddrs(Drop(bs, i)) == FreeAddrs(bs) - {bs[i].at}
  {
    var cs := Drop(bs, i);
    forall a ensures a in FreeAddrs(cs) <==> a in FreeAddrs(bs) && a != bs[i].at {
      if a in FreeAddrs(cs) {
        var k :| 0 <= k < |cs| && !cs[k].used && a == AddrOf(cs, k);
        assert a == AddrOf(bs, if k < i then k else k + 1);
      }
      if a in FreeAddrs(bs) && a != bs[i].at {
        var k :| 0 <= k < |bs| && !bs[k].used && a == AddrOf(bs, k);
        assert a == AddrOf(cs, if k < i then k else k - 1);
      }
    }
  }

  // ----- contents of payloads -----

  /** The `len` bytes at `q` are those that were at `p`. */
  ghost predicate Carried<T>(c: seq<T>, d: seq<T>, p: nat, q: nat, len: nat) {
    p + len <= |c| && q + len <= |d| && d[q..q + len] == c[p..p + len]
  }

  lemma InLiveGrows(some: set<Range>, live: set<Range>)
    requires some <= live
    ensures forall o {:trigger InLive(some, o)} :: InLive(some, o) ==> InLive(live, o)
  {
  }

  lemma CarriedFrom<T>(c0: seq<T>, c1: seq<T>, c3: seq<T>, live: set<Range>, s: Range, q: nat, len: nat)
    requires |c0| == |c1| && s in live && s.lo + len <= s.hi <= |c0| && Carried(c1, c3, s.lo, q, len)
    requires forall o :: 0 <= o < |c0| && InLive(live, o) ==> c1[o] == c0[o]
    ensures Carried(c0, c3, s.lo, q, len)
  {
    forall k | s.lo <= k < s.lo + len ensures c1[k] == c0[k] {
      assert InLive(live, k);
    }
    assert c1[s.lo..s.lo + len] == c0[s.lo..s.lo + len];
  }

  /** Contents through copy and free: payload `t` gets the first bytes of `s`, the others keep theirs. */
  lemma HandOverContents<T>(c1: seq<T>, c2: seq<T>, c3: seq<T>, live: set<Range>, s: Range, t: Range, len: nat)
    requires |c1| == |c2| == |c3| && s in live && t in live && s != t
    requires s.lo + len <= s.hi <= |c1| && t.lo + len <= t.hi <= |c1|
    requires forall o :: t.lo <= o < t.lo + len ==> c2[o] == c1[s.lo + (o - t.lo)]
    requires forall o :: 0 <= o < |c1| && !(t.lo <= o < t.lo + len) ==> c2[o] == c1[o]
    requires forall o :: 0 <= o < |c1| && InLive(live - {s}, o) ==> c3[o] == c2[o]
    requires forall r :: r in live && r != t ==> r.hi <= t.lo || t.hi <= r.lo
    ensures Carried(c1, c3, s.lo, t.lo, len)
    ensures forall o :: 0 <= o < |c1| && InLive(live - {s} - {t}, o) ==> c3[o] == c1[o]
  {
    var kept := c3[t.lo..t.lo + len];
    forall k | 0 <= k < len ensures kept[k] == c1[s.lo..s.lo + len][k] {
      assert t in live - {s} && InLive(live - {s}, t.lo + k);
      assert c2[t.lo + k] == c1[s.lo + ((t.lo + k) - t.lo)];
    }
    forall o | 0 <= o < |c1| && InLive(live - {s} - {t}, o) ensures c3[o] == c1[o] {
      var r :| r in live - {s} - {t} && r.lo <= o < r.hi;
      assert r in live - {s} && InLive(live - {s}, o);
    }
  }

  /** Contents through shrinking in place. */
  lemma ShrunkContents<T>(c: seq<T>, d: seq<T>, live: set<Range>, s: Range, n: nat)
    requires |c| == |d| && s in live && s.lo + n <= s.hi <= |c|
    requires forall o :: 0 <= o < |c| && InLive(live - {s} + {Range(s.lo, s.lo + n)}, o) ==> d[o] == c[o]
    ensures Carried(c, d, s.lo, s.lo, n)
    ensures forall o :: 0 <= o < |c| && InLive(live - {s}, o) ==> d[o] == c[o]
  {
    var t := Range(s.lo, s.lo + n);
    forall o | s.lo <= o < s.lo + n ensures d[o] == c[o] {
      assert t in live - {s} + {t} && InLive(live - {s} + {t}, o);
    }
    assert d[s.lo..s.lo + n] == c[s.lo..s.lo + n];
    InLiveGrows(live - {s}, live - {s} + {t});
  }

  lemma NotInUse(live: set<Range>, t: Range)
    requires !InLive(live, t.lo) && t.lo < t.hi
    ensures t !in live
  {
    assert t in live ==> InLive(live, t.lo);
  }

  /** A payload in use is known by the address where it starts. */
  lemma OnePayload(bs: seq<Block>, lo: nat, hi: nat, header: nat, r: Range)
    requires Tiles(bs, lo, hi, header) && r in Live(bs, header) && header > 0
    ensures lo + header <= r.lo <= r.hi <= hi
    ensures forall s :: s in Live(bs, header) && s.lo == r.lo ==> s == r
  {
    var i :| 0 <= i < |bs| - 1 && bs[i].used && r == RangeOf(bs, i, header);
    StandsAlone(bs, i, lo, hi, header);
    assert Apart(bs, 0, i, header) && Apart(bs, i, i + 1, header) && Apart(bs, i + 1, |bs| - 1, header);
    forall s | s in Live(bs, header) && s.lo == r.lo ensures s == r {
      var k :| 0 <= k < |bs| - 1 && bs[k].used && s == RangeOf(bs, k, header);
    }
  }

  /** A payload that was not in use before meets none that was. */
  lemma NewApart(bs: seq<Block>, lo: nat, hi: nat, header: nat, live: set<Range>, t: Range)
    requires Tiles(bs, lo, hi, header) && Live(bs, header) == live + {t} && !InLive(live, t.lo) && t.lo < t.hi
    ensures forall r :: r in live ==> r.hi <= t.lo || t.hi <= r.lo
  {
    assert t in live ==> InLive(live, t.lo);
    forall r | r in live ensures r.hi <= t.lo || t.hi <= r.lo {
      LiveDisjoint(bs, lo, hi, header, r, t);
    }
  }

  /** Contents through growing in place. */
  lemma KeptContents<T>(c: seq<T>, d: seq<T>, live: set<Range>, s: Range, n: nat)
    requires |c| == |d| && s in live && s.lo + n <= s.hi <= |c|
    requires forall o :: 0 <= o < |c| && InLive(live, o) ==> d[o] == c[o]
    ensures Carried(c, d, s.lo, s.lo, n)
    ensures forall o :: 0 <= o < |c| && InLive(live - {s}, o) ==> d[o] == c[o]
  {
    forall o | s.lo <= o < s.lo + n ensures d[o] == c[o] {
      assert InLive(live, o);
    }
    assert d[s.lo..s.lo + n] == c[s.lo..s.lo + n];
    InLiveGrows(live - {s}, live);
  }

  /** Payload `s` holds the bytes it held. */
  ghost predicate Same<T>(c: seq<T>, d: seq<T>, s: Range) {
    |c| == |d| && forall o :: s.lo <= o < s.hi && o < |c| ==> d[o] == c[o]
  }

  /** Every payload in use but the one at `gone` is still in use and holds the bytes it held. */
  ghost predicate Intact<T>(live: set<Range>, now: set<Range>, c: seq<T>, d: seq<T>, gone: int) {
    forall s :: s in live && s.lo != gone ==> s in now && Same(c, d, s)
  }

  lemma IntactIf<T>(live: set<Range>, now: set<Range>, kept: set<Range>, c: seq<T>, d: seq<T>, gone: int)
    requires |c| == |d| && kept <= now && forall s :: s in live && s.lo != gone ==> s in kept
    requires forall o :: 0 <= o < |c| && InLive(kept, o) ==> d[o] == c[o]
    ensures Intact(live, now, c, d, gone)
  {
    forall s, o | s in kept && s.lo <= o < s.hi && o < |c| ensures d[o] == c[o] {
      assert InLive(kept, o);
    }
  }

  // ----- alignment -----

  ghost predicate Aligned(bs: seq<Block>) {
    forall i {:trigger AlignedAt(bs, i)} :: AlignedAt(bs, i)
  }

  ghost predicate AlignedAt(bs: seq<Block>, i: int) {
    0 <= i < |bs| ==> bs[i].at % ALIGN_SIZE == 0
  }

  lemma MarkAligned(bs: seq<Block>, i: nat, used: bool)
    requires Aligned(bs) && i < |bs|
    ensures Aligned(Mark(bs, i, used))
  {
    forall j ensures AlignedAt(Mark(bs, i, used), j) {
      assert AlignedAt(bs, j);
    }
  }

  lemma DropAligned(bs: seq<Block>, i: nat)
    requires Aligned(bs) && i < |bs|
    ensures Aligned(Drop(bs, i))
  {
    var cs := Drop(bs, i);
    forall j ensures AlignedAt(cs, j) {
      assert AlignedAt(bs, j) && AlignedAt(bs, j + 1);
      if 0 <= j < |cs| { assert cs[j] == bs[if j < i then j else j + 1]; }
    }
  }

  /** Every payload handed out starts on an aligned offset. */
  lemma PayloadAligned(bs: seq<Block>, header: nat, r: Range)
    requires Aligned(bs) && header % ALIGN_SIZE == 0 && r in Live(bs, header)
    ensures r.lo % ALIGN_SIZE == 0
  {
    var i :| 0 <= i < |bs| - 1 && bs[i].used && r == RangeOf(bs, i, header);
    assert AlignedAt(bs, i);
    AlignedSum(bs[i].at, header);
  }

  lemma CutAligned(bs: seq<Block>, i: nat, header: nat, n: nat)
    requires Aligned(bs) && i < |bs| && header % ALIGN_SIZE == 0 && n % ALIGN_SIZE == 0
    ensures (bs[i].at + header + n) % ALIGN_SIZE == 0
  {
    assert AlignedAt(bs, i);
    AlignedSum(bs[i].at, header);
    AlignedSum(bs[i].at + header, n);
  }

  lemma CutKeepsAligned(bs: seq<Block>, i: nat, cut: nat)
    requires Aligned(bs) && i < |bs| && cut % ALIGN_SIZE == 0
    ensures Aligned(Cut(bs, i, cut))
  {
    var cs := Cut(bs, i, cut);
    forall j ensures AlignedAt(cs, j) {
      assert AlignedAt(bs, j) && AlignedAt(bs, j - 1);
      if i + 1 < j < |cs| { assert cs[j] == bs[j - 1]; }
    }
  }

  lemma SplitAligned(bs: seq<Block>, i: nat, cut: nat)
    requires Aligned(bs) && i < |bs| && cut % ALIGN_SIZE == 0
    ensures Aligned(Split(bs, i, cut))
  {
    CutKeepsAligned(bs, i, cut);
    MarkAligned(Cut(bs, i, cut), i, true);
  }
}

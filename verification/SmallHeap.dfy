/** The first-fit heap of rt-thread/src/mem.c.

    Blocks are chained by offsets into one buffer.  `cells` is that buffer: a header is
    stored in the cell at its offset and covers `header` bytes, everything else is payload
    or stale.  A pointer is an offset from the start of the heap. */
module SmallHeap {
  import opened Blocks
  import opened Common
  import opened Objects

  const MIN_SIZE: nat := 12

  /** The address a pointer stands for; null is no address. */
  function AddressIn(ptr: Option<int>): int {
    if ptr.None? then -1 else ptr.value
  }

  datatype Cell = Raw(byte: bv8) | Pad | Head(used: bool, next: nat, prev: nat)

  /** What `rt_malloc` makes of a request: rounded up, and at least the minimum block. */
  function Rounded(size: nat): nat {
    if AlignUp(size) < MIN_SIZE then MIN_SIZE else AlignUp(size)
  }

  /** It is the least multiple of four that is large enough for the request and for the twelve bytes of a least
      block. */
  lemma RoundedLeast(size: nat, m: nat)
    ensures Rounded(size) >= size && Rounded(size) >= 12 && Rounded(size) % 4 == 0
    ensures m >= size && m >= 12 && m % 4 == 0 ==> Rounded(size) <= m
  {
    AlignUpFacts(size);
  }

  /** The scan bound is an unsigned 32-bit difference. */
  function ScanBound(capacity: nat, n: nat): nat {
    (capacity - n) % 0x1_0000_0000
  }

  /** A request the scan of `rt_malloc` is sure to finish. */
  predicate ScanEnds(capacity: nat, size: nat) {
    size == 0 || AlignUp(size) > capacity || capacity >= MIN_SIZE
  }

  /** Block `i` can serve a request of `n` bytes.  The scan stops strictly below `capacity - n`. */
  ghost predicate Fits(bs: seq<Block>, i: nat, n: nat, header: nat, capacity: nat)
    requires i < |bs|
  {
    i < |bs| - 1 && !bs[i].used && Size(bs, i, header) >= n && bs[i].at + n < capacity
  }

  /** The lowest block that can serve the request, looking from the bottom of the heap. */
  ghost function FirstFit(bs: seq<Block>, n: nat, header: nat, capacity: nat): (r: Option<nat>)
    ensures r.Some? ==> r.value < |bs| && Fits(bs, r.value, n, header, capacity)
    ensures r.Some? ==> forall j :: 0 <= j < r.value ==> !Fits(bs, j, n, header, capacity)
    ensures r.None? ==> forall j :: 0 <= j < |bs| ==> !Fits(bs, j, n, header, capacity)
  {
    FirstFitFrom(bs, 0, n, header, capacity)
  }

  ghost function FirstFitFrom(bs: seq<Block>, i: nat, n: nat, header: nat, capacity: nat): (r: Option<nat>)
    requires i <= |bs|
    ensures r.Some? ==> i <= r.value < |bs| && Fits(bs, r.value, n, header, capacity)
    ensures r.Some? ==> forall j :: i <= j < r.value ==> !Fits(bs, j, n, header, capacity)
    ensures r.None? ==> forall j :: i <= j < |bs| ==> !Fits(bs, j, n, header, capacity)
    decreases |bs| - i
  {
    if i == |bs| then None
    else if Fits(bs, i, n, header, capacity) then Some(i)
    else FirstFitFrom(bs, i + 1, n, header, capacity)
  }

  /** The header of block `i` says where the block ends, where its predecessor is, and whether it is used. */
  ghost predicate Node(c: seq<Cell>, bs: seq<Block>, i: nat, end: nat) {
    && i < |bs| && bs[i].at < |c|
    && c[bs[i].at].Head?
    && c[bs[i].at].used == bs[i].used
    && c[bs[i].at].next == (if i + 1 < |bs| then bs[i + 1].at else end)
    && (i < |bs| - 1 ==> c[bs[i].at].prev == if i == 0 then 0 else bs[i - 1].at)
  }

  /** The headers in the buffer spell out the block list. */
  ghost predicate Spells(c: seq<Cell>, bs: seq<Block>, end: nat) {
    forall i: nat {:trigger Node(c, bs, i, end)} :: i < |bs| ==> Node(c, bs, i, end)
  }

  /** The headers after a cut, from the headers before it and the cells that were written. */
  lemma CutSpells(c: seq<Cell>, d: seq<Cell>, bs: seq<Block>, i: nat, cut: nat, end: nat, header: nat)
    requires Spells(c, bs, end) && Tiles(bs, 0, end, header) && header > 0 && i < |bs| - 1 && |c| == |d|
    requires bs[i].at + header <= cut && cut + header <= bs[i + 1].at < |c|
    requires c[bs[i].at].Head? && c[bs[i + 1].at].Head?
    requires d[cut] == Head(false, bs[i + 1].at, bs[i].at)
    requires d[bs[i].at] == c[bs[i].at].(next := cut)
    requires d[bs[i + 1].at] == if bs[i + 1].at == end then c[end] else c[bs[i + 1].at].(prev := cut)
    requires forall o :: 0 <= o < |c| && o != bs[i].at && o != bs[i + 1].at && !(cut <= o < cut + header) ==>
               d[o] == c[o]
    ensures Spells(d, Cut(bs, i, cut), end)
  {
    Rising(bs, 0, end, header);
    var cs := Cut(bs, i, cut);
    forall k: nat | k < |cs| ensures Node(d, cs, k, end) {
      if k <= i {
        assert Node(c, bs, k, end);
      } else if k > i + 1 {
        assert Node(c, bs, k - 1, end) && cs[k] == bs[k - 1];
      }
    }
  }

  lemma MarkSpells(c: seq<Cell>, bs: seq<Block>, i: nat, used: bool, end: nat)
    requires Spells(c, bs, end) && i < |bs| - 1 && Alone(bs, i) && bs[i].at < |c| && c[bs[i].at].Head?
    ensures Spells(c[bs[i].at := c[bs[i].at].(used := used)], Mark(bs, i, used), end)
  {
    var d, cs := c[bs[i].at := c[bs[i].at].(used := used)], Mark(bs, i, used);
    forall k: nat | k < |cs| ensures Node(d, cs, k, end) {
      assert Node(c, bs, k, end);
    }
  }

  /** What a request asks of the free block that serves it. */
  ghost predicate Serves(bs: seq<Block>, i: nat, n: nat, end: nat, header: nat) {
    && Tiles(bs, 0, end, header) && NoTwins(bs) && Aligned(bs)
    && header > 0 && header % ALIGN_SIZE == 0 && n % ALIGN_SIZE == 0
    && i < |bs| - 1 && !bs[i].used && Size(bs, i, header) >= n
  }

  /** Carving keeps the list well formed and adds the new extent to the bytes in use. */
  lemma CarveBySplit(bs: seq<Block>, i: nat, n: nat, end: nat, header: nat)
    requires Serves(bs, i, n, end, header) && Size(bs, i, header) >= n + header + MIN_SIZE
    ensures var cut := bs[i].at + header + n; var cs := Split(bs, i, cut);
      && Tiles(cs, 0, end, header) && NoTwins(cs) && Aligned(cs)
      && Weigh(cs, true, 0) == Weigh(bs, true, 0) + n + header
      && Alone(Cut(bs, i, cut), i)
  {
    var cut := bs[i].at + header + n;
    CutShape(bs, i, cut, 0, end, header);
    MarkShape(Cut(bs, i, cut), i, true, 0, end, header);
    assert NotTwins(bs, i);
    SplitTwins(bs, i, cut);
    SplitWeight(bs, i, cut, true, 0);
    assert AlignedAt(bs, i);
    AlignedSum(bs[i].at, header);
    AlignedSum(bs[i].at + header, n);
    SplitAligned(bs, i, cut);
  }

  lemma CarveWhole(bs: seq<Block>, i: nat, n: nat, end: nat, header: nat)
    requires Serves(bs, i, n, end, header)
    ensures var cs := Mark(bs, i, true);
      && Tiles(cs, 0, end, header) && NoTwins(cs) && Aligned(cs)
      && Weigh(cs, true, 0) == Weigh(bs, true, 0) + Size(bs, i, header) + header
      && Alone(bs, i)
  {
    MarkShape(bs, i, true, 0, end, header);
    MarkTwins(bs, i);
    MarkWeight(bs, i, true, true, 0);
    MarkAligned(bs, i, true);
  }

  lemma CarveShape(bs: seq<Block>, i: nat, n: nat, end: nat, header: nat)
    requires Serves(bs, i, n, end, header)
    ensures var cs := Carve(bs, i, n, header, MIN_SIZE);
      && Tiles(cs, 0, end, header) && NoTwins(cs) && Aligned(cs)
      && Weigh(cs, true, 0) == Weigh(bs, true, 0) + cs[i + 1].at - cs[i].at
  {
    if Size(bs, i, header) >= n + header + MIN_SIZE {
      CarveBySplit(bs, i, n, end, header);
    } else {
      CarveWhole(bs, i, n, end, header);
    }
  }

  /** Taking block `i` moves the lowest free block only if it was that one. */
  lemma CarveLowest(bs: seq<Block>, i: nat, n: nat, end: nat, header: nat, cs: seq<Block>)
    requires Serves(bs, i, n, end, header) && cs == Carve(bs, i, n, header, MIN_SIZE)
    ensures cs[|cs| - 1].used && cs[i].at == bs[i].at
    ensures bs[FirstFree(bs)].at == bs[i].at ==> forall j :: 0 <= j < i ==> cs[j].used
    ensures bs[FirstFree(bs)].at != bs[i].at ==> cs[FirstFree(cs)].at == bs[FirstFree(bs)].at
  {
    var f := FirstFree(bs);
    assert Apart(bs, f, i, header);
    assert forall j :: 0 <= j < i ==> cs[j] == bs[j];
    if f < i { FirstFreeIs(cs, f); }
  }

  lemma DropSpells(c: seq<Cell>, bs: seq<Block>, i: nat, end: nat, header: nat)
    requires Spells(c, bs, end) && Tiles(bs, 0, end, header) && header > 0 && 0 < i < |bs| - 1
    ensures var left, right := bs[i - 1].at, bs[i + 1].at;
      && left < |c| && right < |c| && c[left].Head? && c[right].Head?
      && Spells(c[left := c[left].(next := right)][right := c[right].(prev := left)], Drop(bs, i), end)
  {
    StandsAlone(bs, i - 1, 0, end, header);
    StandsAlone(bs, i + 1, 0, end, header);
    assert Node(c, bs, i - 1, end) && Node(c, bs, i + 1, end);
    var left, right := bs[i - 1].at, bs[i + 1].at;
    var d := c[left := c[left].(next := right)][right := c[right].(prev := left)];
    var cs := Drop(bs, i);
    forall k: nat | k < |cs| ensures Node(d, cs, k, end) {
      if k < i {
        assert Node(c, bs, k, end);
      } else {
        assert Node(c, bs, k + 1, end) && cs[k] == bs[k + 1];
      }
    }
  }

  lemma CarveLive(bs: seq<Block>, i: nat, n: nat, end: nat, header: nat, cs: seq<Block>, p: nat)
    requires Serves(bs, i, n, end, header) && cs == Carve(bs, i, n, header, MIN_SIZE) && p == bs[i].at + header
    ensures exists e: nat :: n <= e - p < n + header + 12 && Live(cs, header) == Live(bs, header) + {Range(p, e)}
    ensures !InLive(Live(bs, header), p) && n + header <= end && cs[i + 1].at >= p + n
  {
    assert Apart(bs, i, i + 1, header) && Apart(bs, i + 1, |bs| - 1, header) && Apart(bs, 0, i, header);
    StandsAlone(bs, i, 0, end, header);
    var r := RangeOf(bs, i, header);
    forall k | 0 <= k < |bs| - 1 && bs[k].used ensures RangeOf(bs, k, header) != r {}
    if Size(bs, i, header) >= n + header + MIN_SIZE {
      SplitLive(bs, i, bs[i].at + header + n, header);
    } else {
      MarkLive(bs, i, true, header);
    }
    forall s | s in Live(bs, header) ensures !(s.lo <= bs[i].at + header < s.hi) {
      if Size(bs, i, header) > 0 { ExtentNotLive(bs, 0, end, header, i, bs[i].at + header, s); }
      else { HeaderNotLive(bs, 0, end, header, i + 1, bs[i + 1].at); }
    }
    assert Live(cs, header) == Live(bs, header) + {Range(p, cs[i + 1].at)};
  }

  /** A request is refused exactly when no free block is large enough, other than one of just the
      rounded size at the very end of the heap. */
  lemma RefusedWhen(bs: seq<Block>, n: nat, header: nat, capacity: nat)
    requires Tiles(bs, 0, capacity + header, header) && header > 0
    ensures FirstFit(bs, n, header, capacity).None? <==>
      forall j :: 0 <= j < |bs| - 1 && !bs[j].used && Size(bs, j, header) >= n ==>
        j == |bs| - 2 && Size(bs, j, header) == n
  {
    forall j | 0 <= j < |bs| - 1 && !bs[j].used && Size(bs, j, header) >= n
      ensures Fits(bs, j, n, header, capacity) <==> !(j == |bs| - 2 && Size(bs, j, header) == n)
    {
      assert Apart(bs, j + 1, |bs| - 1, header);
    }
    if FirstFit(bs, n, header, capacity).Some? {
      var j := FirstFit(bs, n, header, capacity).value;
      assert !(j == |bs| - 2 && Size(bs, j, header) == n);
    }
  }

  /** Where the scan stands after `k` turns. */
  ghost function Hop(c: seq<Cell>, ptr: nat, k: nat): nat {
    if k == 0 then ptr
    else var p := Hop(c, ptr, k - 1); if p < |c| && c[p].Head? then c[p].next else p
  }

  /** On a heap too small for the minimum block the bound wraps around, so the scan goes on for ever:
      every turn stays below the bound and no turn finds a fitting block. */
  lemma {:induction false} ScanNeverEnds(c: seq<Cell>, bs: seq<Block>, capacity: nat, header: nat, size: nat, i: nat,
                                         k: nat)
    requires Spells(c, bs, capacity + header) && Tiles(bs, 0, capacity + header, header) && i < |bs|
    requires !ScanEnds(capacity, size) && 0 < header < 0x1000
    ensures var ptr := Hop(c, bs[i].at, k);
      && ptr < ScanBound(capacity, Rounded(size)) && ptr < |c| && c[ptr].Head?
      && (c[ptr].used || c[ptr].next - (ptr + header) < Rounded(size))
    ensures exists j :: 0 <= j < |bs| && Hop(c, bs[i].at, k) == bs[j].at
  {
    assert Rounded(size) == MIN_SIZE && capacity <= MIN_SIZE;
    var j: nat := i;
    if k > 0 {
      ScanNeverEnds(c, bs, capacity, header, size, i, k - 1);
      j :| 0 <= j < |bs| && Hop(c, bs[i].at, k - 1) == bs[j].at;
      assert Node(c, bs, j, capacity + header);
      j := if j + 1 < |bs| then j + 1 else j;
    }
    assert Hop(c, bs[i].at, k) == bs[j].at;
    assert Node(c, bs, j, capacity + header);
    assert Apart(bs, j, |bs| - 1, header) && Apart(bs, j, j + 1, header) && Apart(bs, j + 1, |bs| - 1, header);
    assert bs[j].at <= capacity + header;
  }

  /** Neither the extent of a free block nor the header behind it meets a payload in use. */
  lemma TakenApart(bs: seq<Block>, i: nat, end: nat, header: nat)
    requires Tiles(bs, 0, end, header) && i < |bs| - 1 && !bs[i].used && header > 0
    ensures forall o {:trigger InLive(Live(bs, header), o)} :: InLive(Live(bs, header), o) ==>
              !(bs[i].at <= o <= bs[i + 1].at)
  {
    forall o | InLive(Live(bs, header), o) ensures !(bs[i].at <= o <= bs[i + 1].at) {
      var r :| r in Live(bs, header) && r.lo <= o < r.hi;
      if bs[i].at <= o < bs[i + 1].at { ExtentNotLive(bs, 0, end, header, i, o, r); }
      if o == bs[i + 1].at { HeaderNotLive(bs, 0, end, header, i + 1, o); }
    }
  }

  /** Freeing block `i`, before its neighbours are looked at. */
  lemma FreeFacts(bs: seq<Block>, i: nat, end: nat, header: nat)
    requires Tiles(bs, 0, end, header) && NoTwins(bs) && Aligned(bs) && i < |bs| - 1 && bs[i].used && header > 0
    ensures var cs := Mark(bs, i, false);
      && Tiles(cs, 0, end, header) && Aligned(cs) && TwinsOnlyAt(cs, i) && Alone(bs, i)
      && Weigh(cs, true, 0) == Weigh(bs, true, 0) - Size(bs, i, header) - header
      && Live(cs, header) == Live(bs, header) - {RangeOf(bs, i, header)}
      && cs[FirstFree(cs)].at == if bs[i].at < bs[FirstFree(bs)].at then bs[i].at else bs[FirstFree(bs)].at
  {
    var cs := Mark(bs, i, false);
    var f := FirstFree(bs);
    StandsAlone(bs, i, 0, end, header);
    MarkShape(bs, i, false, 0, end, header);
    MarkLive(bs, i, false, header);
    MarkWeight(bs, i, false, true, 0);
    MarkAligned(bs, i, false);
    forall k | k != i && k != i - 1 ensures NotTwins(cs, k) {
      assert NotTwins(bs, k);
    }
    assert Apart(bs, i, f, header) && Apart(bs, f, i, header);
    FirstFreeIs(cs, if i < f then i else f);
  }

  /** Cutting the tail off used block `i`, before the tail's neighbour is looked at. */
  lemma ShrinkFacts(bs: seq<Block>, i: nat, cut: nat, end: nat, header: nat)
    requires Tiles(bs, 0, end, header) && NoTwins(bs) && Aligned(bs) && i < |bs| - 1 && bs[i].used && header > 0
    requires bs[i].at + header <= cut && cut + header <= bs[i + 1].at && cut % ALIGN_SIZE == 0
    ensures var cs := Cut(bs, i, cut);
      && Tiles(cs, 0, end, header) && Aligned(cs) && TwinsOnlyAt(cs, i + 1)
      && Weigh(cs, true, 0) == Weigh(bs, true, 0) - (bs[i + 1].at - cut)
      && Live(cs, header) == Live(bs, header) - {RangeOf(bs, i, header)} + {Range(bs[i].at + header, cut)}
      && cs[FirstFree(cs)].at == if cut < bs[FirstFree(bs)].at then cut else bs[FirstFree(bs)].at
  {
    var cs := Cut(bs, i, cut);
    var f := FirstFree(bs);
    assert cs == Split(bs, i, cut);
    StandsAlone(bs, i, 0, end, header);
    CutShape(bs, i, cut, 0, end, header);
    SplitLive(bs, i, cut, header);
    SplitWeight(bs, i, cut, true, 0);
    SplitAligned(bs, i, cut);
    forall k | k != i + 1 && k != i ensures NotTwins(cs, k) {
      assert NotTwins(bs, k) && NotTwins(bs, k - 1);
      if i + 1 < k < |cs| - 1 { assert cs[k] == bs[k - 1] && cs[k + 1] == bs[k]; }
    }
    assert forall j :: 0 <= j <= i ==> cs[j] == bs[j];
    assert Apart(bs, i + 1, f, header) && Apart(bs, f, i, header);
    FirstFreeIs(cs, if i < f then i + 1 else f);
  }

  /** Writes that miss every header leave the list as it is. */
  lemma SpellsKept(c: seq<Cell>, d: seq<Cell>, bs: seq<Block>, end: nat)
    requires Spells(c, bs, end) && |c| == |d|
    requires forall i :: 0 <= i < |bs| && bs[i].at < |c| ==> d[bs[i].at] == c[bs[i].at]
    ensures Spells(d, bs, end)
  {
    forall k: nat | k < |bs| ensures Node(d, bs, k, end) {
      assert Node(c, bs, k, end);
    }
  }

  lemma OutsideLive(bs: seq<Block>, end: nat, header: nat, v: int)
    requires Tiles(bs, 0, end, header) && (v < 0 || v >= end) && header > 0
    requires forall r :: r in Live(bs, header) ==> r.lo < r.hi
    ensures forall r :: r in Live(bs, header) ==> r.lo != v
  {
    forall r | r in Live(bs, header) ensures r.lo != v {
      var i :| 0 <= i < |bs| - 1 && bs[i].used && r == RangeOf(bs, i, header);
      assert Apart(bs, i, i + 1, header) && Apart(bs, i + 1, |bs| - 1, header);
    }
  }

  /** No payload in use is empty, and a heap below the minimum block has none. */
  ghost predicate Proper(live: set<Range>, capacity: nat) {
    && (forall r :: r in live ==> r.lo < r.hi)
    && (capacity < MIN_SIZE ==> live == {})
  }

  lemma HeadersMissed(bs: seq<Block>, end: nat, header: nat)
    requires Tiles(bs, 0, end, header) && header > 0
    ensures forall i :: 0 <= i < |bs| ==> !InLive(Live(bs, header), bs[i].at)
  {
    forall i | 0 <= i < |bs| ensures !InLive(Live(bs, header), bs[i].at) {
      HeaderNotLive(bs, 0, end, header, i, bs[i].at);
    }
  }

  lemma HeaderSpanMissed(bs: seq<Block>, end: nat, header: nat, i: nat, p: nat)
    requires Tiles(bs, 0, end, header) && i < |bs| && bs[i].at == p
    ensures forall o {:trigger InLive(Live(bs, header), o)} :: p <= o < p + header ==> !InLive(Live(bs, header), o)
  {
    forall o | p <= o < p + header ensures !InLive(Live(bs, header), o) {
      HeaderNotLive(bs, 0, end, header, i, o);
    }
  }

  /** One free block and the end marker. */
  lemma Untouched(header: nat, capacity: nat)
    requires header > 0 && header % ALIGN_SIZE == 0 && capacity % ALIGN_SIZE == 0
    ensures var bs := [Block(0, false), Block(capacity + header, true)];
      && Tiles(bs, 0, capacity + header, header) && NoTwins(bs) && Aligned(bs) && FirstFree(bs) == 0
      && Live(bs, header) == {} && Weigh(bs, true, 0) == 0
  {
    var bs := [Block(0, false), Block(capacity + header, true)];
    FirstFreeIs(bs, 0);
    AlignedSum(capacity, header);
    assert WeighTo(bs, 1, true, 0) == WeighTo(bs, 0, true, 0) + Weight1(bs[0], bs[1], true, 0);
  }

  class Heap {
    const header: nat
    const capacity: nat
    const cells: array<Cell>
    var lfree: int
    var usedMem: int
    var maxMem: int
    ghost var blocks: seq<Block>

    /** The offset of the end marker. */
    ghost function End(): nat { capacity + header }

    ghost predicate Linked()
      reads this, cells
    {
      cells.Length == End() + header && Spells(cells[..], blocks, End())
    }

    /** Everything but the absence of free neighbours. */
    ghost predicate Shaped()
      reads this, cells
    {
      && header > 0 && header % ALIGN_SIZE == 0 && capacity % ALIGN_SIZE == 0 && capacity < 0x1_0000_0000
      && Tiles(blocks, 0, End(), header) && Aligned(blocks) && Linked()
      && lfree == blocks[FirstFree(blocks)].at
      && usedMem == Weigh(blocks, true, 0) <= maxMem
      && Proper(Payloads(), capacity)
    }

    ghost predicate Valid()
      reads this, cells
    {
      Shaped() && NoTwins(blocks)
    }

    ghost function Payloads(): set<Range>
      reads this
    {
      Live(blocks, header)
    }

    constructor (header: nat, capacity: nat)
      requires header > 0 && header % ALIGN_SIZE == 0 && capacity % ALIGN_SIZE == 0 && capacity < 0x1_0000_0000
      ensures Valid() && this.header == header && this.capacity == capacity
      ensures Payloads() == {} && usedMem == 0 && fresh(cells)
    {
      this.header := header;
      this.capacity := capacity;
      cells := new Cell[capacity + 2 * header](_ => Pad);
      lfree := 0;
      usedMem, maxMem := 0, 0;
      blocks := [Block(0, false), Block(capacity + header, true)];
      new;
      cells[0] := Head(false, capacity + header, 0);
      cells[capacity + header] := Head(true, capacity + header, capacity + header);
      Untouched(header, capacity);
      assert Node(cells[..], blocks, 0, End()) && Node(cells[..], blocks, 1, End());
    }

    /** Start a free block at `ptr2`, inside the block at `ptr`. */
    method CutBlock(ptr: nat, ptr2: nat, ghost i: nat)
      requires Linked() && Tiles(blocks, 0, End(), header) && header > 0
      requires i < |blocks| - 1 && ptr == blocks[i].at
      requires ptr + header <= ptr2 && ptr2 + header <= blocks[i + 1].at
      modifies this`blocks, cells
      ensures Linked() && blocks == Cut(old(blocks), i, ptr2)
      ensures forall o ::
                0 <= o < cells.Length && o != ptr && !(ptr2 <= o < ptr2 + header) && o != old(blocks)[i + 1].at
                ==> cells[o] == old(cells[o])
    {
      assert Node(cells[..], blocks, i, End()) && Node(cells[..], blocks, i + 1, End());
      ghost var c := cells[..];
      var mem := cells[ptr];
      forall o | ptr2 < o < ptr2 + header { cells[o] := Pad; }
      cells[ptr2] := Head(false, mem.next, ptr);
      cells[ptr] := cells[ptr].(next := ptr2);
      if mem.next != capacity + header {
        cells[mem.next] := cells[mem.next].(prev := ptr2);
      }
      CutSpells(c, cells[..], blocks, i, ptr2, End(), header);
      blocks := Cut(blocks, i, ptr2);
    }

    /** Move `lfree`, which stands on a block just taken, up to the next free one. */
    method AdvanceFree(ghost i: nat)
      requires Linked() && Tiles(blocks, 0, End(), header) && header > 0
      requires i < |blocks| && lfree == blocks[i].at && forall j :: 0 <= j < i ==> blocks[j].used
      modifies this`lfree
      ensures lfree == blocks[FirstFree(blocks)].at
    {
      ghost var k: nat := i;
      assert Node(cells[..], blocks, i, End());
      while cells[lfree].used && lfree != capacity + header
        invariant k < |blocks| && lfree == blocks[k].at && Node(cells[..], blocks, k, End())
        invariant forall j :: 0 <= j < k ==> blocks[j].used
        decreases |blocks| - k
      {
        lfree := cells[lfree].next;
        k := k + 1;
        assert Node(cells[..], blocks, k, End());
      }
      Rising(blocks, 0, End(), header);
      FirstFreeIs(blocks, k);
    }

    method SetUsed(ptr: nat, used: bool, ghost i: nat)
      requires Linked() && i < |blocks| - 1 && ptr == blocks[i].at && Alone(blocks, i)
      modifies this`blocks, cells
      ensures Linked() && blocks == Mark(old(blocks), i, used)
      ensures forall o :: 0 <= o < cells.Length && o != ptr ==> cells[o] == old(cells[o])
    {
      assert Node(cells[..], blocks, i, End());
      MarkSpells(cells[..], blocks, i, used, End());
      cells[ptr] := cells[ptr].(used := used);
      assert cells[..] == old(cells[..])[ptr := cells[ptr]];
      blocks := Mark(blocks, i, used);
    }

    /** Make block `i` used, splitting off what the request leaves over. */
    method CarveBlock(ptr: nat, n: nat, ghost i: nat)
      requires Linked() && Serves(blocks, i, n, End(), header) && ptr == blocks[i].at
      modifies this`usedMem, this`blocks, cells
      ensures Linked() && blocks == Carve(old(blocks), i, n, header, MIN_SIZE)
      ensures usedMem == old(usedMem) + blocks[i + 1].at - blocks[i].at
      ensures forall o :: 0 <= o < cells.Length && !(ptr <= o <= old(blocks)[i + 1].at) ==> cells[o] == old(cells[o])
    {
      assert Node(cells[..], blocks, i, End());
      assert Apart(blocks, i, i + 1, header);
      var size := cells[ptr].next - (ptr + header);
      if size >= n + header + MIN_SIZE {
        CarveBySplit(blocks, i, n, End(), header);
        CutBlock(ptr, ptr + header + n, i);
        usedMem := usedMem + n + header;
      } else {
        CarveWhole(blocks, i, n, End(), header);
        usedMem := usedMem + size + header;
      }
      SetUsed(ptr, true, i);
    }

    /** `rt_malloc` from the point where a fitting block has been found. */
    method TakeBlock(ptr: nat, n: nat, ghost i: nat)
      requires Valid() && i < |blocks| - 1 && ptr == blocks[i].at && !blocks[i].used
      requires n >= MIN_SIZE && n % ALIGN_SIZE == 0 && Size(blocks, i, header) >= n
      modifies this`lfree, this`usedMem, this`maxMem, this`blocks, cells
      ensures Valid() && Served(old(blocks), i, n, ptr + header)
      ensures forall o :: 0 <= o < cells.Length && !(ptr <= o <= old(blocks)[i + 1].at) ==> cells[o] == old(cells[o])
    {
      CarveShape(blocks, i, n, End(), header);
      CarveBlock(ptr, n, i);
      CarveLive(old(blocks), i, n, End(), header, blocks, ptr + header);
      CarveLowest(old(blocks), i, n, End(), header, blocks);
      if maxMem < usedMem {
        maxMem := usedMem;
      }
      if ptr == lfree {
        AdvanceFree(i);
      }
    }

    /** The two writes by which the block at `left` swallows its free right neighbour, block `i`. */
    method Absorb(left: nat, mid: nat, ghost i: nat)
      requires Shaped() && 0 < i < |blocks| - 1 && left == blocks[i - 1].at && mid == blocks[i].at
      requires !blocks[i - 1].used && !blocks[i].used
      modifies this`blocks, cells
      ensures Shaped() && blocks == Drop(old(blocks), i) && Payloads() == old(Payloads())
      ensures forall o :: 0 <= o < cells.Length && InLive(old(Payloads()), o) ==> cells[o] == old(cells[o])
    {
      assert Apart(blocks, i - 1, i + 1, header);
      assert Node(cells[..], blocks, i - 1, End()) && Node(cells[..], blocks, i, End());
      DropSpells(cells[..], blocks, i, End(), header);
      DropKeeps(blocks, i, 0, End(), header);
      DropAligned(blocks, i);
      HeaderNotLive(blocks, 0, End(), header, i - 1, left);
      HeaderNotLive(blocks, 0, End(), header, i + 1, blocks[i + 1].at);
      var right := cells[mid].next;
      cells[left] := cells[left].(next := right);
      cells[right] := cells[right].(prev := left);
      ghost var c := old(cells[..]);
      assert cells[..] == c[left := c[left].(next := right)][right := c[right].(prev := left)];
      blocks := Drop(blocks, i);
    }

    /** `plug_holes`: merge the block at `mem`, just freed, with free neighbours. */
    method PlugHoles(mem: nat, ghost i: nat)
      requires Shaped() && i < |blocks| - 1 && mem == blocks[i].at && !blocks[i].used && TwinsOnlyAt(blocks, i)
      modifies this`lfree, this`blocks, cells
      ensures Valid() && blocks == Plug(old(blocks), i) && Payloads() == old(Payloads())
      ensures forall o :: 0 <= o < cells.Length && InLive(old(Payloads()), o) ==> cells[o] == old(cells[o])
    {
      assert Node(cells[..], blocks, i, End()) && Node(cells[..], blocks, i + 1, End());
      assert Apart(blocks, FirstFree(blocks), i, header) && Apart(blocks, i, i + 1, header) &&
             Apart(blocks, i + 1, |blocks| - 1, header);
      var nmem := cells[mem].next;
      if mem != nmem && !cells[nmem].used && nmem != capacity + header {
        lfree := if lfree == nmem then mem else lfree;
        PlugRight(blocks, i);
        Absorb(mem, nmem, i + 1);
      }
      assert blocks[i + 1].used;
      assert Node(cells[..], blocks, i, End());
      var pmem := cells[mem].prev;
      if i > 0 {
        assert Node(cells[..], blocks, i - 1, End()) && Apart(blocks, i - 1, i, header);
        assert Apart(blocks, FirstFree(blocks), i - 1, header);
      }
      if pmem != mem && !cells[pmem].used {
        lfree := if lfree == mem then pmem else lfree;
        PlugLeft(blocks, i);
        Absorb(pmem, mem, i);
      } else {
        NothingToPlug(blocks, i);
      }
    }

    /** The scan of `rt_malloc`: from `lfree` upward, which finds what a scan from the bottom would. */
    method Scan(n: nat) returns (r: Option<nat>)
      requires Valid() && n <= capacity
      ensures r.None? <==> FirstFit(blocks, n, header, capacity).None?
      ensures r.Some? ==> r.value == blocks[FirstFit(blocks, n, header, capacity).value].at
    {
      var ptr := lfree;
      ghost var i: nat := FirstFree(blocks);
      assert Node(cells[..], blocks, i, End());
      while ptr < ScanBound(capacity, n)
        invariant i < |blocks| && ptr == blocks[i].at && Node(cells[..], blocks, i, End())
        invariant forall j :: 0 <= j < i ==> !Fits(blocks, j, n, header, capacity)
        decreases |blocks| - i
      {
        var mem := cells[ptr];
        if !mem.used && mem.next - (ptr + header) >= n {
          assert Fits(blocks, i, n, header, capacity);
          return Some(ptr);
        }
        ptr := mem.next;
        i := i + 1;
        assert Node(cells[..], blocks, i, End());
      }
      forall j | i <= j < |blocks| ensures !Fits(blocks, j, n, header, capacity) {
        assert Apart(blocks, i, j, header);
      }
      return None;
    }

    /** `rt_malloc`, once the request has been rounded. */
    method MallocRounded(n: nat) returns (r: Option<nat>)
      requires Valid() && n % ALIGN_SIZE == 0 && MIN_SIZE <= n <= capacity
      modifies this`lfree, this`usedMem, this`maxMem, this`blocks, cells
      ensures Valid()
      ensures r.None? <==> FirstFit(old(blocks), n, header, capacity).None?
      ensures r.None? ==> blocks == old(blocks) && usedMem == old(usedMem) && cells[..] == old(cells[..])
      ensures r.Some? ==> Served(old(blocks), FirstFit(old(blocks), n, header, capacity).value, n, r.value)
      ensures forall o :: 0 <= o < cells.Length && InLive(old(Payloads()), o) ==> cells[o] == old(cells[o])
    {
      var ptr := Scan(n);
      if ptr.None? {
        return None;
      }
      ghost var bs := blocks;
      ghost var i := FirstFit(bs, n, header, capacity).value;
      TakenApart(bs, i, End(), header);
      TakeBlock(ptr.value, n, i);
      return Some(ptr.value + header);
    }

    /** `rt_malloc`. */
    method Malloc(size: nat) returns (r: Option<nat>)
      requires Valid() && ScanEnds(capacity, size)
      modifies this`lfree, this`usedMem, this`maxMem, this`blocks, cells
      ensures Valid()
      ensures r.None? <==>
                size == 0 || AlignUp(size) > capacity || FirstFit(old(blocks), Rounded(size), header, capacity).None?
      ensures r.None? ==> blocks == old(blocks) && usedMem == old(usedMem) && cells[..] == old(cells[..])
      ensures r.Some? ==>
                Served(old(blocks), FirstFit(old(blocks), Rounded(size), header, capacity).value, Rounded(size),
                       r.value)
      ensures forall o :: 0 <= o < cells.Length && InLive(old(Payloads()), o) ==> cells[o] == old(cells[o])
    {
      if size == 0 {
        return None;
      }
      var n := AlignUp(size);
      if n > capacity {
        return None;
      }
      if n < MIN_SIZE {
        n := MIN_SIZE;
      }
      r := MallocRounded(n);
    }

    /** Block `i` of the list `bs` served `n` bytes at `p`: nothing else changed owner. */
    ghost predicate Served(bs: seq<Block>, i: nat, n: nat, p: nat)
      reads this
    {
      && i < |bs| - 1 && p == bs[i].at + header
      && blocks == Carve(bs, i, n, header, MIN_SIZE)
      && !InLive(Live(bs, header), p)
      && exists e: nat :: n <= e - p < n + header + 12 && Live(blocks, header) == Live(bs, header) + {Range(p, e)}
    }

    /** What a caller may pass back: null, something outside the heap, or a payload in use. */
    ghost predicate Returnable(rmem: Option<int>)
      reads this
    {
      rmem.Some? && 0 <= rmem.value < End() ==> exists r :: r in Payloads() && r.lo == rmem.value
    }

    /** Release block `i`, whose payload is in use. */
    method FreeBlock(mem: nat, ghost i: nat)
      requires Valid() && i < |blocks| - 1 && blocks[i].used && mem == blocks[i].at
      modifies this`lfree, this`usedMem, this`blocks, cells
      ensures Valid() && Payloads() == old(Payloads()) - {RangeOf(old(blocks), i, header)}
      ensures blocks == Plug(Mark(old(blocks), i, false), i)
      ensures forall o :: 0 <= o < cells.Length && InLive(Payloads(), o) ==> cells[o] == old(cells[o])
    {
      FreeFacts(blocks, i, End(), header);
      SetUsed(mem, false, i);
      if mem < lfree {
        lfree := mem;
      }
      assert Node(cells[..], blocks, i, End());
      HeaderNotLive(blocks, 0, End(), header, i, mem);
      assert Apart(blocks, i, i + 1, header);
      usedMem := usedMem - (cells[mem].next - mem);
      PlugHoles(mem, i);
    }

    /** `rt_free`. */
    method Free(rmem: Option<int>)
      requires Valid() && Returnable(rmem)
      modifies this`lfree, this`usedMem, this`blocks, cells
      ensures Valid()
      ensures rmem.None? || rmem.value < 0 || rmem.value >= End() ==>
                blocks == old(blocks) && usedMem == old(usedMem) && cells[..] == old(cells[..])
      ensures forall r :: r in old(Payloads()) && rmem == Some(r.lo) ==> Payloads() == old(Payloads()) - {r}
      ensures forall o :: 0 <= o < cells.Length && InLive(Payloads(), o) ==> cells[o] == old(cells[o])
    {
      if rmem.None? {
        return;
      }
      if rmem.value < 0 || rmem.value >= capacity + header {
        OutsideLive(blocks, End(), header, rmem.value);
        return;
      }
      ghost var r :| r in Payloads() && r.lo == rmem.value;
      ghost var i :| 0 <= i < |blocks| - 1 && blocks[i].used && r == RangeOf(blocks, i, header);
      OnePayload(blocks, 0, End(), header, r);
      FreeBlock(rmem.value - header, i);
    }

    /** `rt_free`, as it looks to the owners of other payloads. */
    method FreeOther(rmem: Option<int>)
      requires Valid() && Returnable(rmem)
      modifies this`lfree, this`usedMem, this`blocks, cells
      ensures Valid() && forall r :: r in old(Payloads()) && rmem == Some(r.lo) ==> Payloads() == old(Payloads()) - {r}
      ensures Intact(old(Payloads()), Payloads(), old(cells[..]), cells[..], AddressIn(rmem))
    {
      ghost var live, c := Payloads(), cells[..];
      Free(rmem);
      assert forall r :: r in live && rmem != Some(r.lo) ==> r in Payloads();
      IntactIf(live, Payloads(), Payloads(), c, cells[..], AddressIn(rmem));
    }

    /** The caller writes one byte of a payload in use. */
    method Store(p: nat, value: Cell)
      requires Valid() && p < cells.Length && InLive(Payloads(), p)
      modifies cells
      ensures Valid() && cells[..] == old(cells[..])[p := value]
    {
      HeadersMissed(blocks, End(), header);
      SpellsKept(cells[..], cells[..][p := value], blocks, End());
      cells[p] := value;
      assert cells[..] == old(cells[..])[p := value];
    }

    /** `rt_memcpy` from payload `s` into payload `r`. */
    method Copy(ghost r: Range, ghost s: Range, dst: nat, src: nat, len: nat)
      requires Valid() && r in Payloads() && s in Payloads() && r != s
      requires dst == r.lo && dst + len <= r.hi && src == s.lo && src + len <= s.hi
      requires r.hi <= cells.Length && s.hi <= cells.Length
      modifies cells
      ensures Valid()
      ensures forall k :: dst <= k < dst + len ==> cells[k] == old(cells[src + (k - dst)])
      ensures forall k :: 0 <= k < cells.Length && !(dst <= k < dst + len) ==> cells[k] == old(cells[k])
    {
      LiveDisjoint(blocks, 0, End(), header, r, s);
      HeadersMissed(blocks, End(), header);
      forall k | dst <= k < dst + len {
        cells[k] := cells[src + (k - dst)];
      }
      forall i | 0 <= i < |blocks| && blocks[i].at < cells.Length
        ensures cells[blocks[i].at] == old(cells[blocks[i].at])
      {
        assert !InLive(Payloads(), blocks[i].at);
        assert !(r.lo <= blocks[i].at < r.hi);
      }
      SpellsKept(old(cells[..]), cells[..], blocks, End());
    }

    /** Cut used block `i` down to `n` payload bytes; the tail is free but not merged yet. */
    method CutTail(mem: nat, n: nat, ghost i: nat)
      requires Valid() && i < |blocks| - 1 && blocks[i].used && mem == blocks[i].at
      requires 0 < n && n % ALIGN_SIZE == 0 && n + header <= Size(blocks, i, header)
      modifies this`lfree, this`usedMem, this`blocks, cells
      ensures Shaped() && blocks == Cut(old(blocks), i, mem + header + n) && TwinsOnlyAt(blocks, i + 1)
      ensures Payloads() ==
                old(Payloads()) - {RangeOf(old(blocks), i, header)} + {Range(mem + header, mem + header + n)}
      ensures forall o :: 0 <= o < cells.Length && InLive(Payloads(), o) ==> cells[o] == old(cells[o])
    {
      var ptr2 := mem + header + n;
      ghost var ptr3 := blocks[i + 1].at;
      CutAligned(blocks, i, header, n);
      ShrinkFacts(blocks, i, ptr2, End(), header);
      assert Node(cells[..], blocks, i, End());
      var size := cells[mem].next - mem - header;
      usedMem := usedMem - (size - n);
      CutBlock(mem, ptr2, i);
      if ptr2 < lfree {
        lfree := ptr2;
      }
      HeaderNotLive(blocks, 0, End(), header, i, mem);
      HeaderSpanMissed(blocks, End(), header, i + 1, ptr2);
      HeaderNotLive(blocks, 0, End(), header, i + 2, ptr3);
    }

    /** `rt_realloc` when the block shrinks in place. */
    method ShrinkBlock(mem: nat, n: nat, ghost i: nat)
      requires Valid() && i < |blocks| - 1 && blocks[i].used && mem == blocks[i].at
      requires 0 < n && n % ALIGN_SIZE == 0 && n + header <= Size(blocks, i, header)
      modifies this`lfree, this`usedMem, this`blocks, cells
      ensures Valid()
      ensures Payloads() ==
                old(Payloads()) - {RangeOf(old(blocks), i, header)} + {Range(mem + header, mem + header + n)}
      ensures forall o :: 0 <= o < cells.Length && InLive(Payloads(), o) ==> cells[o] == old(cells[o])
    {
      CutTail(mem, n, i);
      PlugHoles(mem + header + n, i + 1);
    }

    /** `rt_realloc` has to move the payload. */
    ghost predicate Moves(s: Range, n: nat) {
      s.hi - s.lo != n && n + header + MIN_SIZE >= s.hi - s.lo
    }

    /** `rt_malloc` of an aligned size, naming the new payload. */
    method MallocApart(n: nat) returns (r: Option<nat>, ghost t: Range)
      requires Valid() && 0 < n <= capacity && n % ALIGN_SIZE == 0 && capacity >= MIN_SIZE
      modifies this`lfree, this`usedMem, this`maxMem, this`blocks, cells
      ensures Valid()
      ensures r.None? <==> FirstFit(old(blocks), Rounded(n), header, capacity).None?
      ensures r.None? ==> blocks == old(blocks) && usedMem == old(usedMem) && cells[..] == old(cells[..])
      ensures r.Some? ==> Payloads() == old(Payloads()) + {t} && t.lo == r.value && t.lo + n <= t.hi <= End()
      ensures r.Some? ==> t.hi < t.lo + Rounded(n) + header + 12
      ensures r.Some? ==> forall s :: s in old(Payloads()) ==> s.hi <= t.lo || t.hi <= s.lo
      ensures r.Some? ==> !InLive(old(Payloads()), r.value)
      ensures forall o :: 0 <= o < cells.Length && InLive(old(Payloads()), o) ==> cells[o] == old(cells[o])
    {
      AlignUpFixed(n);
      r := Malloc(n);
      t := Range(0, 0);
      if r.Some? {
        ghost var e: nat :|
          Rounded(n) <= e - r.value < Rounded(n) + header + 12 && Payloads() == old(Payloads()) + {Range(r.value, e)};
        t := Range(r.value, e);
        OnePayload(blocks, 0, End(), header, t);
        NewApart(blocks, 0, End(), header, old(Payloads()), t);
      }
    }

    /** Copy the first `len` bytes of payload `s` into payload `t`, then free `s`. */
    method HandOver(ghost t: Range, ghost s: Range, q: nat, p: nat, len: nat)
      requires Valid() && t in Payloads() && s in Payloads() && s != t && q == t.lo && p == s.lo
      requires q + len <= t.hi <= cells.Length && p + len <= s.hi <= cells.Length
      requires forall r :: r in Payloads() && r != t ==> r.hi <= t.lo || t.hi <= r.lo
      modifies this`lfree, this`usedMem, this`blocks, cells
      ensures Valid() && Payloads() == old(Payloads()) - {s}
      ensures Carried(old(cells[..]), cells[..], p, q, len)
      ensures forall o :: 0 <= o < cells.Length && InLive(old(Payloads()) - {s} - {t}, o) ==> cells[o] == old(cells[o])
    {
      Copy(t, s, q, p, len);
      ghost var c2 := cells[..];
      Free(Some(p));
      HandOverContents(old(cells[..]), c2, cells[..], old(Payloads()), s, t, len);
    }

    /** The new payload `t` takes over the first bytes of `s`; `live` and `c0` are from before the allocation. */
    method Relocate(q: nat, p: nat, len: nat, ghost t: Range, ghost s: Range, ghost live: set<Range>,
                    ghost c0: seq<Cell>)
      requires Valid() && Payloads() == live + {t} && s in live && s != t && q == t.lo && p == s.lo
      requires |c0| == cells.Length
      requires q + len <= t.hi <= cells.Length && p + len <= s.hi <= cells.Length && t !in live
      requires forall r :: r in live ==> r.hi <= t.lo || t.hi <= r.lo
      requires forall o :: 0 <= o < cells.Length && InLive(live, o) ==> cells[o] == c0[o]
      modifies this`lfree, this`usedMem, this`blocks, cells
      ensures Valid() && Payloads() == live - {s} + {t} && Carried(c0, cells[..], p, q, len)
      ensures forall o :: 0 <= o < cells.Length && InLive(live - {s}, o) ==> cells[o] == c0[o]
    {
      ghost var c1 := cells[..];
      InLiveGrows(live - {s}, live);
      HandOver(t, s, q, p, len);
      assert live + {t} - {s} - {t} == live - {s};
      assert Payloads() == live - {s} + {t};
      CarriedFrom(c0, c1, cells[..], live, s, q, len);
    }

    /** Allocate, copy and free: `rt_realloc` when the payload moves. */
    method MovePayload(p: nat, n: nat, size: nat, ghost s: Range) returns (r: Option<int>)
      requires Valid() && s in Payloads() && p == s.lo <= s.hi && Moves(s, n) && size == s.hi - s.lo
      requires s.hi <= cells.Length
      requires 0 < n <= capacity && n % ALIGN_SIZE == 0
      modifies this`lfree, this`usedMem, this`maxMem, this`blocks, cells
      ensures Valid()
      ensures r.None? <==> FirstFit(old(blocks), Rounded(n), header, capacity).None?
      ensures r.None? ==> blocks == old(blocks) && cells[..] == old(cells[..])
      ensures r.Some? ==> r.value >= 0 && Replaced(old(Payloads()), s, n, r.value) && !InLive(old(Payloads()), r.value)
      ensures r.Some? ==> Carried(old(cells[..]), cells[..], s.lo, r.value, Least(size, n))
      ensures forall o :: 0 <= o < cells.Length && InLive(old(Payloads()) - {s}, o) ==> cells[o] == old(cells[o])
    {
      InLiveGrows(Payloads() - {s}, Payloads());
      var m, t := MallocApart(n);
      if m.None? {
        return None;
      } else {
        Relocate(m.value, p, Least(size, n), t, s, old(Payloads()), old(cells[..]));
        assert t == Range(m.value, t.hi);
        return Some(m.value);
      }
    }

    /** Payload `s` gave way to one at `p`: of just `n` bytes if it stays in its place, and otherwise to a new one. */
    ghost predicate Replaced(live: set<Range>, s: Range, n: nat, p: nat)
      reads this, cells
    {
      exists e: nat ::
        && n <= e - p && (if Moves(s, n) then e < p + Rounded(n) + header + 12 else e == p + n)
        && e <= cells.Length && Payloads() == live - {s} + {Range(p, e)}
    }

    /** A payload of the size asked for stays as it is. */
    lemma KeepLive(p: nat, n: nat, s: Range)
      requires Valid() && s in Payloads() && s == Range(p, p + n) && 0 < n <= capacity && p + n <= cells.Length
      ensures Resized(blocks, Payloads(), cells[..], s, n, Some(p))
    {
      assert Payloads() == Payloads() - {s} + {Range(p, p + n)};
      InLiveGrows(Payloads() - {s}, Payloads());
    }

    method MoveLive(p: nat, n: nat, size: nat, ghost s: Range) returns (r: Option<int>)
      requires Valid() && s in Payloads() && p == s.lo <= s.hi && Moves(s, n) && size == s.hi - s.lo
      requires s.hi <= cells.Length
      requires 0 < n <= capacity && n % ALIGN_SIZE == 0
      modifies this`lfree, this`usedMem, this`maxMem, this`blocks, cells
      ensures Valid() && Resized(old(blocks), old(Payloads()), old(cells[..]), s, n, r)
    {
      r := MovePayload(p, n, size, s);
    }

    /** `rt_realloc` of a payload in use, once the size has been rounded. */
    method ReallocLive(p: nat, n: nat, ghost s: Range) returns (r: Option<int>)
      requires Valid() && s in Payloads() && p == s.lo <= s.hi && 0 < n <= capacity && n % ALIGN_SIZE == 0
      modifies this`lfree, this`usedMem, this`maxMem, this`blocks, cells
      ensures Valid() && Resized(old(blocks), old(Payloads()), old(cells[..]), s, n, r)
    {
      OnePayload(blocks, 0, End(), header, s);
      ghost var i :| 0 <= i < |blocks| - 1 && blocks[i].used && s == RangeOf(blocks, i, header);
      assert Node(cells[..], blocks, i, End());
      var mem := p - header;
      var size := cells[mem].next - mem - header;
      if size == n {
        KeepLive(p, n, s);
        return Some(p);
      }
      if n + header + MIN_SIZE < size {
        ShrinkLive(p, n, i, s);
        return Some(p);
      }
      r := MoveLive(p, n, size, s);
    }

    method ShrinkLive(p: nat, n: nat, ghost i: nat, ghost s: Range)
      requires Valid() && i < |blocks| - 1 && blocks[i].used && s == RangeOf(blocks, i, header) && p == s.lo
      requires 0 < n && n % ALIGN_SIZE == 0 && n + header + MIN_SIZE < s.hi - s.lo && s.hi <= cells.Length
      modifies this`lfree, this`usedMem, this`blocks, cells
      ensures Valid() && Resized(old(blocks), old(Payloads()), old(cells[..]), s, n, Some(p))
    {
      assert s in Payloads();
      ShrinkBlock(p - header, n, i);
      ShrunkContents(old(cells[..]), cells[..], old(Payloads()), s, n);
      assert Payloads() == old(Payloads()) - {s} + {Range(p, p + n)};
    }

    /** `rt_realloc`, once the size has been rounded. */
    method ReallocRounded(rmem: Option<int>, n: nat) returns (r: Option<int>)
      requires Valid() && Returnable(rmem) && n % ALIGN_SIZE == 0
      requires (rmem.None? && 0 < n <= capacity ==> capacity >= MIN_SIZE)
      modifies this`lfree, this`usedMem, this`maxMem, this`blocks, cells
      ensures Valid()
      ensures n > capacity ==> r.None? && blocks == old(blocks) && cells[..] == old(cells[..])
      ensures n == 0 ==>
                r.None? && forall s :: s in old(Payloads()) && rmem == Some(s.lo) ==>
                  Payloads() == old(Payloads()) - {s}
      ensures rmem.Some? && 0 < n <= capacity && (rmem.value < 0 || rmem.value >= End()) ==>
                r == rmem && blocks == old(blocks) && cells[..] == old(cells[..])
      ensures rmem.None? && 0 < n <= capacity ==>
                (r.None? <==> FirstFit(old(blocks), Rounded(n), header, capacity).None?)
      ensures rmem.None? && 0 < n <= capacity && r.Some? ==> exists t: Range ::
                r.value == t.lo && t.lo + n <= t.hi && Payloads() == old(Payloads()) + {t}
      ensures forall s :: s in old(Payloads()) && rmem == Some(s.lo) && 0 < n <= capacity ==>
                Resized(old(blocks), old(Payloads()), old(cells[..]), s, n, r)
      ensures Intact(old(Payloads()), Payloads(), old(cells[..]), cells[..], AddressIn(rmem))
    {
      ghost var live, c := Payloads(), cells[..];
      if n > capacity {
        return None;
      }
      if n == 0 {
        FreeOther(rmem);
        return None;
      }
      if rmem.None? {
        var m, t := MallocApart(n);
        IntactIf(live, Payloads(), live, c, cells[..], AddressIn(rmem));
        return if m.None? then None else Some(m.value);
      }
      if rmem.value < 0 || rmem.value >= capacity + header {
        OutsideLive(blocks, End(), header, rmem.value);
        return rmem;
      }
      ghost var s :| s in Payloads() && s.lo == rmem.value;
      OnePayload(blocks, 0, End(), header, s);
      r := ReallocLive(rmem.value, n, s);
      ResizedIntact(live, c, s, n, r);
    }

    lemma ResizedIntact(live: set<Range>, c: seq<Cell>, s: Range, n: nat, r: Option<int>)
      requires s.lo <= s.hi && |c| == cells.Length
      requires r.None? ==> Payloads() == live
      requires r.Some? ==> r.value >= 0 && Replaced(live, s, n, r.value)
      requires forall o :: 0 <= o < cells.Length && InLive(live - {s}, o) ==> cells[o] == c[o]
      requires forall t :: t in live && t.lo == s.lo ==> t == s
      ensures Intact(live, Payloads(), c, cells[..], s.lo)
    {
      IntactIf(live, Payloads(), live - {s}, c, cells[..], s.lo);
    }

    /** `rt_realloc`. */
    method Realloc(rmem: Option<int>, newsize: nat) returns (r: Option<int>)
      requires Valid() && Returnable(rmem) && (rmem.None? ==> ScanEnds(capacity, newsize))
      modifies this`lfree, this`usedMem, this`maxMem, this`blocks, cells
      ensures Valid()
      ensures AlignUp(newsize) > capacity ==> r.None? && blocks == old(blocks) && cells[..] == old(cells[..])
      ensures newsize == 0 ==>
                r.None? && forall s :: s in old(Payloads()) && rmem == Some(s.lo) ==>
                  Payloads() == old(Payloads()) - {s}
      ensures rmem.Some? && 0 < AlignUp(newsize) <= capacity && (rmem.value < 0 || rmem.value >= End()) ==>
                r == rmem && blocks == old(blocks) && cells[..] == old(cells[..])
      ensures rmem.None? && 0 < newsize && AlignUp(newsize) <= capacity ==>
                (r.None? <==> FirstFit(old(blocks), Rounded(newsize), header, capacity).None?)
      ensures rmem.None? && 0 < newsize && AlignUp(newsize) <= capacity && r.Some? ==> exists t: Range ::
                r.value == t.lo && t.lo + newsize <= t.hi && Payloads() == old(Payloads()) + {t}
      ensures forall s :: s in old(Payloads()) && rmem == Some(s.lo) && 0 < AlignUp(newsize) <= capacity ==>
                Resized(old(blocks), old(Payloads()), old(cells[..]), s, AlignUp(newsize), r)
      ensures Intact(old(Payloads()), Payloads(), old(cells[..]), cells[..], AddressIn(rmem))
    {
      AlignUpFacts(newsize);
      AlignUpFixed(AlignUp(newsize));
      r := ReallocRounded(rmem, AlignUp(newsize));
    }

    /** What a call of `rt_realloc` on payload `s` came to. */
    ghost predicate Resized(bs: seq<Block>, live: set<Range>, c: seq<Cell>, s: Range, n: nat, r: Option<int>)
      requires s.lo <= s.hi
      reads this, cells
    {
      && (r.None? <==> Moves(s, n) && FirstFit(bs, Rounded(n), header, capacity).None?)
      && (r.None? ==> blocks == bs && cells[..] == c)
      && (r.Some? ==>
          r.value >= 0 && Replaced(live, s, n, r.value) && Carried(c, cells[..], s.lo, r.value, Least(s.hi - s.lo, n)))
      && (r.Some? ==> if Moves(s, n) then !InLive(live, r.value) else r.value == s.lo)
      && (|c| == cells.Length && forall o :: 0 <= o < cells.Length && InLive(live - {s}, o) ==> cells[o] == c[o])
    }

    /** Payloads begin at addresses of their own. */
    lemma AllPlaced()
      requires Valid()
      ensures Placed(Payloads(), cells.Length)
    {
      forall s | s in Payloads()
        ensures s.hi <= cells.Length && forall t :: t in Payloads() && t.lo == s.lo ==> t == s
      {
        OnePayload(blocks, 0, End(), header, s);
      }
    }

    /** A request that the scan would never finish is not made. */
    method DoAllocate(held: seq<Option<Grant>>, size: nat) returns (more: seq<Option<Grant>>)
      requires Valid() && Owning(held, Payloads())
      modifies this`lfree, this`usedMem, this`maxMem, this`blocks, cells
      ensures Valid() && Owning(more, Payloads()) && (old(Whole(held, Payloads())) ==> Whole(more, Payloads()))
      ensures ScanEnds(capacity, size) ==>
                |more| == |held| + if size == 0 || AlignUp(size) > capacity ||
                                      FirstFit(old(blocks), Rounded(size), header, capacity).None? then 0 else 1
      ensures Step(Allocate(size), old(Contents(held, cells[..])), Contents(more, cells[..]))
    {
      ghost var live, c := Payloads(), cells[..];
      more := held;
      if ScanEnds(capacity, size) {
        var r := Malloc(size);
        IntactIf(live, Payloads(), live, c, cells[..], -1);
        AllPlaced();
        if r.Some? {
          AlignUpFacts(size);
          ghost var e: nat :| Rounded(size) <= e - r.value && Payloads() == live + {Range(r.value, e)};
          Allocated(held, live, Payloads(), c, cells[..], Range(r.value, e), size);
          more := held + [Some(Grant(r.value, size))];
          if Whole(held, live) { WholeMore(held, live, Range(r.value, e), size); }
        } else {
          OthersKept(held, live, Payloads(), c, cells[..], -1);
        }
      }
    }

    method DoRelease(held: seq<Option<Grant>>, k: nat) returns (rest: seq<Option<Grant>>)
      requires Valid() && Owning(held, Payloads()) && k < |held| && held[k].Some?
      modifies this`lfree, this`usedMem, this`maxMem, this`blocks, cells
      ensures Valid() && Owning(rest, Payloads()) && rest == held[k := None]
      ensures old(Whole(held, Payloads())) ==> Whole(rest, Payloads())
      ensures Step(Release(k), old(Contents(held, cells[..])), Contents(rest, cells[..]))
    {
      ghost var live, c := Payloads(), cells[..];
      AllPlaced();
      assert Granted(held[k].value, live);
      ghost var s :| s in live && s.lo == held[k].value.ptr && s.lo + held[k].value.size <= s.hi;
      FreeOther(Some(held[k].value.ptr));
      rest := held[k := None];
      if Whole(held, live) { WholeLess(held, k, live, s, cells.Length); }
      Released(held, k, live, Payloads(), c, cells[..]);
    }

    /** The payload that took over from payload `s`. */
    lemma ResizedTo(bs: seq<Block>, live: set<Range>, c: seq<Cell>, s: Range, n: nat, size: nat, p: int)
      returns (t: Range, len: nat)
      requires s.lo <= s.hi && Resized(bs, live, c, s, n, Some(p)) && size <= n
      ensures t in Payloads() && t.lo == p && t.lo + size <= t.hi && Payloads() == live - {s} + {t}
      ensures t.lo == s.lo || !InLive(live, t.lo)
      ensures Carried(c, cells[..], s.lo, t.lo, len) && len >= Least(s.hi - s.lo, size)
    {
      var e: nat :| n <= e - p && e <= cells.Length && Payloads() == live - {s} + {Range(p, e)};
      t, len := Range(p, e), Least(s.hi - s.lo, n);
    }

    /** `rt_realloc`, naming the payload `t` that payload `s` gave way to. */
    /** `rt_realloc` fails: the size exceeds the heap, or the payload has to move and nothing fits. */
    ghost predicate Refuses(s: Range, n: nat)
      reads this`blocks
    {
      n > capacity || (Moves(s, n) && FirstFit(blocks, Rounded(n), header, capacity).None?)
    }

    method ReallocTo(p: nat, size: nat, ghost s: Range) returns (r: Option<int>, ghost t: Range, ghost len: nat)
      requires Valid() && s in Payloads() && s.lo == p <= s.hi && size > 0
      modifies this`lfree, this`usedMem, this`maxMem, this`blocks, cells
      ensures Valid() && Intact(old(Payloads()), Payloads(), old(cells[..]), cells[..], p)
      ensures r.None? <==> old(Refuses(s, AlignUp(size)))
      ensures r.None? ==> Payloads() == old(Payloads()) && cells[..] == old(cells[..])
      ensures r.Some? ==> Payloads() == old(Payloads()) - {s} + {t}
      ensures r.Some? ==>
                t in Payloads() && t.lo == r.value && t.lo + size <= t.hi &&
                (t.lo == p || !InLive(old(Payloads()), t.lo))
      ensures r.Some? ==> Carried(old(cells[..]), cells[..], p, t.lo, len) && len >= Least(s.hi - s.lo, size)
    {
      ghost var bs, live, c := blocks, Payloads(), cells[..];
      AlignUpFacts(size);
      r := Realloc(Some(p), size);
      assert AlignUp(size) <= capacity ==> Resized(bs, live, c, s, AlignUp(size), r);
      t, len := s, 0;
      if r.Some? {
        t, len := ResizedTo(bs, live, c, s, AlignUp(size), size, r.value);
      }
    }

    method DoResize(held: seq<Option<Grant>>, k: nat, size: nat) returns (moved: seq<Option<Grant>>)
      requires Valid() && Owning(held, Payloads()) && k < |held| && held[k].Some?
      modifies this`lfree, this`usedMem, this`maxMem, this`blocks, cells
      ensures Valid() && Owning(moved, Payloads()) && (old(Whole(held, Payloads())) ==> Whole(moved, Payloads()))
      ensures if size == 0 then moved == held[k := None]
              else forall s :: s in old(Payloads()) && s.lo == held[k].value.ptr ==>
                     if old(Refuses(s, AlignUp(size))) then moved == held
                     else |moved| == |held| && moved == held[k := moved[k]] && moved[k].Some? &&
                          moved[k].value.size == size
      ensures Step(Resize(k, size), old(Contents(held, cells[..])), Contents(moved, cells[..]))
    {
      ghost var live, c := Payloads(), cells[..];
      AllPlaced();
      var g := held[k].value;
      assert Granted(g, live);
      ghost var s :| s in live && s.lo == g.ptr && g.ptr + g.size <= s.hi;
      if size == 0 {
        moved := held[k := None];
        var r := Realloc(Some(g.ptr), 0);
        Released(held, k, live, Payloads(), c, cells[..]);
        if Whole(held, live) { WholeLess(held, k, live, s, cells.Length); }
        return;
      }
      var r, t, len := ReallocTo(g.ptr, size, s);
      AllPlaced();
      moved := held;
      if r.Some? {
        moved := held[k := Some(Grant(r.value, size))];
        Moved(held, k, live, Payloads(), c, cells[..], t, size, len);
        if Whole(held, live) { WholeMoved(held, k, live, s, t, size, cells.Length); }
      }
    }

    method DoStore(held: seq<Option<Grant>>, k: nat, at: nat, value: Cell)
      requires Valid() && Owning(held, Payloads()) && k < |held| && held[k].Some? && at < held[k].value.size
      modifies cells
      ensures Valid()
      ensures Step(Objects.Op.Store(k, at, value), old(Contents(held, cells[..])), Contents(held, cells[..]))
    {
      ghost var live, c := Payloads(), cells[..];
      AllPlaced();
      var p := held[k].value.ptr + at;
      assert Granted(held[k].value, live);
      ghost var s :| s in live && s.lo == held[k].value.ptr && p < s.hi;
      assert InLive(live, p);
      Store(p, value);
      forall t | t in live && t.lo != s.lo ensures !(t.lo <= p < t.hi) {
        LiveDisjoint(blocks, 0, End(), header, s, t);
      }
      Stored(held, k, at, value, live, c, cells[..]);
    }

    /** When an operation is refused. */
    twostate predicate Exact(op: Op<Cell>, held: seq<Option<Grant>>, new now: seq<Option<Grant>>)
      reads this`blocks
    {
      match op
      case Allocate(size) =>
        ScanEnds(capacity, size) ==>
          |now| == |held| + if size == 0 || AlignUp(size) > capacity ||
                               FirstFit(old(blocks), Rounded(size), header, capacity).None? then 0 else 1
      case Resize(k, size) =>
        k < |held| && held[k].Some? && size > 0 ==>
          forall s :: s in old(Payloads()) && s.lo == held[k].value.ptr ==>
            if old(Refuses(s, AlignUp(size))) then now == held
            else |now| == |held| && now[k].Some? && now[k].value.size == size
      case _ => true
    }

    method Do(op: Op<Cell>, held: seq<Option<Grant>>) returns (now: seq<Option<Grant>>)
      requires Valid() && Owning(held, Payloads())
      modifies this`lfree, this`usedMem, this`maxMem, this`blocks, cells
      ensures Valid() && Owning(now, Payloads()) && (old(Whole(held, Payloads())) ==> Whole(now, Payloads()))
      ensures Exact(op, held, now)
      ensures Step(op, old(Contents(held, cells[..])), Contents(now, cells[..]))
    {
      AllPlaced();
      now := held;
      match op
      case Allocate(size) => now := DoAllocate(held, size);
      case Release(k) =>
        if k < |held| && held[k].Some? { now := DoRelease(held, k); }
      case Resize(k, size) =>
        if k < |held| && held[k].Some? { now := DoResize(held, k, size); }
      case Store(k, at, value) =>
        if k < |held| && held[k].Some? {
          assert Granted(held[k].value, Payloads());
          if at < held[k].value.size { DoStore(held, k, at, value); }
        }
    }

    /** Any run of any program: the heap is a memory of separate objects (see `Objects.ReadsLastStored`). */
    method Run(ops: seq<Op<Cell>>, first: seq<Option<Grant>>)
      returns (held: seq<Option<Grant>>, ghost trace: seq<Memory<Cell>>)
      requires Valid() && Owning(first, Payloads())
      modifies this`lfree, this`usedMem, this`maxMem, this`blocks, cells
      ensures Valid() && Owning(held, Payloads()) && (old(Whole(first, Payloads())) ==> Whole(held, Payloads()))
      ensures Trace(ops, trace) && trace[0] == old(Contents(first, cells[..]))
      ensures trace[|ops|] == Contents(held, cells[..])
    {
      held := first;
      trace := [Contents(first, cells[..])];
      for i := 0 to |ops|
        invariant Valid() && Owning(held, Payloads()) && (old(Whole(first, Payloads())) ==> Whole(held, Payloads()))
        invariant |trace| == i + 1 && trace[0] == old(Contents(first, cells[..]))
        invariant trace[i] == Contents(held, cells[..])
        invariant forall j :: 0 <= j < i ==> Step(ops[j], trace[j], trace[j + 1])
      {
        held := Do(ops[i], held);
        trace := trace + [Contents(held, cells[..])];
      }
    }

    /** Freeing what was just allocated restores the heap, block for block. */
    method MallocThenFree(size: nat)
      requires Valid() && ScanEnds(capacity, size)
      modifies this`lfree, this`usedMem, this`maxMem, this`blocks, cells
      ensures Valid() && blocks == old(blocks) && lfree == old(lfree) && usedMem == old(usedMem)
      ensures forall o :: 0 <= o < cells.Length && InLive(old(Payloads()), o) ==> cells[o] == old(cells[o])
    {
      var r := Malloc(size);
      if r.Some? {
        ghost var e: nat :| Payloads() == old(Payloads()) + {Range(r.value, e)} && e - r.value >= Rounded(size);
        OnePayload(blocks, 0, End(), header, Range(r.value, e));
        NotInUse(old(Payloads()), Range(r.value, e));
        Free(Some(r.value));
        assert Payloads() == old(Payloads());
        Canonical(blocks, old(blocks), 0, End(), header);
      }
    }
  }

  /** `rt_system_heap_init`: the heap gets what lies between the aligned ends, less two headers. */
  method SystemHeapInit(begin: nat, end: nat, header: nat) returns (h: Option<Heap>)
    requires header > 0 && header % ALIGN_SIZE == 0 && end < 0x1_0000_0000
    ensures h.None? <==> AlignDown(end) <= 2 * header || AlignDown(end) - 2 * header < AlignUp(begin)
    ensures h.Some? ==> h.value.Valid() && fresh(h.value) && fresh(h.value.cells) && h.value.Payloads() == {}
    ensures h.Some? ==> h.value.header == header && AlignUp(begin) + h.value.capacity + 2 * header == AlignDown(end)
  {
    AlignUpFacts(begin);
    AlignDownFacts(end);
    var beginAlign, endAlign := AlignUp(begin), AlignDown(end);
    if endAlign > 2 * header && endAlign - 2 * header >= beginAlign {
      AlignedRest(endAlign, beginAlign, header);
      var heap := new Heap(header, endAlign - beginAlign - 2 * header);
      return Some(heap);
    }
    return None;
  }
}

/** The boundary-tag heap of rt-thread/src/memheap.c.

    Every block header sits in two rings at once: `phys` joins all blocks in address
    order, the end marker last, and `free` joins the free blocks in the order in which
    they are tried.  The two pairs of pointers of the C structure are two arrays of links
    here, indexed by the address of the header.  Address 0 is the head of the free ring
    in the control block; the pool begins at address `header`. */
module MemHeap {
  import opened Blocks
  import opened Common
  import opened Objects
  import opened Rings

  const MINIALLOC: nat := 12

  function Rounded(size: nat): nat {
    if AlignUp(size) < MINIALLOC then MINIALLOC else AlignUp(size)
  }

  /** It is the least multiple of four that is large enough for the request and for the twelve bytes of a least
      block. */
  lemma RoundedLeast(size: nat, m: nat)
    ensures Rounded(size) >= size && Rounded(size) >= 12 && Rounded(size) % 4 == 0
    ensures m >= size && m >= 12 && m % 4 == 0 ==> Rounded(size) <= m
  {
    AlignUpFacts(size);
  }

  /** `available_size` after `rt_memheap_init`: an unsigned 32-bit difference. */
  function InitialAvailable(poolSize: nat, header: nat): nat {
    (poolSize - 2 * header) % 0x1_0000_0000
  }

  /** It is no more than the pool has exactly if the pool has room for two headers. */
  lemma PoolTooSmall(poolSize: nat, header: nat)
    requires poolSize < 0x8000_0000 && 0 < header < 0x1000
    ensures InitialAvailable(poolSize, header) <= poolSize <==> poolSize >= 2 * header
    ensures poolSize >= 2 * header ==> InitialAvailable(poolSize, header) == poolSize - 2 * header
  {
  }

  // ----- the two rings and the block list -----

  ghost function Ats(bs: seq<Block>): seq<nat> {
    seq(|bs|, i requires 0 <= i < |bs| => bs[i].at)
  }

  ghost predicate Flag(used: seq<bool>, bs: seq<Block>, i: int) {
    0 <= i < |bs| ==> bs[i].at < |used| && used[bs[i].at] == bs[i].used
  }

  ghost predicate Flags(used: seq<bool>, bs: seq<Block>) {
    forall i {:trigger Flag(used, bs, i)} :: Flag(used, bs, i)
  }

  /** The free ring lists the given addresses, each once, behind its head. */
  ghost predicate Lists(ring: seq<nat>, s: set<nat>) {
    |ring| > 0 && ring[0] == 0 && forall a :: a in ring <==> a == 0 || a in s
  }

  lemma AtsCut(bs: seq<Block>, i: nat, cut: nat, lo: nat, hi: nat, header: nat)
    requires Tiles(bs, lo, hi, header) && header > 0 && i < |bs| - 1
    requires bs[i].at + header <= cut && cut + header <= bs[i + 1].at
    ensures Ats(Cut(bs, i, cut)) == With(Ats(bs), i, cut) && cut !in Ats(bs)
  {
    forall k | 0 <= k < |bs| ensures bs[k].at != cut {
      assert Apart(bs, k, i, header) && Apart(bs, i + 1, k, header);
    }
  }

  lemma AtsDrop(bs: seq<Block>, i: nat)
    requires i < |bs|
    ensures Ats(Drop(bs, i)) == Without(Ats(bs), i)
  {
  }

  lemma FlagsCut(used: seq<bool>, bs: seq<Block>, i: nat, cut: nat)
    requires Flags(used, bs) && i < |bs| && cut < |used| && cut !in Ats(bs)
    ensures Flags(used[cut := false], Cut(bs, i, cut))
  {
    var cs, marks := Cut(bs, i, cut), used[cut := false];
    forall k ensures Flag(marks, cs, k) {
      if 0 <= k < |cs| && k != i + 1 {
        var q := if k <= i then k else k - 1;
        assert Flag(used, bs, q) && cs[k] == bs[q] && Ats(bs)[q] == bs[q].at;
      }
    }
  }

  lemma FlagsDrop(used: seq<bool>, bs: seq<Block>, i: nat)
    requires Flags(used, bs) && i < |bs|
    ensures Flags(used, Drop(bs, i))
  {
    var cs := Drop(bs, i);
    forall k ensures Flag(used, cs, k) {
      if 0 <= k < |cs| { assert Flag(used, bs, if k < i then k else k + 1); }
    }
  }

  lemma FlagsMark(used: seq<bool>, bs: seq<Block>, i: nat, mark: bool)
    requires Flags(used, bs) && i < |bs| && Alone(bs, i) && bs[i].at < |used|
    ensures Flags(used[bs[i].at := mark], Mark(bs, i, mark)) && Ats(Mark(bs, i, mark)) == Ats(bs)
  {
    var cs, marks := Mark(bs, i, mark), used[bs[i].at := mark];
    forall k ensures Flag(marks, cs, k) {
      assert Flag(used, bs, k);
    }
  }

  /** Every free block is on the ring under its address, and nothing else is. */
  lemma OnRing(ring: seq<nat>, bs: seq<Block>, j: nat) returns (i: nat)
    requires Distinct(ring) && Lists(ring, FreeAddrs(bs)) && 0 < j < |ring|
    ensures i < |bs| && !bs[i].used && bs[i].at == ring[j]
  {
    SamePlace(ring, 0, j);
    assert ring[j] in ring;
    i :| 0 <= i < |bs| && !bs[i].used && ring[j] == AddrOf(bs, i);
  }

  ghost predicate Chosen(ring: seq<nat>, bs: seq<Block>, i: nat, n: nat, header: nat) {
    && i < |bs| - 1 && !bs[i].used && Size(bs, i, header) >= n
    && exists j :: 0 < j < |ring| && ring[j] == bs[i].at && TooSmall(ring[..j], bs, n, header)
  }

  /** No free block listed in `part` has room for `n` bytes. */
  ghost predicate TooSmall(part: seq<nat>, bs: seq<Block>, n: nat, header: nat) {
    forall i :: 0 <= i < |bs| - 1 && !bs[i].used && bs[i].at in part ==> Size(bs, i, header) < n
  }

  lemma NoneYet(ring: seq<nat>, bs: seq<Block>, n: nat, end: nat, header: nat)
    requires |ring| > 0 && ring[0] == 0 && Tiles(bs, header, end, header) && header > 0
    ensures TooSmall(ring[..1], bs, n, header)
  {
    forall i | 0 <= i < |bs| ensures bs[i].at > 0 {
      assert Apart(bs, 0, i, header);
    }
  }

  lemma OneMore(ring: seq<nat>, bs: seq<Block>, n: nat, j: nat, i: nat, end: nat, header: nat)
    requires Tiles(bs, header, end, header) && header > 0 && j < |ring| && i < |bs| - 1 && bs[i].at == ring[j]
    requires TooSmall(ring[..j], bs, n, header) && Size(bs, i, header) < n
    ensures TooSmall(ring[..j + 1], bs, n, header)
  {
    StandsAlone(bs, i, header, end, header);
    assert ring[..j + 1] == ring[..j] + [ring[j]];
  }

  /** No free block has room for `n` bytes. */
  ghost predicate NoFit(bs: seq<Block>, n: nat, header: nat) {
    forall i :: 0 <= i < |bs| - 1 && !bs[i].used ==> Size(bs, i, header) < n
  }

  lemma NothingListed(ring: seq<nat>, bs: seq<Block>, n: nat, header: nat)
    requires Lists(ring, FreeAddrs(bs)) && TooSmall(ring, bs, n, header)
    ensures NoFit(bs, n, header)
  {
    forall i | 0 <= i < |bs| - 1 && !bs[i].used ensures Size(bs, i, header) < n {
      assert AddrOf(bs, i) in FreeAddrs(bs);
    }
  }

  lemma {:induction false} WeighNotLess(bs: seq<Block>, i: nat, k: nat, end: nat, header: nat)
    requires Tiles(bs, header, end, header) && i < |bs| - 1 && k < |bs|
    ensures WeighTo(bs, k, false, header) >= if i < k && !bs[i].used then Size(bs, i, header) else 0
  {
    if k > 0 {
      WeighNotLess(bs, i, k - 1, end, header);
      assert Apart(bs, k - 1, k, header);
    }
  }

  /** A request that fits some free block is refused only when that block is all there is, to the byte. */
  lemma RefusedThoughItFits(bs: seq<Block>, i: nat, n: nat, end: nat, header: nat)
    requires Tiles(bs, header, end, header) && i < |bs| - 1 && !bs[i].used && Size(bs, i, header) >= n
    ensures n >= Weigh(bs, false, header) <==> n == Size(bs, i, header) == Weigh(bs, false, header)
  {
    WeighNotLess(bs, i, |bs| - 1, end, header);
  }

  // ----- what each operation does to the list -----

  /** Free block `i` split at `cut`: its front part becomes a payload. */
  lemma SplitFacts(bs: seq<Block>, i: nat, cut: nat, end: nat, header: nat)
    requires Tiles(bs, header, end, header) && header > 0 && i < |bs| - 1 && !bs[i].used
    requires bs[i].at + header <= cut && cut + header <= bs[i + 1].at
    ensures var cs := Split(bs, i, cut);
      && Tiles(cs, header, end, header) && Alone(bs, i)
      && Live(cs, header) == Live(bs, header) + {Range(bs[i].at + header, cut)}
      && FreeAddrs(cs) == FreeAddrs(bs) + {cut} - {bs[i].at}
      && Weigh(cs, false, header) == Weigh(bs, false, header) - (cut - bs[i].at)
  {
    var cs := Cut(bs, i, cut);
    StandsAlone(bs, i, header, end, header);
    CutShape(bs, i, cut, header, end, header);
    StandsAlone(cs, i, header, end, header);
    MarkShape(cs, i, true, header, end, header);
    SplitLive(bs, i, cut, header);
    FreeNotLive(bs, i, end, header);
    SplitWeight(bs, i, cut, false, header);
    CutAddrs(bs, i, cut);
    MarkAddrs(cs, i, true);
  }

  lemma CarveFacts(bs: seq<Block>, i: nat, n: nat, end: nat, header: nat)
    requires Tiles(bs, header, end, header) && NoTwins(bs) && header > 0
    requires i < |bs| - 1 && !bs[i].used && Size(bs, i, header) >= n
    ensures var cs := Carve(bs, i, n, header, MINIALLOC); var cut := bs[i].at + header + n;
      && Tiles(cs, header, end, header) && NoTwins(cs) && Alone(bs, i) && cs[i].at == bs[i].at && cs[i].used
      && Live(cs, header) == Live(bs, header) + {RangeOf(cs, i, header)}
      && cut <= cs[i + 1].at < cut + header + 12
      && if Size(bs, i, header) >= n + header + MINIALLOC
         then FreeAddrs(cs) == FreeAddrs(bs) + {cut} - {bs[i].at} &&
              Weigh(cs, false, header) == Weigh(bs, false, header) - n - header
         else FreeAddrs(cs) == FreeAddrs(bs) - {bs[i].at} &&
              Weigh(cs, false, header) == Weigh(bs, false, header) - Size(bs, i, header)
  {
    StandsAlone(bs, i, header, end, header);
    if Size(bs, i, header) >= n + header + MINIALLOC {
      assert NotTwins(bs, i);
      SplitTwins(bs, i, bs[i].at + header + n);
      SplitFacts(bs, i, bs[i].at + header + n, end, header);
    } else {
      MarkShape(bs, i, true, header, end, header);
      MarkTwins(bs, i);
      MarkLive(bs, i, true, header);
      MarkWeight(bs, i, true, false, header);
      MarkAddrs(bs, i, true);
    }
  }

  lemma FreeNotLive(bs: seq<Block>, i: nat, end: nat, header: nat)
    requires Tiles(bs, header, end, header) && header > 0 && i < |bs| - 1 && !bs[i].used
    ensures RangeOf(bs, i, header) !in Live(bs, header)
  {
    StandsAlone(bs, i, header, end, header);
    forall k | 0 <= k < |bs| - 1 && bs[k].used ensures RangeOf(bs, k, header) != RangeOf(bs, i, header) {}
  }

  lemma ClearFacts(bs: seq<Block>, i: nat, end: nat, header: nat)
    requires Tiles(bs, header, end, header) && header > 0 && i < |bs| - 1 && bs[i].used
    ensures var cs := Mark(bs, i, false);
      && Tiles(cs, header, end, header)
      && Live(cs, header) == Live(bs, header) - {RangeOf(bs, i, header)}
      && FreeAddrs(cs) == FreeAddrs(bs) + {bs[i].at} && bs[i].at !in FreeAddrs(bs)
      && Weigh(cs, false, header) == Weigh(bs, false, header) + Size(bs, i, header)
  {
    StandsAlone(bs, i, header, end, header);
    MarkShape(bs, i, false, header, end, header);
    MarkLive(bs, i, false, header);
    MarkAddrs(bs, i, false);
    MarkWeight(bs, i, false, false, header);
    forall k | 0 <= k < |bs| && !bs[k].used ensures AddrOf(bs, k) != bs[i].at {}
  }

  lemma ClearTwins(bs: seq<Block>, i: nat)
    requires NoTwins(bs) && i < |bs| - 1
    ensures TwinsOnlyAt(Mark(bs, i, false), i)
  {
    var cs := Mark(bs, i, false);
    forall k | k != i && k != i - 1 ensures NotTwins(cs, k) {
      assert NotTwins(bs, k);
    }
  }

  lemma MergeFacts(bs: seq<Block>, i: nat, end: nat, header: nat)
    requires Tiles(bs, header, end, header) && header > 0 && 0 < i < |bs| - 1 && !bs[i].used && !bs[i - 1].used
    ensures var cs := Drop(bs, i);
      && Live(cs, header) == Live(bs, header) && FreeAddrs(cs) == FreeAddrs(bs) - {bs[i].at}
      && Weigh(cs, false, header) == Weigh(bs, false, header) + header
      && bs[i].at in FreeAddrs(bs)
  {
    StandsAlone(bs, i, header, end, header);
    DropLive(bs, i, header);
    DropAddrs(bs, i);
    DropWeight(bs, i, false, header);
    assert AddrOf(bs, i) in FreeAddrs(bs);
  }

  /** Used block `i` shrinks to end at `cut`; the rest is a free block of its own, not merged yet. */
  lemma ShrinkFacts(bs: seq<Block>, i: nat, cut: nat, end: nat, header: nat)
    requires Tiles(bs, header, end, header) && NoTwins(bs) && header > 0 && i < |bs| - 1 && bs[i].used
    requires bs[i].at + header <= cut && cut + header <= bs[i + 1].at
    ensures var cs := Cut(bs, i, cut);
      && TwinsOnlyAt(cs, i + 1)
      && Live(cs, header) == Live(bs, header) - {RangeOf(bs, i, header)} + {Range(bs[i].at + header, cut)}
      && FreeAddrs(cs) == FreeAddrs(bs) + {cut} && cut !in FreeAddrs(bs)
      && Weigh(cs, false, header) == Weigh(bs, false, header) + bs[i + 1].at - cut - header
      && forall o {:trigger InLive(Live(cs, header), o)} :: InLive(Live(cs, header), o) ==> !(cut <= o < cut + header)
  {
    var ds, cs := Mark(bs, i, false), Cut(bs, i, cut);
    ClearFacts(bs, i, end, header);
    SplitFacts(ds, i, cut, end, header);
    assert cs == Split(ds, i, cut);
    CutNotListed(bs, i, cut, end, header);
    assert FreeAddrs(cs) == FreeAddrs(bs) + {cut} by {
      CutAddrs(bs, i, cut);
    }
    forall k | k != i && k != i + 1 ensures NotTwins(cs, k) {
      if k < i { assert NotTwins(bs, k); } else { assert NotTwins(bs, k - 1); }
    }
    forall o | InLive(Live(cs, header), o) ensures !(cut <= o < cut + header) {
      if cut <= o < cut + header { HeaderNotLive(cs, header, end, header, i + 1, o); }
    }
  }

  lemma GrowIs(bs: seq<Block>, i: nat, cut: nat)
    requires i < |bs| - 2 && bs[i].used
    ensures Cut(Drop(bs, i + 1), i, cut) == Split(Drop(Mark(bs, i, false), i + 1), i, cut) ==
              bs[i + 1 := Block(cut, false)]
  {
  }

  /** The block list while the grown block is being replaced: the block and its neighbour are one free block. */
  lemma GrowVia(bs: seq<Block>, i: nat, end: nat, header: nat)
    requires Tiles(bs, header, end, header) && header > 0 && i < |bs| - 2 && bs[i].used && !bs[i + 1].used
    ensures var es := Drop(Mark(bs, i, false), i + 1);
      && Tiles(es, header, end, header) && es[i] == Block(bs[i].at, false) && es[i + 1] == bs[i + 2]
      && Live(es, header) == Live(bs, header) - {RangeOf(bs, i, header)}
      && Weigh(es, false, header) == Weigh(bs, false, header) + bs[i + 1].at - bs[i].at
  {
    ClearFacts(bs, i, end, header);
    MergeFacts(Mark(bs, i, false), i + 1, end, header);
    DropShape(Mark(bs, i, false), i + 1, header, end, header);
  }

  lemma GrowPayload(bs: seq<Block>, i: nat, ptr: nat, n: nat, end: nat, header: nat)
    returns (cs: seq<Block>, grown: set<Range>)
    requires Tiles(bs, header, end, header) && header > 0
    requires i < |bs| - 2 && bs[i] == Block(ptr, true) && !bs[i + 1].used
    requires bs[i + 1].at <= ptr + header + n && ptr + header + n + header <= bs[i + 2].at
    ensures cs == bs[i + 1 := Block(ptr + header + n, false)] == Cut(Drop(bs, i + 1), i, ptr + header + n)
    ensures Live(cs, header) == grown ==
              Live(bs, header) - {RangeOf(bs, i, header)} + {Range(ptr + header, ptr + header + n)}
    ensures Weigh(cs, false, header) == Weigh(bs, false, header) - (ptr + header + n - bs[i + 1].at)
  {
    var cut := ptr + header + n;
    assert Apart(bs, i, i + 1, header);
    GrowVia(bs, i, end, header);
    SplitFacts(Drop(Mark(bs, i, false), i + 1), i, cut, end, header);
    GrowIs(bs, i, cut);
    cs, grown :=
      bs[i + 1 := Block(cut, false)], Live(bs, header) - {RangeOf(bs, i, header)} + {Range(bs[i].at + header, cut)};
  }

  lemma GrowAddrs(bs: seq<Block>, i: nat, cut: nat, end: nat, header: nat)
    requires Tiles(bs, header, end, header) && header > 0 && i < |bs| - 2 && !bs[i + 1].used
    requires bs[i + 1].at <= cut && cut + header <= bs[i + 2].at
    ensures var ds := Drop(bs, i + 1);
      && FreeAddrs(ds) == FreeAddrs(bs) - {bs[i + 1].at} && bs[i + 1].at in FreeAddrs(bs)
      && cut !in FreeAddrs(ds) && FreeAddrs(Cut(ds, i, cut)) == FreeAddrs(ds) + {cut}
  {
    var ds := Drop(bs, i + 1);
    assert Apart(bs, i, i + 1, header);
    StandsAlone(bs, i + 1, header, end, header);
    DropShape(bs, i + 1, header, end, header);
    DropAddrs(bs, i + 1);
    CutAddrs(ds, i, cut);
    CutNotListed(ds, i, cut, end, header);
    assert AddrOf(bs, i + 1) in FreeAddrs(bs);
  }

  /** Used block `i` grows into its free neighbour, which shrinks to begin at `cut`. */
  lemma GrowFacts(bs: seq<Block>, i: nat, cut: nat, end: nat, header: nat)
    requires Tiles(bs, header, end, header) && NoTwins(bs) && header > 0 && i < |bs| - 2 && !bs[i + 1].used
    requires bs[i + 1].at <= cut && cut + header <= bs[i + 2].at
    ensures NoTwins(Cut(Drop(bs, i + 1), i, cut))
    ensures forall o {:trigger InLive(Live(bs, header), o)} :: InLive(Live(bs, header), o) ==>
              !(cut <= o < cut + header)
  {
    var cs := Cut(Drop(bs, i + 1), i, cut);
    ExtentApart(bs, i + 1, end, header);
    assert cs == bs[i + 1 := Block(cut, false)];
    forall k ensures NotTwins(cs, k) {
      assert NotTwins(bs, k);
    }
  }

  /** All about the list after block `i` grew to `n` bytes. */
  lemma GrowAll(bs: seq<Block>, i: nat, ptr: nat, n: nat, end: nat, header: nat) returns (cs: seq<Block>)
    requires Tiles(bs, header, end, header) && NoTwins(bs) && header > 0
    requires i < |bs| - 2 && bs[i] == Block(ptr, true) && !bs[i + 1].used
    requires bs[i + 1].at <= ptr + header + n && ptr + header + n + header <= bs[i + 2].at
    ensures cs == Cut(Drop(bs, i + 1), i, ptr + header + n) && |cs| == |bs| && NoTwins(cs)
    ensures Live(cs, header) == Live(bs, header) - {RangeOf(bs, i, header)} + {Range(ptr + header, ptr + header + n)}
    ensures Weigh(cs, false, header) == Weigh(bs, false, header) - (ptr + header + n - bs[i + 1].at)
    ensures bs[i + 1].at in FreeAddrs(bs) && ptr + header + n !in FreeAddrs(bs) - {bs[i + 1].at}
    ensures FreeAddrs(cs) == FreeAddrs(bs) - {bs[i + 1].at} + {ptr + header + n}
    ensures forall o {:trigger InLive(Live(bs, header), o)} :: InLive(Live(bs, header), o) ==>
              !(ptr + header + n <= o < ptr + header + n + header)
  {
    var cut := ptr + header + n;
    GrowFacts(bs, i, cut, end, header);
    GrowAddrs(bs, i, cut, end, header);
    var grown;
    cs, grown := GrowPayload(bs, i, ptr, n, end, header);
  }

  /** The extent of a free block meets no payload in use. */
  lemma ExtentApart(bs: seq<Block>, i: nat, end: nat, header: nat)
    requires Tiles(bs, header, end, header) && i < |bs| - 1 && !bs[i].used
    ensures forall o {:trigger InLive(Live(bs, header), o)} :: InLive(Live(bs, header), o) ==>
              !(bs[i].at <= o < bs[i + 1].at)
  {
    forall o | InLive(Live(bs, header), o) ensures !(bs[i].at <= o < bs[i + 1].at) {
      var r :| r in Live(bs, header) && r.lo <= o < r.hi;
      if bs[i].at <= o < bs[i + 1].at { ExtentNotLive(bs, header, end, header, i, o, r); }
    }
  }

  lemma CutNotListed(bs: seq<Block>, i: nat, cut: nat, end: nat, header: nat)
    requires Tiles(bs, header, end, header) && header > 0 && i < |bs| - 1
    requires bs[i].at + header <= cut && cut + header <= bs[i + 1].at
    ensures cut !in FreeAddrs(bs)
  {
    AtsCut(bs, i, cut, header, end, header);
    forall k | 0 <= k < |bs| && !bs[k].used ensures AddrOf(bs, k) != cut {
      assert Ats(bs)[k] == bs[k].at;
    }
  }

  lemma RoundedTwice(size: nat)
    ensures Rounded(Rounded(size)) == Rounded(size) >= MINIALLOC && Rounded(size) % ALIGN_SIZE == 0
  {
    AlignUpFacts(size);
    AlignUpFixed(AlignUp(size));
  }

  // ----- the heap -----

  class Heap {
    const header: nat
    const poolSize: nat
    const phys: array<Link>
    const free: array<Link>
    const used: array<bool>
    const data: array<bv8>
    var availableSize: int
    var maxUsedSize: int
    ghost var blocks: seq<Block>
    ghost var ring: seq<nat>

    /** The address of the end marker. */
    ghost function End(): nat { poolSize }

    ghost predicate Sized() {
      && header > 0 && poolSize >= 2 * header && phys != free
      && data as object != phys && data as object != free && data as object != used
      && used as object != phys && used as object != free
      && phys.Length == free.Length == used.Length == data.Length == header + poolSize
    }

    /** The ring of all blocks and their marks spell out the block list. */
    ghost predicate PhysOk()
      reads this, phys, used
    {
      && Sized() && Tiles(blocks, header, End(), header) && Ring(phys[..], Ats(blocks)) && Flags(used[..], blocks)
      && Aligned(blocks) && header % ALIGN_SIZE == 0
    }

    /** The free ring holds exactly the addresses in `s`. */
    ghost predicate FreeOk(s: set<nat>)
      reads this, free
    {
      Sized() && Ring(free[..], ring) && Lists(ring, s)
    }

    ghost predicate Valid()
      reads this, phys, used, free
    {
      && PhysOk() && NoTwins(blocks) && FreeOk(FreeAddrs(blocks))
      && availableSize == Weigh(blocks, false, header)
      && poolSize - availableSize <= maxUsedSize
    }

    ghost function Payloads(): set<Range>
      reads this
    {
      Live(blocks, header)
    }

    /** The bytes of headers belong to no payload in use, so no store of a program reaches a link or a mark. */
    lemma HeadersApart(k: nat, o: nat)
      requires Valid() && k < |blocks| && blocks[k].at <= o < blocks[k].at + header
      ensures !InLive(Payloads(), o)
    {
      HeaderNotLive(blocks, header, End(), header, k, o);
    }

    /** `rt_memheap_init`. */
    constructor (header: nat, size: nat)
      requires header > 0 && header % ALIGN_SIZE == 0 && AlignDown(size) >= 2 * header
      ensures Valid() && this.header == header && poolSize == AlignDown(size)
      ensures Payloads() == {} && availableSize == poolSize - 2 * header
    {
      AlignDownFacts(size);
      var poolSize := AlignDown(size);
      this.header := header;
      this.poolSize := poolSize;
      phys := new Link[header + poolSize](_ => Link(0, 0));
      free := new Link[header + poolSize](_ => Link(0, 0));
      used := new bool[header + poolSize](_ => false);
      data := new bv8[header + poolSize](_ => 0);
      availableSize := poolSize - 2 * header;
      maxUsedSize := 2 * header;
      blocks := [Block(header, false), Block(poolSize, true)];
      ring := [0, header];
      new;
      phys[header] := Link(poolSize, poolSize);
      phys[poolSize] := Link(header, header);
      used[poolSize] := true;
      free[0] := Link(header, header);
      free[header] := Link(0, 0);
      assert Ats(blocks) == [header, poolSize];
      assert WeighTo(blocks, 1, false, header) == WeighTo(blocks, 0, false, header) + poolSize - header - header;
      assert AddrOf(blocks, 0) in FreeAddrs(blocks);
      assert forall i {:trigger AlignedAt(blocks, i)} :: AlignedAt(blocks, i);
    }

    // ----- writes to one ring -----

    /** A new free header at `cut`, inside block `i`; its bytes overwrite what was there. */
    method CutBlock(ptr: nat, cut: nat, ghost i: nat)
      requires PhysOk() && i < |blocks| - 1 && ptr == blocks[i].at
      requires ptr + header <= cut && cut + header <= blocks[i + 1].at && cut % ALIGN_SIZE == 0
      modifies this`blocks, phys, used, data
      ensures PhysOk() && blocks == Cut(old(blocks), i, cut)
      ensures forall o :: 0 <= o < data.Length && !(cut <= o < cut + header) ==> data[o] == old(data[o])
    {
      AtsCut(blocks, i, cut, header, End(), header);
      CutShape(blocks, i, cut, header, End(), header);
      assert Apart(blocks, i + 1, |blocks| - 1, header);
      FlagsCut(used[..], blocks, i, cut);
      CutKeepsAligned(blocks, i, cut);
      forall o | cut <= o < cut + header { data[o] := 0; }
      used[cut] := false;
      assert used[..] == old(used[..])[cut := false] && phys[..] == old(phys[..]);
      assert Ats(blocks)[i] == ptr;
      InsertAfter(phys, ptr, cut, Ats(blocks), i);
      blocks := Cut(blocks, i, cut);
    }

    /** Block `i` leaves the ring of blocks: the one before it takes over its extent. */
    method DropBlock(mid: nat, ghost i: nat)
      requires PhysOk() && 0 < i < |blocks| - 1 && mid == blocks[i].at
      modifies this`blocks, phys
      ensures PhysOk() && blocks == Drop(old(blocks), i)
    {
      DropShape(blocks, i, header, End(), header);
      DropAligned(blocks, i);
      AtsDrop(blocks, i);
      FlagsDrop(used[..], blocks, i);
      assert Ats(blocks)[i] == mid;
      Unlink(phys, mid, Ats(blocks), i);
      blocks := Drop(blocks, i);
    }

    method SetUsed(ptr: nat, mark: bool, ghost i: nat)
      requires PhysOk() && i < |blocks| - 1 && ptr == blocks[i].at
      modifies this`blocks, used
      ensures PhysOk() && blocks == Mark(old(blocks), i, mark)
    {
      MarkShape(blocks, i, mark, header, End(), header);
      MarkAligned(blocks, i, mark);
      assert Flag(used[..], blocks, i);
      FlagsMark(used[..], blocks, i, mark);
      used[ptr] := mark;
      assert used[..] == old(used[..])[ptr := mark] && phys[..] == old(phys[..]);
      blocks := Mark(blocks, i, mark);
    }

    /** Take `a` out of the free ring. */
    method Unfree(a: nat, ghost s: set<nat>)
      requires FreeOk(s) && a in s && a != 0
      modifies this`ring, free
      ensures FreeOk(s - {a})
    {
      ghost var j :| 0 <= j < |ring| && ring[j] == a;
      DistinctWithout(ring, j);
      Unlink(free, a, ring, j);
      ring := Without(ring, j);
    }

    /** Put `a` in front of the free ring. */
    method Push(a: nat, ghost s: set<nat>)
      requires FreeOk(s) && a !in s && 0 < a < free.Length
      modifies this`ring, free
      ensures FreeOk(s + {a}) && |ring| > 1 && ring[1] == a
    {
      DistinctWith(ring, 0, a);
      InsertAfter(free, 0, a, ring, 0);
      ring := With(ring, 0, a);
    }

    /** The size of block `i`, read off the ring of blocks. */
    method ItemSize(a: nat, ghost i: nat) returns (size: nat)
      requires PhysOk() && i < |blocks| - 1 && a == blocks[i].at
      ensures size == Size(blocks, i, header)
    {
      assert At(phys[..], Ats(blocks), i) && Apart(blocks, i, i + 1, header);
      assert Ats(blocks)[i] == a && Ats(blocks)[i + 1] == blocks[i + 1].at;
      size := phys[a].next - a - header;
    }

    /** The search of `rt_memheap_alloc`: along the free ring, up to the first block that fits. */
    method FindFit(n: nat) returns (ptr: nat, size: nat, ghost i: nat)
      requires Valid() && n > 0
      ensures size >= n ==> Chosen(ring, blocks, i, n, header) && ptr == blocks[i].at && size == Size(blocks, i, header)
      ensures size < n ==> TooSmall(ring, blocks, n, header)
    {
      size := 0;
      i := 0;
      ghost var j: nat := 1;
      assert At(free[..], ring, 0);
      ptr := free[0].next;
      NoneYet(ring, blocks, n, End(), header);
      while ptr != 0 && size < n
        invariant 1 <= j <= |ring| && ptr == if j < |ring| then ring[j] else 0
        invariant size < n ==> TooSmall(ring[..j], blocks, n, header)
        invariant size >= n ==>
                    Chosen(ring, blocks, i, n, header) && ptr == blocks[i].at && size == Size(blocks, i, header)
        decreases |ring| - j, n - size
      {
        i := OnRing(ring, blocks, j);
        size := ItemSize(ptr, i);
        if size < n {
          OneMore(ring, blocks, n, j, i, End(), header);
          assert At(free[..], ring, j);
          ptr := free[ptr].next;
          j := j + 1;
        }
      }
      if size < n {
        if j < |ring| { SamePlace(ring, 0, j); }
        assert ring[..j] == ring;
      }
    }

    /** Take block `i`, which the search found, and give `n` bytes of it out. */
    method TakeBlock(ptr: nat, n: nat, size: nat, ghost i: nat)
      requires Valid() && i < |blocks| - 1 && !blocks[i].used && ptr == blocks[i].at
      requires size == Size(blocks, i, header) && size >= n > 0 && n % ALIGN_SIZE == 0
      modifies this, phys, free, used, data
      ensures Valid() && blocks == Carve(old(blocks), i, n, header, MINIALLOC)
      ensures forall o :: 0 <= o < data.Length && InLive(old(Payloads()), o) ==> data[o] == old(data[o])
    {
      ghost var bs, s := blocks, FreeAddrs(blocks);
      CarveFacts(bs, i, n, End(), header);
      assert AddrOf(bs, i) in s && Apart(bs, 0, i, header) && Apart(bs, i + 1, |bs| - 1, header);
      if size >= n + header + MINIALLOC {
        var cut := ptr + header + n;
        ExtentApart(bs, i, End(), header);
        CutNotListed(bs, i, cut, End(), header);
        CutAligned(bs, i, header, n);
        CutBlock(ptr, cut, i);
        assert free[..] == old(free[..]);
        TakeOff(ptr, s);
        Push(cut, s - {ptr});
        availableSize := availableSize - n - header;
      } else {
        availableSize := availableSize - size;
        TakeOff(ptr, s);
      }
      if poolSize - availableSize > maxUsedSize {
        maxUsedSize := poolSize - availableSize;
      }
      SetUsed(ptr, true, i);
    }

    /** Take `a` out of the free ring and clear its link. */
    method TakeOff(a: nat, ghost s: set<nat>)
      requires FreeOk(s) && a in s && 0 < a < free.Length
      modifies this`ring, free
      ensures FreeOk(s - {a})
    {
      Unfree(a, s);
      label cleared:
      free[a] := Link(-1, -1);
      Untouched(old@cleared(free[..]), free[..], ring);
    }

    /** `rt_memheap_alloc`. */
    method Alloc(size: nat) returns (r: Option<nat>, ghost i: nat, ghost t: Range)
      requires Valid()
      modifies this, phys, free, used, data
      ensures Valid()
      ensures r.None? <==> Rounded(size) >= old(availableSize) || NoFit(old(blocks), Rounded(size), header)
      ensures r.None? ==> blocks == old(blocks) && ring == old(ring) && data[..] == old(data[..])
      ensures r.Some? ==> Served(old(blocks), old(ring), i, Rounded(size), r.value, t) && r.value % ALIGN_SIZE == 0
      ensures forall o :: 0 <= o < data.Length && InLive(old(Payloads()), o) ==> data[o] == old(data[o])
    {
      AlignUpFacts(size);
      var n := AlignUp(size);
      if n < MINIALLOC {
        n := MINIALLOC;
      }
      i, t := 0, Range(0, 0);
      if n < availableSize {
        var ptr, free;
        ptr, free, i := FindFit(n);
        if free >= n {
          ghost var bs := blocks;
          TakeBlock(ptr, n, free, i);
          t := RangeOf(blocks, i, header);
          CarveFacts(bs, i, n, End(), header);
          OnePayload(blocks, header, End(), header, t);
          PayloadAligned(blocks, header, t);
          return Some(ptr + header), i, t;
        }
        NothingListed(ring, blocks, n, header);
      }
      return None, i, t;
    }

    /** Block `i` of the list `bs`, the first in the order of the free ring with room, served `n` bytes as payload
        `t`. */
    ghost predicate Served(bs: seq<Block>, rg: seq<nat>, i: nat, n: nat, p: nat, t: Range)
      reads this
    {
      && Chosen(rg, bs, i, n, header) && p == bs[i].at + header
      && blocks == Carve(bs, i, n, header, MINIALLOC)
      && t.lo == p && p + n <= t.hi <= End() && t.hi < p + n + header + 12 && t !in Live(bs, header)
      && Payloads() == Live(bs, header) + {t}
    }

    /** Block `k` is free, not yet merged with a free right neighbour, and perhaps not on the free ring. */
    ghost predicate Loose(at: nat, k: nat, listed: bool)
      reads this, phys, used, free
    {
      && PhysOk() && k < |blocks| - 1 && blocks[k] == Block(at, false)
      && TwinsOnlyAt(blocks, k) && (k > 0 ==> blocks[k - 1].used)
      && FreeOk(if listed then FreeAddrs(blocks) else FreeAddrs(blocks) - {at})
    }

    /** The free block at `at` swallows its free right neighbour. */
    method SwallowRight(at: nat, next: nat, ghost k: nat, ghost listed: bool)
      requires Loose(at, k, listed) && k + 2 < |blocks| && blocks[k + 1] == Block(next, false)
      modifies this`blocks, this`ring, phys, free
      ensures Loose(at, k, listed) && blocks == Drop(old(blocks), k + 1) && NoTwins(blocks)
      ensures Payloads() == old(Payloads())
      ensures Weigh(blocks, false, header) == old(Weigh(blocks, false, header)) + header
    {
      ghost var bs := blocks;
      RightMerged(bs, k);
      MergeFacts(bs, k + 1, End(), header);
      assert Apart(bs, k, k + 1, header);
      DropBlock(next, k + 1);
      assert free[..] == old(free[..]);
      ghost var s := if listed then FreeAddrs(bs) else FreeAddrs(bs) - {at};
      Unfree(next, s);
      assert s - {next} == if listed then FreeAddrs(blocks) else FreeAddrs(blocks) - {at};
      forall q | q != k && q != k - 1 ensures NotTwins(blocks, q) {
        assert NotTwins(blocks, q);
      }
    }

    /** The left half of `rt_memheap_free`: a free left neighbour takes the block over. */
    method MergeLeft(ptr: nat, ghost i: nat) returns (at: nat, ghost k: nat, insert: bool)
      requires PhysOk() && i < |blocks| - 1 && blocks[i] == Block(ptr, false) && TwinsOnlyAt(blocks, i)
      requires FreeOk(FreeAddrs(blocks) - {ptr})
      modifies this`blocks, this`availableSize, phys
      ensures Loose(at, k, !insert) && Payloads() == old(Payloads())
      ensures availableSize - old(availableSize) ==
                Weigh(blocks, false, header) - old(Weigh(blocks, false, header)) >= 0
    {
      assert At(phys[..], Ats(blocks), i) && Flag(used[..], blocks, Pred(|blocks|, i));
      assert Ats(blocks)[i] == ptr;
      var prev := phys[ptr].prev;
      at, k, insert := ptr, i, true;
      if !used[prev] {
        MergeFacts(blocks, i, End(), header);
        LeftMerged(blocks, i);
        availableSize := availableSize + header;
        DropBlock(ptr, i);
        at, k, insert := prev, i - 1, false;
      }
    }

    /** The right half of `rt_memheap_free`, then the insertion into the free ring. */
    method MergeRight(at: nat, insert: bool, ghost k: nat)
      requires Loose(at, k, !insert) && availableSize == Weigh(blocks, false, header)
      requires poolSize - availableSize <= maxUsedSize
      modifies this`blocks, this`ring, this`availableSize, phys, free
      ensures Valid() && Payloads() == old(Payloads())
    {
      assert At(phys[..], Ats(blocks), k) && Flag(used[..], blocks, k + 1);
      assert Ats(blocks)[k] == at && Ats(blocks)[k + 1] == blocks[k + 1].at;
      assert AddrOf(blocks, k) in FreeAddrs(blocks);
      var next := phys[at].next;
      if !used[next] {
        availableSize := availableSize + header;
        SwallowRight(at, next, k, !insert);
        assert AddrOf(blocks, k) in FreeAddrs(blocks);
      } else {
        NothingToPlug(blocks, k);
      }
      assert Apart(blocks, 0, k, header) && Apart(blocks, k, |blocks| - 1, header);
      if insert {
        ghost var s := FreeAddrs(blocks) - {at};
        Push(at, s);
        assert s + {at} == FreeAddrs(blocks);
      }
    }

    /** Release block `i`. */
    method FreeBlock(ptr: nat, ghost i: nat)
      requires Valid() && i < |blocks| - 1 && blocks[i] == Block(ptr, true)
      modifies this, phys, free, used
      ensures Valid() && Payloads() == old(Payloads()) - {RangeOf(old(blocks), i, header)}
    {
      ClearFacts(blocks, i, End(), header);
      ClearTwins(blocks, i);
      assert Apart(blocks, i, i + 1, header);
      SetUsed(ptr, false, i);
      assert free[..] == old(free[..]);
      assert FreeAddrs(blocks) - {ptr} == old(FreeAddrs(blocks));
      var size := ItemSize(ptr, i);
      availableSize := availableSize + size;
      var at, k, insert := MergeLeft(ptr, i);
      MergeRight(at, insert, k);
    }

    /** `rt_memheap_free`. */
    method Free(ptr: Option<nat>)
      requires Valid() && (ptr.Some? ==> exists s :: s in Payloads() && s.lo == ptr.value)
      modifies this, phys, free, used
      ensures Valid()
      ensures ptr.None? ==> blocks == old(blocks)
      ensures forall s :: s in old(Payloads()) && ptr == Some(s.lo) ==> Payloads() == old(Payloads()) - {s}
    {
      if ptr.None? {
        return;
      }
      ghost var s :| s in Payloads() && s.lo == ptr.value;
      ghost var i :| 0 <= i < |blocks| - 1 && blocks[i].used && s == RangeOf(blocks, i, header);
      OnePayload(blocks, header, End(), header, s);
      FreeBlock(ptr.value - header, i);
    }

    /** The request cannot be met in place: it is larger than the block, and the block cannot grow to the right. */
    ghost predicate Moves(bs: seq<Block>, i: nat, n: nat)
      requires i < |bs| - 1
    {
      n > Size(bs, i, header) &&
      (i + 2 < |bs| && !bs[i + 1].used ==> Size(bs, i + 1, header) + Size(bs, i, header) <= n + MINIALLOC)
    }

    /** `rt_memheap_realloc` when the block grows into its free right neighbour. */
    method GrowBlock(ptr: nat, next: nat, n: nat, oldsize: nat, ghost i: nat)
      requires Valid() && i < |blocks| - 2 && blocks[i] == Block(ptr, true) && blocks[i + 1] == Block(next, false)
      requires oldsize == Size(blocks, i, header) < n && !Moves(blocks, i, n) && n % ALIGN_SIZE == 0
      modifies this, phys, free, used, data
      ensures Valid()
      ensures Payloads() ==
                old(Payloads()) - {RangeOf(old(blocks), i, header)} + {Range(ptr + header, ptr + header + n)}
      ensures forall o :: 0 <= o < data.Length && InLive(old(Payloads()), o) ==> data[o] == old(data[o])
    {
      ghost var bs, s := blocks, FreeAddrs(blocks);
      var cut := ptr + header + n;
      assert Apart(bs, 0, i, header) && Apart(bs, i + 1, i + 2, header);
      ghost var cs := GrowAll(bs, i, ptr, n, End(), header);
      CutAligned(bs, i, header, n);
      availableSize := availableSize - (n - oldsize);
      if poolSize - availableSize > maxUsedSize {
        maxUsedSize := poolSize - availableSize;
      }
      Unfree(next, s);
      DropBlock(next, i + 1);
      CutBlock(ptr, cut, i);
      assert blocks == cs && Apart(blocks, i + 1, |blocks| - 1, header);
      Push(cut, s - {next});
    }

    /** The second half of a shrinking `rt_memheap_realloc`: the tail that was cut off joins the free blocks. */
    method AddTail(cut: nat, ghost k: nat)
      requires Loose(cut, k, false) && availableSize == Weigh(blocks, false, header) - Size(blocks, k, header)
      requires poolSize - availableSize <= maxUsedSize
      modifies this`blocks, this`ring, this`availableSize, phys, free
      ensures Valid() && Payloads() == old(Payloads())
    {
      assert At(phys[..], Ats(blocks), k) && Flag(used[..], blocks, k + 1);
      assert Ats(blocks)[k] == cut && Ats(blocks)[k + 1] == blocks[k + 1].at;
      assert Apart(blocks, 0, k, header) && Apart(blocks, k, k + 1, header);
      var next := phys[cut].next;
      if !used[next] {
        assert Apart(blocks, k + 1, k + 2, header);
        var gone := ItemSize(next, k + 1);
        availableSize := availableSize - gone;
        SwallowRight(cut, next, k, false);
      } else {
        NothingToPlug(blocks, k);
      }
      assert AddrOf(blocks, k) in FreeAddrs(blocks) && Apart(blocks, k, |blocks| - 1, header);
      ghost var s := FreeAddrs(blocks) - {cut};
      Push(cut, s);
      assert s + {cut} == FreeAddrs(blocks);
      assert Apart(blocks, k, k + 1, header);
      var gain := ItemSize(cut, k);
      availableSize := availableSize + gain;
    }

    /** `rt_memheap_realloc` when the block shrinks. */
    method ShrinkBlock(ptr: nat, n: nat, ghost i: nat)
      requires Valid() && i < |blocks| - 1 && blocks[i] == Block(ptr, true)
      requires 0 < n && n + header + MINIALLOC < Size(blocks, i, header) && n % ALIGN_SIZE == 0
      modifies this, phys, free, used, data
      ensures Valid()
      ensures Payloads() ==
                old(Payloads()) - {RangeOf(old(blocks), i, header)} + {Range(ptr + header, ptr + header + n)}
      ensures forall o :: 0 <= o < data.Length && InLive(Payloads(), o) ==> data[o] == old(data[o])
    {
      var cut := ptr + header + n;
      ShrinkFacts(blocks, i, cut, End(), header);
      CutAligned(blocks, i, header, n);
      CutBlock(ptr, cut, i);
      assert free[..] == old(free[..]);
      assert FreeAddrs(blocks) - {cut} == old(FreeAddrs(blocks));
      AddTail(cut, i + 1);
    }

    /** `rt_memcpy` from payload `s` into payload `t`. */
    method Copy(ghost t: Range, ghost s: Range, dst: nat, src: nat, len: nat)
      requires Valid() && t in Payloads() && s in Payloads() && t != s
      requires dst == t.lo && dst + len <= t.hi <= data.Length && src == s.lo && src + len <= s.hi <= data.Length
      modifies data
      ensures forall k :: dst <= k < dst + len ==> data[k] == old(data[src + (k - dst)])
      ensures forall k :: 0 <= k < data.Length && !(dst <= k < dst + len) ==> data[k] == old(data[k])
    {
      LiveDisjoint(blocks, header, End(), header, t, s);
      forall k | dst <= k < dst + len {
        data[k] := data[src + (k - dst)];
      }
    }

    /** Copy the first `len` bytes of payload `s` into payload `t`, then free `s`. */
    method HandOver(ghost t: Range, ghost s: Range, q: nat, p: nat, len: nat)
      requires Valid() && t in Payloads() && s in Payloads() && s != t && q == t.lo && p == s.lo
      requires q + len <= t.hi <= data.Length && p + len <= s.hi <= data.Length
      requires forall r :: r in Payloads() && r != t ==> r.hi <= t.lo || t.hi <= r.lo
      modifies this, phys, free, used, data
      ensures Valid() && Payloads() == old(Payloads()) - {s}
      ensures Carried(old(data[..]), data[..], p, q, len)
      ensures forall o :: 0 <= o < data.Length && InLive(old(Payloads()) - {s} - {t}, o) ==> data[o] == old(data[o])
    {
      ghost var c1 := data[..];
      Copy(t, s, q, p, len);
      ghost var c2 := data[..];
      Free(Some(p));
      assert data[..] == c2;
      HandOverContents(c1, c2, data[..], old(Payloads()), s, t, len);
    }

    /** Allocate, copy and free: `rt_memheap_realloc` when the payload moves. */
    method MovePayload(p: nat, n: nat, oldsize: nat, ghost s: Range) returns (r: Option<nat>)
      requires Valid() && s in Payloads() && p == s.lo && oldsize == s.hi - s.lo < n && s.hi <= data.Length
      requires Rounded(n) == n
      modifies this, phys, free, used, data
      ensures Valid()
      ensures r.None? <==> n >= old(availableSize) || NoFit(old(blocks), n, header)
      ensures r.None? ==> blocks == old(blocks) && ring == old(ring) && data[..] == old(data[..])
      ensures r.Some? ==> Replaced(old(Payloads()), s, n, r.value) && !InLive(old(Payloads()), r.value)
      ensures r.Some? ==> Carried(old(data[..]), data[..], s.lo, r.value, oldsize)
      ensures forall o :: 0 <= o < data.Length && InLive(old(Payloads()) - {s}, o) ==> data[o] == old(data[o])
    {
      InLiveGrows(Payloads() - {s}, Payloads());
      ghost var i, t;
      r, i, t := Alloc(n);
      if r.Some? {
        ghost var c1 := data[..];
        NewRange(old(Payloads()), t);
        HandOver(t, s, r.value, p, Least(oldsize, n));
        assert old(Payloads()) + {t} - {s} - {t} == old(Payloads()) - {s};
        assert Payloads() == old(Payloads()) - {s} + {t};
        CarriedFrom(old(data[..]), c1, data[..], old(Payloads()), s, r.value, Least(oldsize, n));
      }
    }

    /** A payload that was added to the ones in use meets none of them. */
    lemma NewRange(live: set<Range>, t: Range)
      requires Valid() && Payloads() == live + {t} && t !in live && t.lo < t.hi
      ensures forall r :: r in live ==> r.hi <= t.lo || t.hi <= r.lo
      ensures !InLive(live, t.lo)
    {
      forall r | r in live ensures r.hi <= t.lo || t.hi <= r.lo {
        LiveDisjoint(blocks, header, End(), header, r, t);
      }
    }

    /** Payload `s` gave way to one of at least `n` bytes at `p`. */
    ghost predicate Replaced(live: set<Range>, s: Range, n: nat, p: nat)
      reads this
    {
      exists e: nat :: n <= e - p <= n + header + 12 && e <= End() && Payloads() == live - {s} + {Range(p, e)}
    }

    /** The size of a payload that stays: what was asked for, or what it was if the rest is too small for a block. */
    ghost function StaySize(bs: seq<Block>, i: nat, n: nat): int
      requires i < |bs| - 1
    {
      if n <= Size(bs, i, header) <= n + header + 12 then Size(bs, i, header) else n
    }

    /** What a call of `rt_memheap_realloc` on the payload of block `i` came to. */
    ghost predicate Resized(bs: seq<Block>, rg: seq<nat>, available: int, d: seq<bv8>, i: nat, n: nat, r: Option<nat>)
      requires i < |bs| - 1 && Size(bs, i, header) >= 0
      reads this, data
    {
      var live, s := Live(bs, header), RangeOf(bs, i, header);
      && (r.None? <==> Moves(bs, i, n) && (n >= available || NoFit(bs, n, header)))
      && (r.None? ==> blocks == bs && ring == rg && data[..] == d)
      && (r.Some? ==>
          Replaced(live, s, n, r.value) && Carried(d, data[..], s.lo, r.value, Least(Size(bs, i, header), n)))
      && (r.Some? ==>
          if Moves(bs, i, n) then !InLive(live, r.value)
          else r.value == s.lo && Payloads() == live - {s} + {Range(s.lo, s.lo + StaySize(bs, i, n))})
      && |d| == data.Length && forall o :: 0 <= o < data.Length && InLive(live - {s}, o) ==> data[o] == d[o]
    }

    method GrowLive(p: nat, next: nat, n: nat, oldsize: nat, ghost i: nat)
      requires Valid()
      requires i < |blocks| - 2 && p >= header && blocks[i] == Block(p - header, true)
      requires blocks[i + 1] == Block(next, false)
      requires oldsize == Size(blocks, i, header) < n && !Moves(blocks, i, n) && n % ALIGN_SIZE == 0
      modifies this, phys, free, used, data
      ensures Valid() && Resized(old(blocks), old(ring), old(availableSize), old(data[..]), i, n, Some(p))
    {
      ghost var s := RangeOf(blocks, i, header);
      OnePayload(blocks, header, End(), header, s);
      GrowBlock(p - header, next, n, oldsize, i);
      OnePayload(blocks, header, End(), header, Range(p, p + n));
      KeptContents(old(data[..]), data[..], old(Payloads()), s, oldsize);
    }

    method ShrinkLive(p: nat, n: nat, ghost i: nat)
      requires Valid() && i < |blocks| - 1 && p >= header && blocks[i] == Block(p - header, true)
      requires 0 < n && n + header + MINIALLOC < Size(blocks, i, header) && n % ALIGN_SIZE == 0
      modifies this, phys, free, used, data
      ensures Valid() && Resized(old(blocks), old(ring), old(availableSize), old(data[..]), i, n, Some(p))
    {
      ghost var s := RangeOf(blocks, i, header);
      OnePayload(blocks, header, End(), header, s);
      ShrinkBlock(p - header, n, i);
      ShrunkContents(old(data[..]), data[..], old(Payloads()), s, n);
    }

    /** `rt_memheap_realloc` of the payload of block `i`, once the size has been rounded. */
    method ReallocBlock(p: nat, n: nat, ghost i: nat) returns (r: Option<nat>)
      requires Valid() && i < |blocks| - 1 && blocks[i].used && p == blocks[i].at + header
      requires Rounded(n) == n && n > 0 && n % ALIGN_SIZE == 0 && Size(blocks, i, header) >= 0
      modifies this, phys, free, used, data
      ensures Valid() && Resized(old(blocks), old(ring), old(availableSize), old(data[..]), i, n, r)
    {
      var ptr := p - header;
      ghost var s := RangeOf(blocks, i, header);
      OnePayload(blocks, header, End(), header, s);
      var oldsize := ItemSize(ptr, i);
      if n > oldsize {
        assert At(phys[..], Ats(blocks), i) && Flag(used[..], blocks, i + 1);
        assert Ats(blocks)[i] == ptr && Ats(blocks)[i + 1] == blocks[i + 1].at;
        var next := phys[ptr].next;
        if !used[next] {
          assert Apart(blocks, i + 1, i + 2, header);
          var nextsize := ItemSize(next, i + 1);
          if nextsize + oldsize > n + MINIALLOC {
            GrowLive(p, next, n, oldsize, i);
            return Some(p);
          }
        }
        r := MovePayload(p, n, oldsize, s);
        return r;
      }
      if n + header + MINIALLOC >= oldsize {
        assert Payloads() == Payloads() - {s} + {Range(p, p + oldsize)};
        InLiveGrows(Payloads() - {s}, Payloads());
        return Some(p);
      }
      ShrinkLive(p, n, i);
      return Some(p);
    }

    /** `rt_memheap_realloc` of a null pointer, once the size has been rounded. */
    method ReallocNull(n: nat) returns (r: Option<nat>)
      requires Valid() && Rounded(n) == n
      modifies this, phys, free, used, data
      ensures Valid() && Intact(old(Payloads()), Payloads(), old(data[..]), data[..], -1)
      ensures r.Some? ==> exists i: nat, t: Range :: Served(old(blocks), old(ring), i, n, r.value, t)
      ensures r.None? <==> n >= old(availableSize) || NoFit(old(blocks), n, header)
    {
      ghost var live, d := Payloads(), data[..];
      ghost var i, t;
      r, i, t := Alloc(n);
      IntactIf(live, Payloads(), live, d, data[..], -1);
    }

    /** `rt_memheap_realloc` of a payload in use, once the size has been rounded. */
    method ReallocSome(p: nat, n: nat) returns (r: Option<nat>)
      requires Valid() && (exists s :: s in Payloads() && s.lo == p) && Rounded(n) == n > 0 && n % ALIGN_SIZE == 0
      modifies this, phys, free, used, data
      ensures Valid() && Intact(old(Payloads()), Payloads(), old(data[..]), data[..], p)
      ensures forall i :: 0 <= i < |old(blocks)| - 1 && old(blocks)[i].used && p == old(blocks)[i].at + header ==>
                && Size(old(blocks), i, header) >= 0
                && Resized(old(blocks), old(ring), old(availableSize), old(data[..]), i, n, r)
    {
      ghost var live, d := Payloads(), data[..];
      ghost var s :| s in Payloads() && s.lo == p;
      ghost var i :| 0 <= i < |blocks| - 1 && blocks[i].used && s == RangeOf(blocks, i, header);
      StandsAlone(blocks, i, header, End(), header);
      assert Apart(blocks, i, i + 1, header);
      OnePayload(blocks, header, End(), header, s);
      r := ReallocBlock(p, n, i);
      IntactIf(live, Payloads(), live - {s}, d, data[..], p);
    }

    /** `rt_memheap_realloc`. */
    method Realloc(ptr: Option<nat>, newsize: nat) returns (r: Option<nat>)
      requires Valid() && (ptr.Some? ==> exists s :: s in Payloads() && s.lo == ptr.value)
      modifies this, phys, free, used, data
      ensures Valid()
      ensures newsize == 0 ==> r.None? && (ptr.None? ==> blocks == old(blocks))
      ensures newsize == 0 ==>
                forall s :: s in old(Payloads()) && ptr == Some(s.lo) ==> Payloads() == old(Payloads()) - {s}
      ensures newsize > 0 && ptr.None? && r.Some? ==>
                exists i: nat, t: Range :: Served(old(blocks), old(ring), i, Rounded(newsize), r.value, t)
      ensures newsize > 0 && ptr.None? ==>
                (r.None? <==> Rounded(newsize) >= old(availableSize) || NoFit(old(blocks), Rounded(newsize), header))
      ensures newsize > 0 && ptr.Some? ==>
                forall i ::
                  0 <= i < |old(blocks)| - 1 && old(blocks)[i].used && ptr == Some(old(blocks)[i].at + header) ==>
                  && Size(old(blocks), i, header) >= 0
                  && Resized(old(blocks), old(ring), old(availableSize), old(data[..]), i, Rounded(newsize), r)
      ensures Intact(old(Payloads()), Payloads(), old(data[..]), data[..], if ptr.Some? then ptr.value else -1)
    {
      ghost var live, d := Payloads(), data[..];
      if newsize == 0 {
        Free(ptr);
        IntactIf(live, Payloads(), Payloads(), d, data[..], if ptr.Some? then ptr.value else -1);
        return None;
      }
      RoundedTwice(newsize);
      var n := AlignUp(newsize);
      if n < MINIALLOC {
        n := MINIALLOC;
      }
      if ptr.None? {
        r := ReallocNull(n);
      } else {
        r := ReallocSome(ptr.value, n);
      }
    }

    // ----- the heap as a memory of objects -----

    /** Payloads begin at addresses of their own. */
    lemma AllPlaced()
      requires Valid()
      ensures Placed(Payloads(), data.Length)
    {
      forall s | s in Payloads() ensures s.hi <= data.Length && forall t :: t in Payloads() && t.lo == s.lo ==> t == s {
        OnePayload(blocks, header, End(), header, s);
      }
    }

    method DoAllocate(held: seq<Option<Grant>>, size: nat) returns (more: seq<Option<Grant>>)
      requires Valid() && Owning(held, Payloads())
      modifies this, phys, free, used, data
      ensures Valid() && Owning(more, Payloads()) && (old(Whole(held, Payloads())) ==> Whole(more, Payloads()))
      ensures |more| == |held| + if Rounded(size) >= old(availableSize) || NoFit(old(blocks), Rounded(size), header)
        then 0
                                 else 1
      ensures Step(Allocate(size), old(Contents(held, data[..])), Contents(more, data[..]))
    {
      ghost var live, d := Payloads(), data[..];
      more := held;
      var r, i, t := Alloc(size);
      IntactIf(live, Payloads(), live, d, data[..], -1);
      AllPlaced();
      if r.Some? {
        AlignUpFacts(size);
        NewRange(live, t);
        Allocated(held, live, Payloads(), d, data[..], t, size);
        more := held + [Some(Grant(r.value, size))];
        if Whole(held, live) { WholeMore(held, live, t, size); }
      } else {
        OthersKept(held, live, Payloads(), d, data[..], -1);
      }
    }

    method DoRelease(held: seq<Option<Grant>>, k: nat) returns (rest: seq<Option<Grant>>)
      requires Valid() && Owning(held, Payloads()) && k < |held| && held[k].Some?
      modifies this, phys, free, used
      ensures Valid() && Owning(rest, Payloads()) && rest == held[k := None]
      ensures old(Whole(held, Payloads())) ==> Whole(rest, Payloads())
      ensures Step(Release(k), old(Contents(held, data[..])), Contents(rest, data[..]))
    {
      ghost var live, d := Payloads(), data[..];
      AllPlaced();
      assert Granted(held[k].value, live);
      ghost var s :| s in live && s.lo == held[k].value.ptr && s.lo + held[k].value.size <= s.hi;
      Free(Some(held[k].value.ptr));
      rest := held[k := None];
      if Whole(held, live) { WholeLess(held, k, live, s, data.Length); }
      IntactIf(live, Payloads(), Payloads(), d, data[..], held[k].value.ptr);
      Released(held, k, live, Payloads(), d, data[..]);
    }

    /** The payload that took over from the one of block `i`. */
    lemma ResizedTo(bs: seq<Block>, rg: seq<nat>, available: int, d: seq<bv8>, i: nat, n: nat, p: nat)
      returns (t: Range, len: nat)
      requires i < |bs| - 1 && Size(bs, i, header) >= 0 && Resized(bs, rg, available, d, i, n, Some(p))
      ensures t in Payloads() && t.lo == p && t.lo + n <= t.hi
      ensures Payloads() == Live(bs, header) - {RangeOf(bs, i, header)} + {t}
      ensures t.lo == RangeOf(bs, i, header).lo || !InLive(Live(bs, header), t.lo)
      ensures Carried(d, data[..], RangeOf(bs, i, header).lo, t.lo, len) && len == Least(Size(bs, i, header), n)
    {
      var live, s := Live(bs, header), RangeOf(bs, i, header);
      var e: nat :| n <= e - p && e <= End() && Payloads() == live - {s} + {Range(p, e)};
      t, len := Range(p, e), Least(Size(bs, i, header), n);
    }

    /** `rt_memheap_realloc` fails: the payload at `p` has to move, and nothing fits. */
    ghost predicate Refuses(p: nat, n: nat)
      reads this`blocks, this`availableSize
    {
      && (n >= availableSize || NoFit(blocks, n, header))
      && exists i :: 0 <= i < |blocks| - 1 && blocks[i].used && blocks[i].at + header == p && Moves(blocks, i, n)
    }

    lemma RefusesIs(i: nat, n: nat)
      requires Valid() && i < |blocks| - 1 && blocks[i].used
      ensures Refuses(blocks[i].at + header, n) <==>
        (n >= availableSize || NoFit(blocks, n, header)) && Moves(blocks, i, n)
    {
      forall j | 0 <= j < |blocks| - 1 && blocks[j].at == blocks[i].at ensures j == i {
        assert j < i ==> Apart(blocks, j, i, header);
        assert i < j ==> Apart(blocks, i, j, header);
      }
    }

    /** `rt_memheap_realloc`, naming the payload `t` that payload `s` gave way to. */
    method ReallocTo(p: nat, size: nat, ghost s: Range) returns (r: Option<nat>, ghost t: Range, ghost len: nat)
      requires Valid() && s in Payloads() && s.lo == p <= s.hi && size > 0
      modifies this, phys, free, used, data
      ensures Valid() && Intact(old(Payloads()), Payloads(), old(data[..]), data[..], p)
      ensures r.None? <==> old(Refuses(p, Rounded(size)))
      ensures r.None? ==> Payloads() == old(Payloads()) && data[..] == old(data[..])
      ensures r.Some? ==> Payloads() == old(Payloads()) - {s} + {t}
      ensures r.Some? ==>
                t in Payloads() && t.lo == r.value && t.lo + size <= t.hi &&
                (t.lo == p || !InLive(old(Payloads()), t.lo))
      ensures r.Some? ==> Carried(old(data[..]), data[..], p, t.lo, len) && len >= Least(s.hi - s.lo, size)
    {
      ghost var i :| 0 <= i < |blocks| - 1 && blocks[i].used && s == RangeOf(blocks, i, header);
      ghost var bs, rg, available, d := blocks, ring, availableSize, data[..];
      AlignUpFacts(size);
      RefusesIs(i, Rounded(size));
      r := Realloc(Some(p), size);
      assert Resized(bs, rg, available, d, i, Rounded(size), r);
      t, len := s, 0;
      if r.Some? {
        t, len := ResizedTo(bs, rg, available, d, i, Rounded(size), r.value);
      }
    }

    method DoResize(held: seq<Option<Grant>>, k: nat, size: nat) returns (moved: seq<Option<Grant>>)
      requires Valid() && Owning(held, Payloads()) && k < |held| && held[k].Some?
      modifies this, phys, free, used, data
      ensures Valid() && Owning(moved, Payloads()) && (old(Whole(held, Payloads())) ==> Whole(moved, Payloads()))
      ensures if size == 0 then moved == held[k := None]
              else if old(Refuses(held[k].value.ptr, Rounded(size))) then moved == held
              else |moved| == |held| && moved == held[k := moved[k]] && moved[k].Some? && moved[k].value.size == size
      ensures Step(Resize(k, size), old(Contents(held, data[..])), Contents(moved, data[..]))
    {
      ghost var live, c := Payloads(), data[..];
      AllPlaced();
      var g := held[k].value;
      assert Granted(g, live);
      ghost var s :| s in live && s.lo == g.ptr && g.ptr + g.size <= s.hi;
      if size == 0 {
        moved := held[k := None];
        var r := Realloc(Some(g.ptr), 0);
        Released(held, k, live, Payloads(), c, data[..]);
        if Whole(held, live) { WholeLess(held, k, live, s, data.Length); }
        return;
      }
      var r, t, len := ReallocTo(g.ptr, size, s);
      AllPlaced();
      moved := held;
      if r.Some? {
        moved := held[k := Some(Grant(r.value, size))];
        Moved(held, k, live, Payloads(), c, data[..], t, size, len);
        if Whole(held, live) { WholeMoved(held, k, live, s, t, size, data.Length); }
      }
    }

    /** The caller writes one byte of its object. */
    method DoStore(held: seq<Option<Grant>>, k: nat, at: nat, value: bv8)
      requires Valid() && Owning(held, Payloads()) && k < |held| && held[k].Some? && at < held[k].value.size
      modifies data
      ensures Valid()
      ensures Step(Objects.Op.Store(k, at, value), old(Contents(held, data[..])), Contents(held, data[..]))
    {
      ghost var live, d := Payloads(), data[..];
      AllPlaced();
      var p := held[k].value.ptr + at;
      assert Granted(held[k].value, live);
      ghost var s :| s in live && s.lo == held[k].value.ptr && p < s.hi;
      data[p] := value;
      assert data[..] == d[p := value];
      forall t | t in live && t.lo != s.lo ensures !(t.lo <= p < t.hi) {
        LiveDisjoint(blocks, header, End(), header, s, t);
      }
      Stored(held, k, at, value, live, d, data[..]);
    }

    /** When an operation is refused. */
    twostate predicate Exact(op: Op<bv8>, held: seq<Option<Grant>>, new now: seq<Option<Grant>>)
      reads this`blocks, this`availableSize
    {
      match op
      case Allocate(size) =>
        |now| == |held| + if Rounded(size) >= old(availableSize) || NoFit(old(blocks), Rounded(size), header) then 0
        else 1
      case Resize(k, size) =>
        k < |held| && held[k].Some? && size > 0 ==>
          if old(Refuses(held[k].value.ptr, Rounded(size))) then now == held
          else |now| == |held| && now[k].Some? && now[k].value.size == size
      case _ => true
    }

    method Do(op: Op<bv8>, held: seq<Option<Grant>>) returns (now: seq<Option<Grant>>)
      requires Valid() && Owning(held, Payloads())
      modifies this, phys, free, used, data
      ensures Valid() && Owning(now, Payloads()) && (old(Whole(held, Payloads())) ==> Whole(now, Payloads()))
      ensures Exact(op, held, now)
      ensures Step(op, old(Contents(held, data[..])), Contents(now, data[..]))
    {
      AllPlaced();
      now := held;
      match op
      case Allocate(size) => now := DoAllocate(held, size);
      case Release(k) =>
        if k < |held| && held[k].Some? { now := DoRelease(held, k); }
      case Resize(k, size) =>
        if k < |held| && held[k].Some? { now := DoResize(held, k, size); }
      case Store(k, at, value) =>
        if k < |held| && held[k].Some? {
          assert Granted(held[k].value, Payloads());
          if at < held[k].value.size { DoStore(held, k, at, value); }
        }
    }

    /** Any run of any program: the heap is a memory of separate objects (see `Objects.ReadsLastStored`). */
    method Run(ops: seq<Op<bv8>>, first: seq<Option<Grant>>)
      returns (held: seq<Option<Grant>>, ghost trace: seq<Memory<bv8>>)
      requires Valid() && Owning(first, Payloads())
      modifies this, phys, free, used, data
      ensures Valid() && Owning(held, Payloads()) && (old(Whole(first, Payloads())) ==> Whole(held, Payloads()))
      ensures Trace(ops, trace) && trace[0] == old(Contents(first, data[..]))
      ensures trace[|ops|] == Contents(held, data[..])
    {
      held := first;
      trace := [Contents(first, data[..])];
      for i := 0 to |ops|
        invariant Valid() && Owning(held, Payloads()) && (old(Whole(first, Payloads())) ==> Whole(held, Payloads()))
        invariant |trace| == i + 1 && trace[0] == old(Contents(first, data[..])) && trace[i] == Contents(held, data[..])
        invariant forall j :: 0 <= j < i ==> Step(ops[j], trace[j], trace[j + 1])
      {
        held := Do(ops[i], held);
        trace := trace + [Contents(held, data[..])];
      }
    }

    /** Freeing what was just allocated restores the block list and the number of available bytes. */
    method AllocThenFree(size: nat)
      requires Valid()
      modifies this, phys, free, used, data
      ensures Valid() && blocks == old(blocks) && availableSize == old(availableSize)
      ensures forall o :: 0 <= o < data.Length && InLive(old(Payloads()), o) ==> data[o] == old(data[o])
    {
      var r, i, t := Alloc(size);
      if r.Some? {
        Free(r);
        assert Payloads() == old(Payloads());
        Canonical(blocks, old(blocks), header, End(), header);
      }
    }
  }
}

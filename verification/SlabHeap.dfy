/** The heap of rt-thread/src/slab.c: the zones of `Zones` on the pages of `Pages`.

    A call takes and releases the heap lock several times; one method is what happens under one lock.  Pages that a
    thread has got but not yet made a zone of, or taken from a zone but not yet given back, are in its hands. */
module SlabHeap {
  import opened Common
  import opened Pages
  import opened Zones

  const PAGE: nat := 4096

  /** Pages from `lo` up to `hi` that are in use, by a zone or by a large block. */
  datatype Extent = Extent(lo: nat, hi: nat, zone: bool)

  /** Where a thread stands between two locks. */
  datatype Phase = Idle | Needing(size: nat) | Opening(size: nat, zone: nat) | Releasing(zone: nat)
  {
    predicate Flies() { Opening? || Releasing? }
  }

  /** What a program was given: a chunk of so many bytes, or pages. */
  datatype Block = Small(chunk: Chunk, bytes: nat) | Large(at: nat, n: nat)

  datatype Step =
    | BeginStep(thread: nat, size: nat)
    | FetchStep(thread: nat)
    | OpenStep(thread: nat)
    | FreeStep(thread: nat, k: nat)
    | ReturnStep(thread: nat)

  /** The first byte of a block, from the start of the heap, and the one behind it. */
  function First(b: Block): nat
    requires b.Small? ==> b.bytes > 0
  {
    match b
    case Small(c, bytes) => c.zone * PAGE + Offset(bytes) + c.number * bytes
    case Large(at, n) => at * PAGE
  }

  function Length(b: Block): nat {
    match b
    case Small(_, bytes) => bytes
    case Large(_, n) => n * PAGE
  }

  /** A small request gets a chunk that wastes at most seven bytes or an eighth of the size, any other one the fewest
      pages that hold it. */
  predicate Suits(b: Block, size: nat, limit: nat) {
    if size < limit
    then b.Small? && 0 < size <= b.bytes && b.bytes - size <= if size / 8 > 7 then size / 8 else 7
    else b.Large? && (b.n - 1) * PAGE < size <= b.n * PAGE
  }

  /** What a program holds, and where its threads stand. */
  datatype State = State(held: seq<Option<Block>>, phases: seq<Phase>)

  ghost predicate GainedBy(s: State, u: State, size: nat, limit: nat) {
    |u.held| == |s.held| + 1 && u.held[..|s.held|] == s.held && u.held[|s.held|].Some? &&
    Suits(u.held[|s.held|].value, size, limit)
  }

  /** What each step may do: a request is served at once, or the thread goes on to ask for a zone if it is small, or
      it is refused if it is large; the zone is given or refused; and a block given back is held no more. */
  ghost predicate Steps(limit: nat, step: Step, s: State, u: State) {
    var t := step.thread;
    if t >= |s.phases| then u == s
    else
      var p := s.phases[t];
      match step
      case BeginStep(_, size) =>
        if p != Idle || size == 0 then u == s
        else if size < limit
          then u == s.(phases := s.phases[t := Needing(size)]) || (GainedBy(s, u, size, limit) && u.phases == s.phases)
        else u == s || (GainedBy(s, u, size, limit) && u.phases == s.phases)
      case FetchStep(_) =>
        if !p.Needing? then u == s
        else
          && u.held == s.held && |u.phases| == |s.phases| && u.phases == s.phases[t := u.phases[t]]
          && (u.phases[t] == Idle || (u.phases[t].Opening? && u.phases[t].size == p.size))
      case OpenStep(_) =>
        if p.Opening? then GainedBy(s, u, p.size, limit) && u.phases == s.phases[t := Idle] else u == s
      case FreeStep(_, k) =>
        if p != Idle || k >= |s.held| || s.held[k].None? then u == s
        else
          && u.held == s.held[k := None] && |u.phases| == |s.phases| && u.phases == s.phases[t := u.phases[t]]
          && (u.phases[t] == Idle || u.phases[t].Releasing?)
      case ReturnStep(_) => u == if p.Releasing? then s.(phases := s.phases[t := Idle]) else s
  }

  ghost predicate Apart(e: Extent, f: Extent) {
    e != f ==> e.hi <= f.lo || f.hi <= e.lo
  }

  class Heap {
    const slab: Slab
    const pages: PageList
    const count: nat
    const phase: array<Phase>
    ghost var extents: set<Extent>

    ghost predicate Parts() {
      && slab.zones.Length == pages.total && count > 0 && count * PAGE == slab.zoneSize
      && slab.zones as object != phase && slab.classes as object != phase
      && pages.next as object != phase && pages.pages as object != phase
      && slab.zones as object != pages.next && slab.zones as object != pages.pages
      && slab.classes as object != pages.next && slab.classes as object != pages.pages
    }

    ghost predicate ExtentOk(e: Extent)
      reads pages, pages.pages
    {
      e.lo < e.hi <= pages.total && (e.zone ==> e.hi == e.lo + count) && pages.InUse(e.lo, e.hi - e.lo)
    }

    /** No two zones or large blocks share a page, and none has a free one. */
    ghost predicate ExtentsOk()
      reads this`extents, pages, pages.pages
    {
      && (forall e :: e in extents ==> ExtentOk(e))
      && forall e, f :: e in extents && f in extents ==> Apart(e, f)
    }

    ghost predicate Covered(p: nat)
      reads this`extents
    {
      exists e :: e in extents && e.lo <= p < e.hi
    }

    /** No page is lost: what is not free belongs to a zone or a large block. */
    ghost predicate PageKept(p: nat)
      reads this`extents, pages, pages.next, pages.pages
    {
      pages.Valid() && p < pages.total && !Has(pages.Runs(), p) ==> Covered(p)
    }

    function ZoneAt(z: nat): Extent {
      Extent(z, z + count, true)
    }

    ghost predicate OwnedOk(z: nat)
      reads this`extents, slab`active, slab`cached
    {
      slab.Owns(z) ==> ZoneAt(z) in extents
    }

    ghost predicate Carries(t: nat, z: nat)
      reads phase
    {
      t < phase.Length && phase[t].Flies() && phase[t].zone == z
    }

    /** A zone that is not owned is in the hands of a thread. */
    ghost predicate ZoneKept(e: Extent)
      reads this`extents, slab`active, slab`cached, phase
    {
      e in extents && e.zone ==> slab.Owns(e.lo) || exists t: nat :: Carries(t, e.lo)
    }

    /** The pages in the hands of thread `t` are nobody else's. */
    ghost predicate FlightOk(t: nat)
      reads this`extents, slab`active, slab`cached, phase
    {
      t < phase.Length ==>
        && (phase[t].Needing? || phase[t].Opening? ==> 0 < phase[t].size < slab.zoneLimit)
        && (phase[t].Flies() ==>
              && ZoneAt(phase[t].zone) in extents && !slab.Owns(phase[t].zone)
              && forall u :: 0 <= u < phase.Length && u != t && phase[u].Flies() ==> phase[u].zone != phase[t].zone)
    }

    ghost predicate Valid()
      reads this, slab, slab.zones, slab.classes, pages, pages.next, pages.pages, phase
    {
      && Parts() && slab.Valid() && PagesOk()
      && (forall e: Extent {:trigger ZoneKept(e)} :: ZoneKept(e))
      && (forall z: nat {:trigger OwnedOk(z)} :: OwnedOk(z))
      && (forall t: nat {:trigger FlightOk(t)} :: FlightOk(t))
    }

    ghost predicate Live(b: Block)
      reads this`extents, slab`active, slab.zones
    {
      match b
      case Small(c, bytes) => slab.Live(c) && c.zone < slab.zones.Length && slab.zones[c.zone].index < NZONES
        && bytes == ChunkSize(slab.zones[c.zone].index)
      case Large(at, n) => Extent(at, at + n, false) in extents
    }

    // ----- pages -----

    ghost predicate PagesOk()
      reads this`extents, pages, pages.next, pages.pages
    {
      pages.Valid() && ExtentsOk() && forall p: nat {:trigger PageKept(p)} :: PageKept(p)
    }

    /** `rt_page_alloc`: the pages were free, so they are nobody's. */
    method GetPages(n: nat, ghost zone: bool) returns (at: Option<nat>)
      requires PagesOk() && n > 0 && (zone ==> n == count)
      modifies this`extents, pages, pages.next, pages.pages
      ensures PagesOk()
      ensures at.None? ==> extents == old(extents)
      ensures at.None? <==> forall k :: 0 <= k < |old(pages.Runs())| ==> old(pages.Runs())[k].n < n
      ensures at.Some? ==>
                at.value + n <= pages.total && extents == old(extents) + {Extent(at.value, at.value + n, zone)}
      ensures at.Some? ==> forall e :: e in old(extents) ==> e.hi <= at.value || at.value + n <= e.lo
    {
      ghost var rs := pages.Runs();
      ghost var i;
      at, i := pages.Alloc(n);
      if at.Some? {
        var a := at.value;
        assert Pages.Fits(rs, i, pages.total);
        forall p | a <= p < a + n ensures Has(rs, p) && !Has(pages.Runs(), p) {
          assert rs[i].at <= p < rs[i].at + rs[i].n;
        }
        forall e | e in extents ensures (e.hi <= a || a + n <= e.lo) && ExtentOk(e) {
          assert old(ExtentOk(e));
          var p := if e.lo < a then a else e.lo;
          assert (a <= p < a + n ==> Has(rs, p)) && (e.lo <= p < e.hi ==> !Has(rs, p));
        }
        ghost var got := Extent(a, a + n, zone);
        extents := extents + {got};
        forall p: nat ensures PageKept(p) {
          assert got in extents && (a <= p < a + n ==> got.lo <= p < got.hi);
          assert old(PageKept(p)) && (old(Covered(p)) ==> Covered(p));
        }
      } else {
        forall e | e in extents ensures ExtentOk(e) {
          assert old(ExtentOk(e));
        }
        forall p: nat ensures PageKept(p) {
          assert old(PageKept(p)) && (old(Covered(p)) ==> Covered(p));
        }
      }
    }

    /** `rt_page_free` of pages in use. */
    method PutPages(a: nat, n: nat, ghost zone: bool)
      requires PagesOk() && Extent(a, a + n, zone) in extents
      modifies this`extents, pages, pages.next, pages.pages
      ensures PagesOk() && extents == old(extents) - {Extent(a, a + n, zone)}
    {
      ghost var rs, gone := pages.Runs(), Extent(a, a + n, zone);
      assert ExtentOk(gone);
      pages.Free(a, n);
      extents := extents - {gone};
      forall e | e in extents ensures ExtentOk(e) {
        assert old(ExtentOk(e)) && Apart(e, gone);
        forall p {:trigger Has(pages.Runs(), p)} | e.lo <= p < e.hi ensures !Has(pages.Runs(), p) {
          assert !Has(rs, p);
        }
      }
      forall p: nat ensures PageKept(p) {
        assert old(PageKept(p));
        if p < pages.total && !Has(pages.Runs(), p) {
          ghost var e :| e in old(extents) && e.lo <= p < e.hi;
          assert e in extents;
        }
      }
    }

    /** `rt_system_heap_init`, for a heap of `npages` pages of which the first `kept` hold the table of pages. */
    constructor (npages: nat, kept: nat, threads: nat)
      requires 0 < kept <= npages
      ensures Valid() && phase.Length == threads && |extents| == 1
      ensures forall e :: e in extents ==> !e.zone && e.hi == e.lo + kept
      ensures forall t :: 0 <= t < threads ==> phase[t] == Idle
      ensures forall c :: !slab.Live(c)
    {
      var s := new Slab(npages, npages * PAGE);
      slab := s;
      count := s.zoneSize / PAGE;
      pages := new PageList(npages);
      phase := new Phase[threads](_ => Idle);
      extents := {};
      new;
      assert pages.Runs()[0] == Pages.Run.Run(0, npages);
      forall p: nat ensures PageKept(p) {
        assert pages.Runs()[0].at <= p < pages.total ==> Has(pages.Runs(), p);
      }
      var at := GetPages(kept, false);
      forall t: nat ensures FlightOk(t) {
      }
      assert forall z: nat :: OwnedOk(z) && !slab.Owns(z);
    }

    // ----- what happens under one lock -----

    /** The block is in use and suits the request. */
    ghost predicate Given(b: Block, size: nat)
      reads this`extents, slab`active, slab.zones
    {
      Live(b) && Suits(b, size, slab.zoneLimit)
    }

    /** Exactly `b`, if anything, is in use in addition. */
    twostate predicate Added(new b: Option<Block>)
      reads this`extents, slab`active, slab.zones
    {
      && (b.Some? ==> !old(Live(b.value)))
      && forall d: Block :: Live(d) <==> old(Live(d)) || b == Some(d)
    }

    /** `rt_malloc` of a large size. */
    method BeginLarge(size: nat) returns (b: Option<Block>)
      requires Valid() && size >= slab.zoneLimit
      modifies this`extents, pages, pages.next, pages.pages
      ensures Valid() && (b.Some? ==> Given(b.value, size)) && Added(b)
      ensures b.None? <==> forall k :: 0 <= k < |old(pages.Runs())| ==> old(pages.Runs())[k].n * PAGE < size
    {
      var n := (size + PAGE - 1) / PAGE;
      var at := GetPages(n, false);
      forall e: Extent ensures ZoneKept(e) {
        assert old(ZoneKept(e));
        if e in extents && e.zone && !slab.Owns(e.lo) {
          ghost var u: nat :| old(Carries(u, e.lo));
          assert Carries(u, e.lo);
        }
      }
      forall z: nat ensures OwnedOk(z) {
        assert old(OwnedOk(z));
      }
      forall t: nat ensures FlightOk(t) {
        assert old(FlightOk(t));
      }
      return if at.Some? then Some(Large(at.value, n)) else None;
    }

    /** A zone is kept, or one of the class that suits `size` best has a free chunk. */
    ghost predicate Stocked(size: nat)
      reads slab`active, slab`cached, slab.zones
    {
      || slab.cached != []
      || exists z: nat ::
           z in slab.active && z < slab.zones.Length && slab.zones[z].nfree > 0 &&
           slab.zones[z].index == ClassOf(size).index
    }

    /** The first region of `rt_malloc` of a small size. */
    method BeginSmall(t: nat, size: nat) returns (b: Option<Block>)
      requires Valid() && t < phase.Length && phase[t] == Idle && 0 < size < slab.zoneLimit
      modifies slab, slab.zones, slab.classes, phase
      ensures Valid() && (b.Some? ==> Given(b.value, size)) && Added(b)
      ensures b.Some? <==> old(Stocked(size))
      ensures phase[t] == if b.Some? then Idle else Needing(size)
      ensures forall u :: 0 <= u < phase.Length && u != t ==> phase[u] == old(phase[u])
    {
      ClassFits(size);
      assert slab.ListOk(ClassOf(size).index);
      ghost var list := slab.classes[ClassOf(size).index];
      assert list != [] ==> list[0] in list;
      var c := slab.TryMalloc(size);
      b := if c.Some? then Some(Small(c.value, ChunkSize(ClassOf(size).index))) else None;
      if c.None? {
        phase[t] := Needing(size);
      }
      forall e: Extent ensures ZoneKept(e) {
        assert old(ZoneKept(e));
        if e in extents && e.zone && !slab.Owns(e.lo) && !Carries(t, e.lo) {
          ghost var u: nat :| old(Carries(u, e.lo));
          assert Carries(u, e.lo);
        }
      }
      forall z: nat ensures OwnedOk(z) {
        assert old(OwnedOk(z));
      }
      forall u: nat ensures FlightOk(u) {
        assert old(FlightOk(u));
      }
    }

    /** The page allocator is asked for a zone, with the heap lock released. */
    method Fetch(t: nat)
      requires Valid() && t < phase.Length && phase[t].Needing?
      modifies this`extents, pages, pages.next, pages.pages, phase
      ensures Valid() && Added(None)
      ensures phase[t].Idle? || (phase[t].Opening? && phase[t].size == old(phase[t]).size)
      ensures phase[t].Idle? <==> forall k :: 0 <= k < |old(pages.Runs())| ==> old(pages.Runs())[k].n < count
      ensures forall u :: 0 <= u < phase.Length && u != t ==> phase[u] == old(phase[u])
    {
      assert FlightOk(t);
      var z := GetPages(count, true);
      phase[t] := if z.Some? then Opening(phase[t].size, z.value) else Idle;
      if z.Some? {
        assert old(OwnedOk(z.value)) && ZoneAt(z.value) !in old(extents);
        forall u | 0 <= u < phase.Length && u != t && phase[u].Flies() ensures phase[u].zone != z.value {
          assert old(FlightOk(u));
        }
      }
      forall e: Extent ensures ZoneKept(e) {
        assert old(ZoneKept(e));
        if e in extents && e.zone && !slab.Owns(e.lo) && !Carries(t, e.lo) {
          ghost var u: nat :| old(Carries(u, e.lo));
          assert Carries(u, e.lo);
        }
      }
      forall y: nat ensures OwnedOk(y) {
        assert old(OwnedOk(y));
      }
      forall u: nat ensures FlightOk(u) {
        assert old(FlightOk(u));
      }
    }

    /** The last region of `rt_malloc`: the pages become a zone. */
    method Open(t: nat) returns (b: Block)
      requires Valid() && t < phase.Length && phase[t].Opening?
      modifies slab, slab.zones, slab.classes, phase
      ensures Valid() && Given(b, old(phase[t]).size) && Added(Some(b)) && phase[t] == Idle
      ensures forall u :: 0 <= u < phase.Length && u != t ==> phase[u] == old(phase[u])
    {
      assert FlightOk(t);
      var size, z := phase[t].size, phase[t].zone;
      ClassFits(size);
      var c := slab.MallocIn(size, z);
      b := Small(c, ChunkSize(ClassOf(size).index));
      phase[t] := Idle;
      forall e: Extent ensures ZoneKept(e) {
        assert old(ZoneKept(e));
        if e in extents && e.zone && !slab.Owns(e.lo) && !Carries(t, e.lo) {
          ghost var u: nat :| old(Carries(u, e.lo));
          assert Carries(u, e.lo);
        }
      }
      forall y: nat ensures OwnedOk(y) {
        assert old(OwnedOk(y));
      }
      forall u: nat ensures FlightOk(u) {
        assert old(FlightOk(u));
      }
    }

    /** Exactly `b` is in use no more. */
    twostate predicate Removed(new b: Block)
      reads this`extents, slab`active, slab.zones
    {
      forall d: Block :: Live(d) <==> old(Live(d)) && d != b
    }

    /** The chunk is the last one of its zone in use, and its class has another zone with a free one. */
    ghost predicate Retires(c: Chunk)
      reads slab.zones, slab.classes
    {
      c.zone < slab.zones.Length && slab.zones[c.zone].nfree + 1 >= slab.zones[c.zone].max && !slab.Alone(c.zone)
    }

    /** `rt_free` of a chunk; an empty zone may end up in the hands of the thread. */
    method FreeSmall(t: nat, c: Chunk, bytes: nat)
      requires Valid() && t < phase.Length && phase[t] == Idle && Live(Small(c, bytes))
      modifies slab, slab.zones, slab.classes, phase
      ensures Valid() && Removed(Small(c, bytes))
      ensures phase[t] == if old(Retires(c)) && |old(slab.cached)| == ZONE_RELEASE_THRESH then Releasing(c.zone)
                          else Idle
      ensures forall u :: 0 <= u < phase.Length && u != t ==> phase[u] == old(phase[u])
    {
      var z := slab.Free(c);
      if z.Some? {
        phase[t] := Releasing(z.value);
        forall u | 0 <= u < phase.Length && u != t && phase[u].Flies() ensures phase[u].zone != z.value {
          assert old(FlightOk(u));
        }
      }
      forall e: Extent ensures ZoneKept(e) {
        assert old(ZoneKept(e));
        if e in extents && e.zone && !slab.Owns(e.lo) && !Carries(t, e.lo) {
          ghost var u: nat :| old(Carries(u, e.lo));
          assert Carries(u, e.lo);
        }
      }
      forall y: nat ensures OwnedOk(y) {
        assert old(OwnedOk(y));
      }
      forall u: nat ensures FlightOk(u) {
        assert old(FlightOk(u)) && old(OwnedOk(c.zone));
      }
    }

    /** The pages of an empty zone go back to the page allocator. */
    method Return(t: nat)
      requires Valid() && t < phase.Length && phase[t].Releasing?
      modifies this`extents, pages, pages.next, pages.pages, phase
      ensures Valid() && Added(None) && phase[t] == Idle
      ensures forall u :: 0 <= u < phase.Length && u != t ==> phase[u] == old(phase[u])
    {
      assert FlightOk(t);
      var z := phase[t].zone;
      PutPages(z, count, true);
      phase[t] := Idle;
      forall e: Extent ensures ZoneKept(e) {
        assert old(ZoneKept(e)) && (e in extents ==> old(ExtentOk(e)));
        if e in extents && e.zone && !slab.Owns(e.lo) && !Carries(t, e.lo) {
          ghost var u: nat :| old(Carries(u, e.lo));
          assert Carries(u, e.lo);
        }
      }
      forall y: nat ensures OwnedOk(y) {
        assert old(OwnedOk(y));
      }
      forall u: nat ensures FlightOk(u) {
        assert old(FlightOk(u));
      }
    }

    /** `rt_free` of a large block. */
    method FreeLarge(at: nat, n: nat)
      requires Valid() && Live(Large(at, n))
      modifies this`extents, pages, pages.next, pages.pages
      ensures Valid() && Removed(Large(at, n))
    {
      PutPages(at, n, false);
      forall e: Extent ensures ZoneKept(e) {
        assert old(ZoneKept(e));
        if e in extents && e.zone && !slab.Owns(e.lo) {
          ghost var u: nat :| old(Carries(u, e.lo));
          assert Carries(u, e.lo);
        }
      }
      forall y: nat ensures OwnedOk(y) {
        assert old(OwnedOk(y));
      }
      forall u: nat ensures FlightOk(u) {
        assert old(FlightOk(u));
      }
    }

    // ----- blocks in use -----

    /** The pages a block lies in. */
    function ExtentOf(b: Block): Extent {
      match b
      case Small(c, _) => ZoneAt(c.zone)
      case Large(at, n) => Extent(at, at + n, false)
    }

    /** A block in use lies inside its pages, which are in use, and inside the heap. */
    lemma InsideExtent(b: Block)
      requires Valid() && Live(b)
      ensures ExtentOf(b) in extents && (b.Small? ==> b.bytes > 0)
      ensures ExtentOf(b).lo * PAGE <= First(b) && First(b) + Length(b) <= ExtentOf(b).hi * PAGE <= pages.total * PAGE
      ensures b.Small? ==> ExtentOf(b).lo * PAGE + HEADER <= First(b)
    {
      if b.Small? {
        var c := b.chunk;
        assert OwnedOk(c.zone) && slab.ZoneOk(c.zone);
        ChunkSizePositive(slab.zones[c.zone].index);
        ChunkInside(slab.zoneSize, b.bytes, c.number);
      }
      assert ExtentOk(ExtentOf(b));
    }

    /** Two blocks in use never overlap, chunks or pages. */
    lemma BlocksApart(b: Block, d: Block)
      requires Valid() && Live(b) && Live(d) && b != d
      ensures (b.Small? ==> b.bytes > 0) && (d.Small? ==> d.bytes > 0)
      ensures First(b) + Length(b) <= First(d) || First(d) + Length(d) <= First(b)
    {
      InsideExtent(b);
      InsideExtent(d);
      if b.Small? && d.Small? && b.chunk.zone == d.chunk.zone {
        OneAfterAnother(b.bytes, b.chunk.number, d.chunk.number);
      } else {
        assert Apart(ExtentOf(b), ExtentOf(d));
      }
    }

    /** No page is lost: it is either free or in use, and then it belongs to a large block, to a zone that is active or
        kept, or to a zone in the hands of a thread. */
    lemma NoPageLost(p: nat)
      requires Valid() && p < pages.total
      ensures Has(pages.Runs(), p) <==> !Covered(p)
      ensures forall e :: e in extents && e.lo <= p < e.hi ==>
                if e.zone then slab.Owns(e.lo) || exists t: nat :: Carries(t, e.lo) else Live(Large(e.lo, e.hi - e.lo))
    {
      assert PageKept(p);
      forall e | e in extents && e.lo <= p < e.hi
        ensures !Has(pages.Runs(), p)
        ensures if e.zone then slab.Owns(e.lo) || exists t: nat :: Carries(t, e.lo) else Live(Large(e.lo, e.hi - e.lo))
      {
        assert ExtentOk(e) && ZoneKept(e) && e == Extent(e.lo, e.lo + (e.hi - e.lo), e.zone);
      }
    }

    // ----- runs -----

    /** The blocks a program holds are in use, and no block is held twice. */
    ghost predicate Holding(held: seq<Option<Block>>)
      reads this`extents, slab`active, slab.zones
    {
      && (forall k :: 0 <= k < |held| && held[k].Some? ==> Live(held[k].value))
      && forall j, k :: 0 <= j < k < |held| && held[j].Some? && held[k].Some? ==> held[j] != held[k]
    }

    /** Nothing is lost: every block in use is held. */
    ghost predicate AllHeld(held: seq<Option<Block>>)
      reads this`extents, slab`active, slab.zones
    {
      forall b: Block :: Live(b) ==> Some(b) in held
    }

    /** Some run of free pages is long enough for `size` bytes. */
    ghost predicate HasPages(size: nat)
      reads pages, pages.next, pages.pages
    {
      pages.Valid() && exists k :: 0 <= k < |pages.Runs()| && pages.Runs()[k].n * PAGE >= size
    }

    /** What a step does, and when: a request is served or goes on exactly as the zones and pages allow. */
    twostate predicate Told(step: Step, held: seq<Option<Block>>, new now: seq<Option<Block>>)
      requires old(Valid())
      reads this`extents, slab, slab.zones, pages, pages.next, pages.pages, phase
    {
      && |now| >= |held| && (old(AllHeld(held)) ==> AllHeld(now))
      && Steps(slab.zoneLimit, step, State(held, old(phase[..])), State(now, phase[..]))
      && (forall k :: 0 <= k < |held| && !(step.FreeStep? && step.k == k) ==> now[k] == held[k])
      && match step
         case BeginStep(t, size) =>
           t < phase.Length && old(phase[t]) == Idle && size > 0 ==>
             && (now != held <==> if size < slab.zoneLimit then old(Stocked(size)) else old(HasPages(size)))
             && (now != held ==> phase[t] == Idle)
         case FetchStep(t) =>
           t < phase.Length && old(phase[t]).Needing? ==> (phase[t].Opening? <==> old(HasPages(count * PAGE)))
         case _ => true
    }

    method Do(step: Step, held: seq<Option<Block>>) returns (now: seq<Option<Block>>)
      requires Valid() && Holding(held)
      modifies this`extents, slab, slab.zones, slab.classes, pages, pages.next, pages.pages, phase
      ensures Valid() && Holding(now) && Told(step, held, now)
    {
      now := held;
      match step
      case BeginStep(t, size) =>
        if t < phase.Length && phase[t] == Idle && size > 0 { now := DoBegin(step, held); }
      case FetchStep(t) =>
        if t < phase.Length && phase[t].Needing? { Fetch(t); }
      case OpenStep(t) =>
        if t < phase.Length && phase[t].Opening? { now := DoOpen(step, held); }
      case FreeStep(t, k) =>
        if t < phase.Length && phase[t] == Idle && k < |held| && held[k].Some? { now := DoFree(step, held); }
      case ReturnStep(t) =>
        if t < phase.Length && phase[t].Releasing? { Return(t); }
    }

    method DoBegin(step: Step, held: seq<Option<Block>>) returns (now: seq<Option<Block>>)
      requires Valid() && Holding(held)
      requires step.BeginStep? && step.thread < phase.Length && phase[step.thread] == Idle && step.size > 0
      modifies this`extents, slab, slab.zones, slab.classes, pages, pages.next, pages.pages, phase
      ensures Valid() && Holding(now) && Told(step, held, now)
    {
      now := held;
      var b;
      if step.size >= slab.zoneLimit {
        b := BeginLarge(step.size);
      } else {
        b := BeginSmall(step.thread, step.size);
      }
      if b.Some? {
        now := held + [b];
        assert now[|held|] == b;
      }
    }

    method DoOpen(step: Step, held: seq<Option<Block>>) returns (now: seq<Option<Block>>)
      requires Valid() && Holding(held)
      requires step.OpenStep? && step.thread < phase.Length && phase[step.thread].Opening?
      modifies this`extents, slab, slab.zones, slab.classes, pages, pages.next, pages.pages, phase
      ensures Valid() && Holding(now) && Told(step, held, now)
    {
      var b := Open(step.thread);
      now := held + [Some(b)];
      assert now[|held|] == Some(b);
    }

    method DoFree(step: Step, held: seq<Option<Block>>) returns (now: seq<Option<Block>>)
      requires Valid() && Holding(held)
      requires step.FreeStep? && step.thread < phase.Length && phase[step.thread] == Idle
      requires step.k < |held| && held[step.k].Some?
      modifies this`extents, slab, slab.zones, slab.classes, pages, pages.next, pages.pages, phase
      ensures Valid() && Holding(now) && Told(step, held, now)
    {
      var k := step.k;
      match held[k].value {
        case Small(c, bytes) => FreeSmall(step.thread, c, bytes);
        case Large(at, n) => FreeLarge(at, n);
      }
      now := held[k := None];
      forall o | o in held && o != held[k] ensures o in now {
        var j :| 0 <= j < |held| && held[j] == o;
        assert now[j] == o;
      }
    }

    /** Any interleaving of what threads do under one lock each, with its states: the blocks held never overlap, none is
        lost, and a block stays with its holder until it is given back. */
    method Run(steps: seq<Step>, first: seq<Option<Block>>)
      returns (held: seq<Option<Block>>, ghost trace: seq<State>)
      requires Valid() && Holding(first)
      modifies this`extents, slab, slab.zones, slab.classes, pages, pages.next, pages.pages, phase
      ensures Valid() && Holding(held) && |held| >= |first| && (old(AllHeld(first)) ==> AllHeld(held))
      ensures forall j, k :: 0 <= j < k < |held| && held[j].Some? && held[k].Some? ==>
                Disjoint(held[j].value, held[k].value)
      ensures forall k :: 0 <= k < |first| && (forall s :: s in steps && s.FreeStep? ==> s.k != k) ==>
                held[k] == first[k]
      ensures |trace| == |steps| + 1 && trace[0] == State(first, old(phase[..]))
      ensures trace[|steps|] == State(held, phase[..])
      ensures forall i :: 0 <= i < |steps| ==> Steps(slab.zoneLimit, steps[i], trace[i], trace[i + 1])
    {
      held, trace := first, [State(first, phase[..])];
      for i := 0 to |steps|
        invariant Valid() && Holding(held) && |held| >= |first| && (old(AllHeld(first)) ==> AllHeld(held))
        invariant forall k :: 0 <= k < |first| && (forall s :: s in steps && s.FreeStep? ==> s.k != k) ==>
                    held[k] == first[k]
        invariant |trace| == i + 1 && trace[0] == State(first, old(phase[..])) && trace[i] == State(held, phase[..])
        invariant forall j :: 0 <= j < i ==> Steps(slab.zoneLimit, steps[j], trace[j], trace[j + 1])
      {
        assert steps[i] in steps;
        held := Do(steps[i], held);
        trace := trace + [State(held, phase[..])];
      }
      forall j, k | 0 <= j < k < |held| && held[j].Some? && held[k].Some?
        ensures Disjoint(held[j].value, held[k].value)
      {
        BlocksApart(held[j].value, held[k].value);
      }
    }
  }

  ghost predicate Disjoint(b: Block, d: Block) {
    && (b.Small? ==> b.bytes > 0) && (d.Small? ==> d.bytes > 0)
    && (First(b) + Length(b) <= First(d) || First(d) + Length(d) <= First(b))
  }

  /** Chunk `k` of a zone, from the start of the zone. */
  lemma ChunkInside(zoneSize: nat, bytes: nat, k: nat)
    requires bytes > 0 && zoneSize >= 32768 && zoneSize >= 4 * bytes && k < Capacity(zoneSize, bytes)
    ensures HEADER <= Offset(bytes) + k * bytes && Offset(bytes) + k * bytes + bytes <= zoneSize
  {
    OffsetBound(bytes);
    CapacityBound(zoneSize, bytes);
    Scaled(0, k, bytes);
    Scaled(k + 1, Capacity(zoneSize, bytes), bytes);
    assert (k + 1) * bytes == k * bytes + bytes;
  }

  lemma OneAfterAnother(bytes: nat, j: nat, k: nat)
    requires j != k
    ensures j * bytes + bytes <= k * bytes || k * bytes + bytes <= j * bytes
  {
    assert (j + 1) * bytes == j * bytes + bytes && (k + 1) * bytes == k * bytes + bytes;
    if j < k { Scaled(j + 1, k, bytes); } else { Scaled(k + 1, j, bytes); }
  }
}

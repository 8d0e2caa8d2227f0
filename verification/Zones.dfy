/** The size classes and zones of rt-thread/src/slab.c.

    A zone is named by its first page.  It is cut into chunks of one size; chunk `k` of a
    zone is the pair of the two numbers. */
module Zones {
  import opened Chains
  import opened Common
  import opened Rings
  import opened WaitList

  // ----- size classes -----

  const NZONES: nat := 72
  const CLASS_LIMIT: nat := 16384

  function RoundTo(n: nat, unit: nat): nat
    requires unit > 0
  {
    (n + unit - 1) / unit * unit
  }

  datatype SizeClass = SizeClass(index: int, bytes: nat)

  /** `zoneindex`: the class of a request, and the request rounded up to the chunk size of the class. */
  function ClassOf(n: nat): SizeClass {
    if n < 128 then SizeClass(RoundTo(n, 8) / 8 - 1, RoundTo(n, 8))
    else if n < 256 then SizeClass(RoundTo(n, 16) / 16 + 7, RoundTo(n, 16))
    else if n < 512 then SizeClass(RoundTo(n, 32) / 32 + 15, RoundTo(n, 32))
    else if n < 1024 then SizeClass(RoundTo(n, 64) / 64 + 23, RoundTo(n, 64))
    else if n < 2048 then SizeClass(RoundTo(n, 128) / 128 + 31, RoundTo(n, 128))
    else if n < 4096 then SizeClass(RoundTo(n, 256) / 256 + 39, RoundTo(n, 256))
    else if n < 8192 then SizeClass(RoundTo(n, 512) / 512 + 47, RoundTo(n, 512))
    else if n < CLASS_LIMIT then SizeClass(RoundTo(n, 1024) / 1024 + 55, RoundTo(n, 1024))
    else SizeClass(0, n)
  }

  /** The chunk size of class `i`: sixteen sizes eight apart, then eight to each doubling. */
  function ChunkSize(i: nat): nat {
    if i < 16 then 8 * (i + 1)
    else if i < 24 then 16 * (i - 7)
    else if i < 32 then 32 * (i - 15)
    else if i < 40 then 64 * (i - 23)
    else if i < 48 then 128 * (i - 31)
    else if i < 56 then 256 * (i - 39)
    else if i < 64 then 512 * (i - 47)
    else 1024 * (i - 55)
  }

  lemma ChunkSizesGrow(i: nat, j: nat)
    requires i < j < NZONES
    ensures 0 < ChunkSize(i) < ChunkSize(j)
  {
  }

  ghost predicate Snug(n: nat, c: SizeClass) {
    && 0 <= c.index < NZONES && c.bytes == ChunkSize(c.index) && n <= c.bytes
    && (c.index > 0 ==> ChunkSize(c.index - 1) < n)
    && c.bytes - n <= if n / 8 > 7 then n / 8 else 7
  }

  /** A request goes to the class with the smallest chunks that hold it, and wastes at most seven bytes or an eighth. */
  lemma ClassFits(n: nat)
    requires 0 < n < CLASS_LIMIT
    ensures Snug(n, ClassOf(n))
  {
    if n < 512 {
      SmallFits(n);
    } else if n < 2048 {
      if n < 1024 { Fits(n, 64, 23, (n + 63) / 64); } else { Fits(n, 128, 31, (n + 127) / 128); }
    } else if n < 4096 {
      Fits(n, 256, 39, (n + 255) / 256);
    } else if n < 8192 {
      Fits(n, 512, 47, (n + 511) / 512);
    } else {
      Fits(n, 1024, 55, (n + 1023) / 1024);
    }
  }

  lemma SmallFits(n: nat)
    requires 0 < n < 512
    ensures Snug(n, ClassOf(n))
  {
    if n < 128 {
      var q := (n + 7) / 8;
      assert ClassOf(n) == SizeClass(q - 1, 8 * q);
    } else if n < 256 {
      Fits(n, 16, 7, (n + 15) / 16);
    } else {
      Fits(n, 32, 15, (n + 31) / 32);
    }
  }

  lemma Between(q: nat, unit: nat, n: nat)
    requires unit in {16, 32, 64, 128, 256, 512, 1024} && 8 * unit <= n < 16 * unit && n <= q * unit < n + unit
    ensures 8 <= q <= 16 && (q == 8 ==> n == 8 * unit)
  {
  }

  /** A class of chunks `unit` apart, for requests from eight units up. */
  lemma Fits(n: nat, unit: nat, below: nat, q: nat)
    requires unit in {16, 32, 64, 128, 256, 512, 1024} && 8 * unit <= n < 16 * unit && n <= q * unit < n + unit
    requires ClassOf(n) == SizeClass(q + below, q * unit)
    requires 9 <= q <= 16 ==>
               ChunkSize(q + below) == q * unit && ChunkSize(q + below - 1) == (q - 1) * unit && q + below < NZONES
    ensures Snug(n, ClassOf(n))
  {
    Between(q, unit, n);
    if q > 8 {
      assert q * unit - n <= unit <= n / 8;
    }
  }

  // ----- the layout of a zone -----

  /** The size of a zone's own header. */
  const HEADER: nat := 36

  function IsPowerOfTwo(n: nat): bool {
    n == 1 || (n > 1 && n % 2 == 0 && IsPowerOfTwo(n / 2))
  }

  function Power(k: nat): nat {
    if k == 0 then 1 else 2 * Power(k - 1)
  }

  lemma {:induction false} PowersOfTwo(n: nat)
    ensures IsPowerOfTwo(n) <==> exists k: nat :: n == Power(k)
  {
    if n == 1 {
      assert n == Power(0);
    } else if n > 1 {
      PowersOfTwo(n / 2);
      if IsPowerOfTwo(n) {
        var k: nat :| n / 2 == Power(k);
        assert n == Power(k + 1);
      }
      if exists k: nat :: n == Power(k) {
        var k: nat :| n == Power(k);
        assert k > 0 && n == 2 * Power(k - 1);
        assert n / 2 == Power(k - 1);
      }
    } else {
      forall k: nat ensures Power(k) > 0 {
        Positive(k);
      }
    }
  }

  lemma Positive(k: nat)
    ensures Power(k) > 0
  {
  }

  /** Where the chunks begin: aligned to their size when that is a power of two, and to eight bytes otherwise. */
  function Offset(bytes: nat): nat
    requires bytes > 0
  {
    if IsPowerOfTwo(bytes) then RoundTo(HEADER, bytes) else RoundTo(HEADER, 8)
  }

  function Capacity(zoneSize: nat, bytes: nat): int
    requires bytes > 0
  {
    (zoneSize - Offset(bytes)) / bytes
  }

  lemma RoundedUp(n: nat, unit: nat)
    requires unit > 0
    ensures RoundTo(n, unit) % unit == 0 && n <= RoundTo(n, unit) < n + unit
  {
    var m := n + unit - 1;
    assert m == m / unit * unit + m % unit;
    Multiple(m / unit, unit);
  }

  lemma Multiple(q: nat, unit: nat)
    requires unit > 0
    ensures q * unit % unit == 0
  {
    var r := q * unit % unit;
    assert q * unit == q * unit / unit * unit + r;
    if q * unit / unit < q { Scaled(q * unit / unit + 1, q, unit); }
    if q * unit / unit > q { Scaled(q + 1, q * unit / unit, unit); }
  }

  lemma OffsetBound(bytes: nat)
    requires bytes > 0
    ensures HEADER <= Offset(bytes) && (Offset(bytes) <= 71 || Offset(bytes) == bytes)
    ensures var unit := if IsPowerOfTwo(bytes) then bytes else 8;
      Offset(bytes) % unit == 0 && Offset(bytes) < HEADER + unit
  {
    RoundedUp(HEADER, if IsPowerOfTwo(bytes) then bytes else 8);
    if bytes >= HEADER {
      assert HEADER + bytes - 1 < 2 * bytes;
      OneUnit(HEADER + bytes - 1, bytes);
    } else {
      var m := HEADER + bytes - 1;
      assert m == m / bytes * bytes + m % bytes;
    }
  }

  lemma OneUnit(m: nat, unit: nat)
    requires unit <= m < 2 * unit
    ensures m / unit == 1
  {
  }

  lemma Scaled(a: int, b: int, c: nat)
    requires a <= b
    ensures a * c <= b * c
  {
  }

  lemma Quotient(room: nat, bytes: nat)
    requires bytes > 0 && room >= 3 * bytes
    ensures room / bytes >= 3 && room / bytes * bytes <= room < (room / bytes + 1) * bytes
  {
    var c := room / bytes;
    assert room == c * bytes + room % bytes && (c + 1) * bytes == c * bytes + bytes;
    if c <= 2 { Scaled(c, 2, bytes); }
  }

  lemma CapacityBound(zoneSize: nat, bytes: nat)
    requires bytes > 0 && zoneSize >= 32768 && zoneSize >= 4 * bytes
    ensures Capacity(zoneSize, bytes) >= 3 && Offset(bytes) + Capacity(zoneSize, bytes) * bytes <= zoneSize
    ensures zoneSize < Offset(bytes) + (Capacity(zoneSize, bytes) + 1) * bytes
  {
    OffsetBound(bytes);
    Quotient(zoneSize - Offset(bytes), bytes);
  }

  /** The bytes of chunk `k`, from the start of the zone. */
  ghost predicate InChunk(bytes: nat, k: nat, o: int)
    requires bytes > 0
  {
    Offset(bytes) + k * bytes <= o < Offset(bytes) + (k + 1) * bytes
  }

  /** Chunks lie behind the header, inside the zone, and apart from each other. */
  lemma ChunksApart(zoneSize: nat, bytes: nat, j: nat, k: nat, o: int)
    requires bytes > 0 && zoneSize >= 32768 && zoneSize >= 4 * bytes
    requires j < Capacity(zoneSize, bytes) && k < Capacity(zoneSize, bytes) && InChunk(bytes, j, o)
    ensures HEADER <= o < zoneSize && (InChunk(bytes, k, o) ==> j == k)
  {
    OffsetBound(bytes);
    CapacityBound(zoneSize, bytes);
    Scaled(0, j, bytes);
    Scaled(j + 1, Capacity(zoneSize, bytes), bytes);
    if j < k { Scaled(j + 1, k, bytes); }
    if k < j { Scaled(k + 1, j, bytes); }
  }

  // ----- the zones -----

  /** The number of empty zones that are kept. */
  const ZONE_RELEASE_THRESH: nat := 2

  /** `chunks` is the list of chunks that were given back; chunks above `uindex` were never used. */
  datatype Zone = Zone(index: nat, max: nat, nfree: nat, uindex: nat, chunks: seq<nat>)

  datatype Chunk = Chunk(zone: nat, number: nat)

  ghost predicate Sound(zn: Zone, zoneSize: nat) {
    && zn.index < NZONES && 4 * ChunkSize(zn.index) <= zoneSize
    && zn.max == Capacity(zoneSize, ChunkSize(zn.index)) && zn.uindex < zn.max
    && Distinct(zn.chunks) && (forall k :: k in zn.chunks ==> k <= zn.uindex)
    && zn.nfree == zn.max - 1 - zn.uindex + |zn.chunks|
  }

  /** Chunk `k` of the zone is in use. */
  ghost predicate Used(zn: Zone, k: nat) {
    k <= zn.uindex && k !in zn.chunks
  }

  /** The chunks in use are those that are not free. */
  lemma UsedCount(zn: Zone, zoneSize: nat) returns (used: set<nat>)
    requires Sound(zn, zoneSize)
    ensures (forall k: nat :: k in used <==> Used(zn, k)) && |used| + zn.nfree == zn.max
  {
    var free := ElementsOf(zn.chunks);
    used := Below(zn.uindex + 1) - free;
    assert free <= Below(zn.uindex + 1);
    assert used !! free && used + free == Below(zn.uindex + 1);
  }

  /** What taking a chunk does to a zone: never-used chunks go first. */
  ghost function Next(zn: Zone): nat {
    if zn.uindex + 1 != zn.max then zn.uindex + 1 else if zn.chunks == [] then 0 else zn.chunks[0]
  }

  ghost function Taken(zn: Zone): Zone {
    if zn.uindex + 1 != zn.max then zn.(nfree := if zn.nfree > 0 then zn.nfree - 1 else 0, uindex := zn.uindex + 1)
    else zn.(nfree := if zn.nfree > 0 then zn.nfree - 1 else 0,
             chunks := if zn.chunks == [] then [] else zn.chunks[1..])
  }

  lemma TakenFacts(zn: Zone, zoneSize: nat)
    requires Sound(zn, zoneSize) && zn.nfree > 0
    ensures Sound(Taken(zn), zoneSize) && !Used(zn, Next(zn)) && Next(zn) < zn.max
    ensures forall k: nat :: Used(Taken(zn), k) <==> k == Next(zn) || Used(zn, k)
  {
    if zn.uindex + 1 == zn.max {
      DistinctTail(zn.chunks);
      assert zn.chunks[0] in zn.chunks;
    }
  }

  ghost function Given(zn: Zone, k: nat): Zone {
    zn.(nfree := zn.nfree + 1, chunks := [k] + zn.chunks)
  }

  lemma GivenFacts(zn: Zone, k: nat, zoneSize: nat)
    requires Sound(zn, zoneSize) && Used(zn, k)
    ensures Sound(Given(zn, k), zoneSize) && Given(zn, k).nfree <= zn.max
    ensures forall j: nat :: Used(Given(zn, k), j) <==> j != k && Used(zn, j)
  {
    var list := Given(zn, k).chunks;
    forall i, j ensures Differ(list, i, j) {
      assert Differ(zn.chunks, i - 1, j - 1);
      if i == 0 && 0 < j < |list| { assert list[j] in zn.chunks; }
    }
    AtMost(list, zn.uindex + 1);
  }

  lemma NothingUsed(zn: Zone, zoneSize: nat)
    requires Sound(zn, zoneSize) && zn.nfree == zn.max
    ensures forall k: nat :: !Used(zn, k)
  {
    var used := UsedCount(zn, zoneSize);
    assert used == {};
  }

  class Slab {
    const zoneSize: nat
    const zoneLimit: nat
    const zones: array<Zone>
    const classes: array<seq<nat>>
    var cached: seq<nat>
    var cachedCount: nat
    ghost var active: set<nat>

    ghost predicate Sized() {
      && classes.Length == NZONES && zoneSize >= 32768 && 0 < zoneLimit <= CLASS_LIMIT && zoneSize >= 4 * zoneLimit
      && zoneLimit == (if zoneSize < 65536 then 8192 else 16384) && zones as object != classes
    }

    ghost predicate ZoneOk(z: nat)
      reads this`active, zones
    {
      z in active ==> z < zones.Length && Sound(zones[z], zoneSize)
    }

    /** The list of a class holds exactly its zones with free chunks. */
    ghost predicate ListOk(i: nat)
      reads this`active, zones, classes
    {
      i < classes.Length ==>
        && Distinct(classes[i])
        && forall z :: z in classes[i] <==> z in active && z < zones.Length && zones[z].index == i && zones[z].nfree > 0
    }

    ghost predicate Valid()
      reads this, zones, classes
    {
      && Sized() && Distinct(cached) && |cached| == cachedCount <= ZONE_RELEASE_THRESH
      && (forall z :: z in cached ==> z !in active && z < zones.Length)
      && (forall z: nat {:trigger ZoneOk(z)} :: ZoneOk(z))
      && forall i: nat {:trigger ListOk(i)} :: ListOk(i)
    }

    /** The zone is in use, or kept for later use. */
    ghost predicate Owns(z: nat)
      reads this`active, this`cached
    {
      z in active || z in cached
    }

    ghost predicate Live(c: Chunk)
      reads this`active, zones
    {
      c.zone in active && c.zone < zones.Length && Used(zones[c.zone], c.number)
    }

    /** `rt_system_heap_init`, as far as it concerns zones; `pages` is the number of pages of the heap. */
    constructor (pages: nat, limsize: nat)
      ensures Valid() && active == {} && cached == [] && zones.Length == pages
      ensures fresh(zones) && fresh(classes)
      ensures zoneSize in {32768, 65536, 131072} && (zoneSize > 32768 ==> zoneSize < limsize / 1024)
      ensures zoneSize < 131072 ==> 2 * zoneSize >= limsize / 1024
      ensures zoneLimit == if zoneSize == 32768 then 8192 else 16384
    {
      var size := 32768;
      while size < 131072 && size * 2 < limsize / 1024
        invariant size in {32768, 65536, 131072} && (size > 32768 ==> size < limsize / 1024)
      {
        size := size * 2;
      }
      zoneSize := size;
      zoneLimit := if size / 4 > 16384 then 16384 else size / 4;
      zones := new Zone[pages](_ => Zone(0, 0, 0, 0, []));
      classes := new seq<nat>[NZONES](_ => []);
      cached, cachedCount := [], 0;
      active := {};
    }

    /** A chunk from the first zone of a class that has one. */
    method TakeChunk(i: nat) returns (c: Chunk)
      requires Valid() && i < NZONES && classes[i] != []
      modifies zones, classes
      ensures Valid() && c.zone == old(classes[i])[0] && c.zone < zones.Length && zones[c.zone].index == i
      ensures c.number < zones[c.zone].max
      ensures !old(Live(c)) && forall d: Chunk :: Live(d) <==> d == c || old(Live(d))
      ensures forall y: nat :: y in old(active) && y in active && y < zones.Length ==>
                zones[y].index == old(zones[y].index) && zones[y].max == old(zones[y].max)
    {
      var z := classes[i][0];
      assert z in classes[i] && ListOk(i) && ZoneOk(z);
      TakenFacts(zones[z], zoneSize);
      DistinctTail(classes[i]);
      var zone := zones[z];
      zone := zone.(nfree := zone.nfree - 1);
      if zone.nfree == 0 {
        classes[i] := classes[i][1..];
      }
      var k;
      if zone.uindex + 1 != zone.max {
        zone := zone.(uindex := zone.uindex + 1);
        k := zone.uindex;
      } else {
        k := zone.chunks[0];
        zone := zone.(chunks := zone.chunks[1..]);
      }
      zones[z] := zone;
      assert zone == Taken(old(zones[z])) && k == Next(old(zones[z]));
      forall y: nat ensures ZoneOk(y) {
        assert old(ZoneOk(y));
      }
      forall j: nat ensures ListOk(j) {
        assert old(ListOk(j));
      }
      return Chunk(z, k);
    }

    /** A zone that was empty is cut into chunks of class `i`, and its first chunk is given out.  Another thread may
        have given the class a zone while the lock was released for the page allocator. */
    method OpenZone(z: nat, i: nat) returns (c: Chunk)
      requires Valid() && i < NZONES && ChunkSize(i) <= zoneLimit
      requires z < zones.Length && z !in active && z !in cached
      modifies this`active, zones, classes
      ensures Valid() && c == Chunk(z, 0) && zones[z].index == i && zones[z].max > 0 && active == old(active) + {z}
      ensures !old(Live(c)) && forall d: Chunk :: Live(d) <==> d == c || old(Live(d))
      ensures forall y: nat :: y in old(active) && y in active && y < zones.Length ==>
                zones[y].index == old(zones[y].index) && zones[y].max == old(zones[y].max)
    {
      var bytes := ChunkSize(i);
      ChunkSizePositive(i);
      CapacityBound(zoneSize, bytes);
      assert ListOk(i);
      DistinctFront(classes[i], z);
      var max := (zoneSize - Offset(bytes)) / bytes;
      zones[z] := Zone(i, max, max - 1, 0, []);
      classes[i] := [z] + classes[i];
      active := active + {z};
      forall y: nat ensures ZoneOk(y) {
        assert old(ZoneOk(y));
      }
      forall j: nat ensures ListOk(j) {
        assert old(ListOk(j));
      }
      return Chunk(z, 0);
    }

    /** The first region of `rt_malloc` of a small size; if it fails, the page allocator is asked for a zone. */
    method TryMalloc(size: nat) returns (r: Option<Chunk>)
      requires Valid() && 0 < size < zoneLimit
      modifies this`active, this`cached, this`cachedCount, zones, classes
      ensures Valid()
      ensures var i := ClassOf(size).index; 0 <= i < NZONES && (r.None? <==> old(classes[i]) == [] && old(cached) == [])
      ensures r.None? ==> forall d: Chunk :: Live(d) <==> old(Live(d))
      ensures r.Some? ==> !old(Live(r.value)) && forall d: Chunk :: Live(d) <==> d == r.value || old(Live(d))
      ensures r.Some? ==> Holds(r.value, size)
      ensures forall z: nat :: Owns(z) <==> old(Owns(z))
      ensures forall y: nat :: y in old(active) && y in active && y < zones.Length ==>
                zones[y].index == old(zones[y].index) && zones[y].max == old(zones[y].max)
    {
      ClassFits(size);
      WithinLimit(size);
      var i: nat := ClassOf(size).index;
      if classes[i] != [] {
        var c := TakeChunk(i);
        return Some(c);
      }
      if cached != [] {
        var z := cached[0];
        DistinctTail(cached);
        assert z in cached;
        cached := cached[1..];
        cachedCount := cachedCount - 1;
        var c := OpenZone(z, i);
        return Some(c);
      }
      return None;
    }

    /** The last region of `rt_malloc`, with the zone `z` from the page allocator. */
    method MallocIn(size: nat, z: nat) returns (c: Chunk)
      requires Valid() && 0 < size < zoneLimit && z < zones.Length && !Owns(z)
      modifies this`active, zones, classes
      ensures Valid() && !old(Live(c)) && (forall d: Chunk :: Live(d) <==> d == c || old(Live(d)))
      ensures c == Chunk(z, 0) && Holds(c, size) && forall y: nat :: Owns(y) <==> y == z || old(Owns(y))
      ensures forall y: nat :: y in old(active) && y in active && y < zones.Length ==>
                zones[y].index == old(zones[y].index) && zones[y].max == old(zones[y].max)
    {
      ClassFits(size);
      WithinLimit(size);
      c := OpenZone(z, ClassOf(size).index);
    }

    /** The chunk is in a zone of the class that fits `size` best. */
    ghost predicate Holds(c: Chunk, size: nat)
      reads zones
    {
      c.zone < zones.Length && c.number < zones[c.zone].max && zones[c.zone].index == ClassOf(size).index
    }

    lemma WithinLimit(size: nat)
      requires Sized() && 0 < size < zoneLimit
      ensures ClassOf(size).index >= 0 && ClassOf(size).bytes <= zoneLimit
    {
      ClassFits(size);
      var i := ClassOf(size).index;
      var top := if zoneLimit == 8192 then 63 else 71;
      if i < top { ChunkSizesGrow(i, top); }
    }

    /** A chunk goes back to its zone, which goes back to its list if it had none. */
    method GiveChunk(c: Chunk)
      requires Valid() && Live(c)
      modifies zones, classes
      ensures Valid() && (forall d: Chunk :: Live(d) <==> d != c && old(Live(d)))
      ensures forall y: nat :: y in old(active) && y in active && y < zones.Length ==>
                zones[y].index == old(zones[y].index) && zones[y].max == old(zones[y].max)
      ensures c.zone < zones.Length && zones[c.zone] == Given(old(zones[c.zone]), c.number) && c.zone in active
      ensures var i := zones[c.zone].index; i < NZONES && classes[i] == if old(zones[c.zone]).nfree == 0
        then [c.zone] + old(classes[..])[i] else old(classes[..])[i]
    {
      var z := c.zone;
      assert ZoneOk(z) && ListOk(zones[z].index);
      GivenFacts(zones[z], c.number, zoneSize);
      var i := zones[z].index;
      zones[z] := zones[z].(chunks := [c.number] + zones[z].chunks);
      if zones[z].nfree == 0 {
        DistinctFront(classes[i], z);
        classes[i] := [z] + classes[i];
      }
      zones[z] := zones[z].(nfree := zones[z].nfree + 1);
      forall y: nat ensures ZoneOk(y) {
        assert old(ZoneOk(y));
      }
      forall j: nat ensures ListOk(j) {
        assert old(ListOk(j));
      }
    }

    /** An empty zone leaves its class. */
    method Retire(z: nat)
      requires Valid() && z in active && z < zones.Length && zones[z].nfree == zones[z].max
      modifies this`active, classes
      ensures Valid() && active == old(active) - {z} && z !in cached
      ensures forall d: Chunk :: Live(d) <==> old(Live(d))
    {
      var i := zones[z].index;
      assert ZoneOk(z) && ListOk(i);
      NothingUsed(zones[z], zoneSize);
      CapacityPositive(zones[z]);
      DroppedHas(classes[i], z);
      classes[i] := Dropped(classes[i], z);
      active := active - {z};
      forall y: nat ensures ZoneOk(y) {
        assert old(ZoneOk(y));
      }
      forall j: nat ensures ListOk(j) {
        assert old(ListOk(j));
      }
    }

    lemma CapacityPositive(zn: Zone)
      requires Sound(zn, zoneSize)
      ensures zn.max > 0
    {
    }

    /** No other zone of the class has a free chunk. */
    ghost predicate Alone(z: nat)
      reads zones, classes
    {
      z < zones.Length && zones[z].index < classes.Length && forall y :: y in classes[zones[z].index] ==> y == z
    }

    /** `rt_free` of a chunk; the result is a zone whose pages go back to the page allocator. */
    method Free(c: Chunk) returns (released: Option<nat>)
      requires Valid() && Live(c)
      modifies this`active, this`cached, this`cachedCount, zones, classes
      ensures Valid() && forall d: Chunk :: Live(d) <==> d != c && old(Live(d))
      ensures forall y: nat :: y in old(active) && y in active && y < zones.Length ==>
                zones[y].index == old(zones[y].index) && zones[y].max == old(zones[y].max)
      ensures forall z: nat :: Owns(z) <==> old(Owns(z)) && released != Some(z)
      ensures released.Some? ==>
                released == Some(c.zone) && c.zone !in active && c.zone !in cached && c.zone in old(active)
      ensures c.zone in active ==> active == old(active) && cached == old(cached)
      ensures c.zone in active <==> old(zones[c.zone]).nfree + 1 < old(zones[c.zone]).max || old(Alone(c.zone))
      ensures c.zone !in active ==> forall d: Chunk :: d.zone == c.zone ==> !Live(d)
      ensures released.Some? <==> c.zone !in active && |old(cached)| == ZONE_RELEASE_THRESH
      ensures c.zone !in active ==> cached == if released.Some? then old(cached) else [c.zone] + old(cached)
    {
      assert ZoneOk(c.zone) && ListOk(zones[c.zone].index);
      ghost var list := classes[zones[c.zone].index];
      GivenFacts(zones[c.zone], c.number, zoneSize);
      GiveChunk(c);
      var z := c.zone;
      var i := zones[z].index;
      assert ListOk(i) && ZoneOk(z) && z in classes[i];
      if |classes[i]| > 1 {
        assert Differ(classes[i], 0, 1);
        assert classes[i][0] in classes[i] && classes[i][1] in classes[i];
      }
      if zones[z].nfree == zones[z].max && |classes[i]| != 1 {
        Retire(z);
        cached := [z] + cached;
        DistinctFront(old(cached), z);
        cachedCount := cachedCount + 1;
        if cachedCount > ZONE_RELEASE_THRESH {
          z := cached[0];
          cached := cached[1..];
          cachedCount := cachedCount - 1;
          return Some(z);
        }
      }
      return None;
    }
  }

  lemma ChunkSizePositive(i: nat)
    requires i < NZONES
    ensures ChunkSize(i) > 0
  {
  }
}

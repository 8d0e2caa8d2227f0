/** Copying within one memory and aligned allocation, from rt-thread/src/kservice.c. */
module Memory {

  /** `now` is `was` after the `n` bytes from `src` were put at `dst`, as if through a copy held elsewhere. */
  ghost predicate Moved(was: seq<bv8>, now: seq<bv8>, dst: nat, src: nat, n: nat)
    requires dst + n <= |was| && src + n <= |was|
  {
    && |now| == |was|
    && now[dst..dst + n] == was[src..src + n]
    && now[..dst] == was[..dst]
    && now[dst + n..] == was[dst + n..]
  }

  /** `rt_memmove`: right for every overlap of the two ranges. */
  method Memmove(a: array<bv8>, dst: nat, src: nat, n: nat)
    requires dst + n <= a.Length && src + n <= a.Length
    modifies a
    ensures Moved(old(a[..]), a[..], dst, src, n)
  {
    ghost var was := a[..];
    if src < dst && dst < src + n {
      var k := n;
      while k > 0
        invariant 0 <= k <= n
        invariant forall i :: dst + k <= i < dst + n ==> a[i] == was[src + (i - dst)]
        invariant forall i :: 0 <= i < dst + k ==> a[i] == was[i]
        invariant forall i :: dst + n <= i < a.Length ==> a[i] == was[i]
      {
        k := k - 1;
        a[dst + k] := a[src + k];
      }
    } else {
      var k := 0;
      while k < n
        invariant 0 <= k <= n
        invariant forall i :: dst <= i < dst + k ==> a[i] == was[src + (i - dst)]
        invariant forall i :: 0 <= i < dst ==> a[i] == was[i]
        invariant forall i :: dst + k <= i < a.Length ==> a[i] == was[i]
      {
        assert a[src + k] == was[src + k];
        a[dst + k] := a[src + k];
        k := k + 1;
      }
    }
    assert a[..][dst..dst + n] == was[src..src + n];
  }

  /** What a byte-by-byte copy from the front leaves: each byte is read after the ones before it were written. */
  ghost predicate Forward(was: seq<bv8>, now: seq<bv8>, dst: nat, src: nat, n: nat)
    requires dst + n <= |was| && src + n <= |was|
  {
    && |now| == |was|
    && (forall i {:trigger now[dst + i]} :: 0 <= i < n ==>
        now[dst + i] == if dst <= src + i < dst + i then now[src + i] else was[src + i])
    && now[..dst] == was[..dst]
    && now[dst + n..] == was[dst + n..]
  }

  /** The guard of `rt_memmove` is the right one: a forward copy does move the bytes when the guard does not hold... */
  lemma ForwardMoves(was: seq<bv8>, now: seq<bv8>, dst: nat, src: nat, n: nat)
    requires dst + n <= |was| && src + n <= |was| && Forward(was, now, dst, src, n)
    requires !(src < dst < src + n)
    ensures Moved(was, now, dst, src, n)
  {
    var there, here := now[dst..dst + n], was[src..src + n];
    forall i | 0 <= i < n
      ensures there[i] == here[i]
    {
      assert there[i] == now[dst + i];
    }
    assert there == here;
  }

  /** ... and for every overlap where it holds, some contents come out wrong. */
  lemma ForwardSpoils(before: nat, distance: nat, n: nat) returns (was: seq<bv8>, now: seq<bv8>)
    requires 0 < distance < n
    ensures |was| == before + distance + n && Forward(was, now, before + distance, before, n)
    ensures !Moved(was, now, before + distance, before, n)
  {
    var dst := before + distance;
    was := seq(dst + n, i requires 0 <= i => if i < dst then 0 else 1);
    now := seq(dst + n, i requires 0 <= i => 0);
    assert now[..dst] == was[..dst];
    assert now[dst + n..] == was[dst + n..];
    assert now[dst..dst + n][distance] == 0;
    assert was[before..before + n][distance] == was[dst] == 1;
  }

  // ----- aligned allocation -----

  /** A size or an alignment brought up to a multiple of the four bytes of a pointer. */
  function Rounded(n: bv32): bv32 {
    (n + 3) & 0xFFFF_FFFC
  }

  /** The address `rt_malloc_align` returns inside the block at `ptr`, for an alignment already rounded. */
  function AlignedAddress(ptr: bv32, align: bv32): bv32 {
    if ptr & (align - 1) == 0 then ptr + align else (ptr + (align - 1)) & !(align - 1)
  }

  ghost predicate PowerOfTwo(n: bv32) {
    n != 0 && n & (n - 1) == 0
  }

  /** The block asked for has `Rounded(size) + Rounded(align)` bytes. The address returned is aligned, has room in front
      of it for the word `rt_free_align` reads the block's address from, and has at least `size` bytes behind it. */
  lemma AlignedInside(ptr: bv32, size: bv32, align: bv32)
    requires PowerOfTwo(align) && align & 3 == 0 && ptr & 3 == 0
    requires size <= 0xFFFF_FFFC && ptr <= 0xFFFF_FFFF - align
    ensures AlignedAddress(ptr, align) & (align - 1) == 0
    ensures ptr <= AlignedAddress(ptr, align) && 4 <= AlignedAddress(ptr, align) - ptr <= Rounded(align)
    ensures size <= Rounded(size)
  {
    AlignedUp(ptr, align);
    AlignedRoom(ptr, align);
    RoundedSize(size);
    RoundedFixed(align);
  }

  lemma AlignedUp(ptr: bv32, align: bv32)
    requires PowerOfTwo(align)
    ensures AlignedAddress(ptr, align) & (align - 1) == 0
  {
  }

  lemma AlignedRoom(ptr: bv32, align: bv32)
    requires PowerOfTwo(align) && align & 3 == 0 && ptr & 3 == 0 && ptr <= 0xFFFF_FFFF - align
    ensures ptr <= AlignedAddress(ptr, align) && 4 <= AlignedAddress(ptr, align) - ptr <= align
  {
  }

  lemma RoundedSize(n: bv32)
    requires n <= 0xFFFF_FFFC
    ensures n <= Rounded(n)
  {
  }

  lemma RoundedFixed(n: bv32)
    requires n & 3 == 0
    ensures Rounded(n) == n
  {
  }

  /** The block at `ptr` gets an address that lies `rest` bytes behind 0 or behind the first multiple of `align`, and
      so is no multiple. */
  ghost predicate Missed(align: bv32, ptr: bv32, multiple: bv32, rest: bv32) {
    && ptr & 3 == 0 && 4 <= ptr <= 0xFFFF_FFFF - align
    && (multiple == 0 || multiple == align)
    && 0 < rest < align && rest <= 0xFFFF_FFFF - multiple
    && AlignedAddress(ptr, align) == multiple + rest
  }

  /** Every other alignment fails for some block. */
  lemma OtherAlignmentsFail(align: bv32)
    requires align != 0 && align & 3 == 0 && !PowerOfTwo(align) && align <= 0xFFFF_FFF8
    ensures exists ptr, multiple, rest :: Missed(align, ptr, multiple, rest)
  {
    if LowBit(align) <= 0xFFFF_FFFF - align {
      LowMisses(align, LowBit(align));
    } else {
      FourMisses(align, AlignedAddress(4, align));
    }
  }

  lemma LowMisses(align: bv32, low: bv32)
    requires align != 0 && align & 3 == 0 && !PowerOfTwo(align) && low == LowBit(align) && low <= 0xFFFF_FFFF - align
    ensures Missed(align, low, align, low)
  {
    LowBitFacts(align);
    AddressBehind(low, align);
  }

  lemma FourMisses(align: bv32, rest: bv32)
    requires align != 0 && align & 3 == 0 && !PowerOfTwo(align) && align <= 0xFFFF_FFF8
    requires LowBit(align) > 0xFFFF_FFFF - align && rest == AlignedAddress(4, align)
    ensures Missed(align, 4, 0, rest)
  {
    FourFits(align);
    FourFails(align);
    AllBelow(rest);
  }

  lemma AddressBehind(ptr: bv32, align: bv32)
    requires ptr & (align - 1) == 0
    ensures AlignedAddress(ptr, align) == align + ptr
  {
  }

  lemma FourFits(align: bv32)
    requires align <= 0xFFFF_FFF8
    ensures 4 <= 0xFFFF_FFFF - align
  {
  }

  lemma AllBelow(n: bv32)
    ensures n <= 0xFFFF_FFFF - 0 && 0 + n == n
  {
  }

  /** The lowest bit of `n` that is set. */
  function LowBit(n: bv32): bv32 {
    n & (0 - n)
  }

  lemma LowBitFacts(align: bv32)
    requires align != 0 && align & 3 == 0 && !PowerOfTwo(align)
    ensures LowBit(align) & 3 == 0 && 4 <= LowBit(align) < align && LowBit(align) & (align - 1) == 0
  {
  }

  lemma FourFails(align: bv32)
    requires align != 0 && align & 3 == 0 && !PowerOfTwo(align) && align <= 0xFFFF_FFF8
    requires LowBit(align) > 0xFFFF_FFFF - align
    ensures 0 < AlignedAddress(4, align) < align
  {
  }

  /** With alignment 0 the address is null. */
  lemma ZeroAlignment(ptr: bv32)
    requires ptr != 0
    ensures AlignedAddress(ptr, 0) == 0
  {
  }

  // ----- the word in front of an aligned address -----

  /** Byte `i` of a word, the lowest first. */
  function ByteOf(w: bv32, i: nat): bv8
    requires i < 4
  {
    if i == 0 then (w & 0xFF) as bv8
    else if i == 1 then ((w >> 8) & 0xFF) as bv8
    else if i == 2 then ((w >> 16) & 0xFF) as bv8
    else ((w >> 24) & 0xFF) as bv8
  }

  function WordOf(b0: bv8, b1: bv8, b2: bv8, b3: bv8): bv32 {
    (b0 as bv32) | ((b1 as bv32) << 8) | ((b2 as bv32) << 16) | ((b3 as bv32) << 24)
  }

  lemma WordOfBytes(w: bv32)
    ensures WordOf(ByteOf(w, 0), ByteOf(w, 1), ByteOf(w, 2), ByteOf(w, 3)) == w
  {
  }

  /** `rt_malloc_align` writes the block's address in front of the aligned address `start`. */
  method KeepAddress(a: array<bv8>, start: nat, ptr: bv32)
    requires 4 <= start <= a.Length
    modifies a
    ensures a[..] ==
              old(a[..start - 4]) + [ByteOf(ptr, 0), ByteOf(ptr, 1), ByteOf(ptr, 2), ByteOf(ptr, 3)] + old(a[start..])
  {
    for i := 0 to 4
      invariant forall k :: 0 <= k < i ==> a[start - 4 + k] == ByteOf(ptr, k)
      invariant forall o :: 0 <= o < a.Length && !(start - 4 <= o < start - 4 + i) ==> a[o] == old(a[o])
    {
      a[start - 4 + i] := ByteOf(ptr, i);
    }
    assert a[start - 4] == ByteOf(ptr, 0) && a[start - 4 + 1] == ByteOf(ptr, 1);
    assert a[start - 4 + 2] == ByteOf(ptr, 2) && a[start - 4 + 3] == ByteOf(ptr, 3);
  }

  /** `rt_free_align` reads it back. */
  method FindAddress(a: array<bv8>, start: nat) returns (ptr: bv32)
    requires 4 <= start <= a.Length
    ensures ptr == WordOf(a[start - 4], a[start - 3], a[start - 2], a[start - 1])
  {
    ptr := WordOf(a[start - 4], a[start - 3], a[start - 2], a[start - 1]);
  }

  /** Whatever the program did to the bytes behind the aligned address, the address of the block is found again. */
  method AlignedThenFreed(a: array<bv8>, start: nat, ptr: bv32, behind: seq<bv8>) returns (found: bv32)
    requires 4 <= start <= a.Length && |behind| == a.Length - start
    modifies a
    ensures found == ptr
    ensures a[..start - 4] == old(a[..start - 4]) && a[start..] == behind
  {
    KeepAddress(a, start, ptr);
    assert a[..][start - 4] == ByteOf(ptr, 0) && a[..][start - 3] == ByteOf(ptr, 1);
    assert a[..][start - 2] == ByteOf(ptr, 2) && a[..][start - 1] == ByteOf(ptr, 3);
    ghost var kept := a[..start];
    forall o | start <= o < a.Length {
      a[o] := behind[o - start];
    }
    assert a[..start] == kept;
    WordOfBytes(ptr);
    found := FindAddress(a, start);
  }
}

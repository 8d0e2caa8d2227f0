/** The bitmap of ready priorities of rt-thread/src/scheduler.c, with the bit search of rt-thread/src/kservice.c. */
module ReadyMap {

  // ----- single bits -----

  /** `1 << p`. */
  function BitOf(p: nat): bv32
    requires p < 32
  {
    if p == 0 then 0x1 else if p == 1 then 0x2 else if p == 2 then 0x4 else if p == 3 then 0x8 else
    if p == 4 then 0x10 else if p == 5 then 0x20 else if p == 6 then 0x40 else if p == 7 then 0x80 else
    if p == 8 then 0x100 else if p == 9 then 0x200 else if p == 10 then 0x400 else if p == 11 then 0x800 else
    if p == 12 then 0x1000 else if p == 13 then 0x2000 else if p == 14 then 0x4000 else if p == 15 then 0x8000 else
    if p == 16 then 0x10000 else if p == 17 then 0x20000 else if p == 18 then 0x40000 else if p == 19 then 0x80000 else
    if p == 20 then 0x100000 else if p == 21 then 0x200000 else if p == 22 then 0x400000 else
    if p == 23 then 0x800000 else if p == 24 then 0x1000000 else if p == 25 then 0x2000000 else
    if p == 26 then 0x4000000 else if p == 27 then 0x8000000 else if p == 28 then 0x10000000 else
    if p == 29 then 0x20000000 else if p == 30 then 0x40000000 else 0x80000000
  }

  /** The word `v` has the bit `b`. */
  predicate In(v: bv32, b: bv32) { v & b != 0 }

  lemma BitsApart(p: nat, q: nat)
    requires p < 32 && q < 32 && p != q
    ensures BitOf(p) & BitOf(q) == 0
  {
  }

  lemma BitsBelow(p: nat, q: nat)
    requires q < p < 32
    ensures BitOf(q) & (BitOf(p) - 1) == BitOf(q)
  {
  }

  lemma OtherSet(v: bv32, b: bv32, c: bv32)
    requires b & c == 0
    ensures In(v | b, c) == In(v, c)
  {
    assert (v | b) & c == v & c;
  }

  lemma OtherCleared(v: bv32, b: bv32, c: bv32)
    requires b & c == 0
    ensures In(v & !b, c) == In(v, c)
  {
    assert (v & !b) & c == v & c;
  }

  lemma OwnSet(v: bv32, b: bv32)
    requires b != 0
    ensures In(v | b, b)
  {
    assert (v | b) & b == b;
  }

  lemma OwnCleared(v: bv32, b: bv32)
    ensures !In(v & !b, b)
  {
    assert (v & !b) & b == 0;
  }

  // ----- the lowest bit set -----

  /** One row of the table, read across; the first column is `Column`. */
  function Row(x: bv32): nat {
    if x == 1 then 0 else if x == 2 then 1 else if x == 3 then 0 else if x == 4 then 2 else if x == 5 then 0 else
    if x == 6 then 1 else if x == 7 then 0 else if x == 8 then 3 else if x == 9 then 0 else if x == 10 then 1 else
    if x == 11 then 0 else if x == 12 then 2 else if x == 13 then 0 else if x == 14 then 1 else if x == 15 then 0 else 0
  }

  /** The first column of the table, read downward. */
  function Column(x: bv32): nat {
    if x == 1 then 4 else if x == 2 then 5 else if x == 3 then 4 else if x == 4 then 6 else if x == 5 then 4 else
    if x == 6 then 5 else if x == 7 then 4 else if x == 8 then 7 else if x == 9 then 4 else if x == 10 then 5 else
    if x == 11 then 4 else if x == 12 then 6 else if x == 13 then 4 else if x == 14 then 5 else if x == 15 then 4 else 0
  }

  /** `__lowest_bit_bitmap`. */
  function LowestBit(i: bv32): nat {
    if i & 0xf != 0 then Row(i & 0xf) else Column(i >> 4)
  }

  /** `__rt_ffs`: places are counted from one. */
  function Ffs(v: bv32): nat {
    if v == 0 then 0
    else if v & 0xff != 0 then LowestBit(v & 0xff) + 1
    else if v & 0xff00 != 0 then LowestBit((v & 0xff00) >> 8) + 9
    else if v & 0xff0000 != 0 then LowestBit((v & 0xff0000) >> 16) + 17
    else LowestBit((v & 0xff000000) >> 24) + 25
  }

  /** The bit `b` of `v` is set and no lower one. */
  predicate Lowest(v: bv32, b: bv32) {
    v & b != 0 && v & (b - 1) == 0
  }

  lemma LowestRow(i: bv32)
    requires i & 0xf != 0
    ensures Row(i & 0xf) < 4 && Lowest(i, BitOf(Row(i & 0xf)))
  {
  }

  lemma LowestColumn(i: bv32)
    requires i & 0xf == 0 && i != 0 && i < 0x100
    ensures 4 <= Column(i >> 4) < 8 && Lowest(i, BitOf(Column(i >> 4)))
  {
  }

  lemma LowestByte(i: bv32)
    requires i != 0 && i < 0x100
    ensures LowestBit(i) < 8 && Lowest(i, BitOf(LowestBit(i)))
  {
    if i & 0xf != 0 { LowestRow(i); } else { LowestColumn(i); }
  }

  lemma BitByte(k: nat)
    requires k < 24
    ensures BitOf(k + 8) == BitOf(k) << 8
  {
  }

  lemma ByteUp(v: bv32, b: bv32)
    requires v & 0xff == 0 && Lowest(v >> 8, b)
    ensures Lowest(v, b << 8)
  {
  }

  /** The lowest bit of a word whose low byte is zero is found in the rest of it. */
  lemma NextByte(v: bv32, k: nat)
    requires v & 0xff == 0 && k < 24 && Lowest(v >> 8, BitOf(k))
    ensures Lowest(v, BitOf(k + 8))
  {
    BitByte(k);
    ByteUp(v, BitOf(k));
  }

  lemma LowByte(v: bv32, b: bv32)
    requires Lowest(v & 0xff, b) && b < 0x100
    ensures Lowest(v, b)
  {
  }

  lemma SmallBit(k: nat)
    requires k < 8
    ensures BitOf(k) < 0x100
  {
  }

  lemma ByteAt(v: bv32)
    ensures (v & 0xff00) >> 8 == (v >> 8) & 0xff
    ensures (v & 0xff0000) >> 16 == ((v >> 8) >> 8) & 0xff
    ensures (v & 0xff000000) >> 24 == (((v >> 8) >> 8) >> 8) & 0xff
  {
  }

  /** The search for the lowest bit within the low byte. */
  lemma InLowByte(v: bv32)
    requires v & 0xff != 0
    ensures LowestBit(v & 0xff) < 8 && Lowest(v, BitOf(LowestBit(v & 0xff)))
  {
    ByteRange(v);
    LowestByte(v & 0xff);
    SmallBit(LowestBit(v & 0xff));
    LowByte(v, BitOf(LowestBit(v & 0xff)));
  }

  lemma ByteRange(v: bv32)
    ensures v & 0xff < 0x100
  {
  }

  lemma Empty(v: bv32)
    ensures v & 0xff00 == 0 && v & 0xff == 0 ==> (v >> 8) & 0xff == 0
    ensures v & 0xff0000 == 0 && (v >> 8) & 0xff == 0 ==> ((v >> 8) >> 8) & 0xff == 0
    ensures v & 0xff00 != 0 ==> (v >> 8) & 0xff != 0
    ensures v & 0xff0000 != 0 ==> ((v >> 8) >> 8) & 0xff != 0
    ensures v != 0 && v & 0xff == 0 && v & 0xff00 == 0 && v & 0xff0000 == 0 ==> (((v >> 8) >> 8) >> 8) & 0xff != 0
  {
  }

  lemma InSecondByte(v: bv32, w: bv32)
    requires v & 0xff == 0 && w == v >> 8 && w & 0xff != 0
    ensures LowestBit(w & 0xff) < 8 && Lowest(v, BitOf(LowestBit(w & 0xff) + 8))
  {
    InLowByte(w);
    NextByte(v, LowestBit(w & 0xff));
  }

  lemma InThirdByte(v: bv32, w: bv32, x: bv32)
    requires v & 0xff == 0 && w == v >> 8 && w & 0xff == 0 && x == w >> 8 && x & 0xff != 0
    ensures LowestBit(x & 0xff) < 8 && Lowest(v, BitOf(LowestBit(x & 0xff) + 16))
  {
    InSecondByte(w, x);
    NextByte(v, LowestBit(x & 0xff) + 8);
  }

  lemma InFourthByte(v: bv32, w: bv32, x: bv32, y: bv32)
    requires v & 0xff == 0 && w == v >> 8 && w & 0xff == 0 && x == w >> 8 && x & 0xff == 0 && y == x >> 8
    requires y & 0xff != 0
    ensures LowestBit(y & 0xff) < 8 && Lowest(v, BitOf(LowestBit(y & 0xff) + 24))
  {
    InThirdByte(w, x, y);
    NextByte(v, LowestBit(y & 0xff) + 16);
  }

  /** `__rt_ffs` finds the lowest bit set. */
  lemma FfsFinds(v: bv32)
    requires v != 0
    ensures 1 <= Ffs(v) <= 32 && Lowest(v, BitOf(Ffs(v) - 1))
  {
    if v & 0xff != 0 {
      InLowByte(v);
    } else {
      FfsHigh(v);
    }
  }

  lemma FfsHigh(v: bv32)
    requires v != 0 && v & 0xff == 0
    ensures 1 <= Ffs(v) <= 32 && Lowest(v, BitOf(Ffs(v) - 1))
  {
    ByteAt(v);
    Empty(v);
    if v & 0xff00 != 0 {
      InSecondByte(v, v >> 8);
    } else if v & 0xff0000 != 0 {
      InThirdByte(v, v >> 8, (v >> 8) >> 8);
    } else {
      InFourthByte(v, v >> 8, (v >> 8) >> 8, ((v >> 8) >> 8) >> 8);
    }
  }

  lemma Under(v: bv32, b: bv32, c: bv32)
    requires Lowest(v, b) && c & (b - 1) == c
    ensures !In(v, c)
  {
  }

  // ----- the masks a thread carries -----

  ghost predicate Apart(ms: seq<bv32>, p: int, q: int) {
    0 <= p < |ms| && 0 <= q < |ms| ==> if p == q then ms[p] != 0 else ms[p] & ms[q] == 0
  }

  /** The bit search finds the first mask that a word meets. */
  ghost predicate Found(ms: seq<bv32>, v: bv32) {
    v != 0 ==> 1 <= Ffs(v) <= |ms| && In(v, ms[Ffs(v) - 1]) && forall q :: 0 <= q < Ffs(v) - 1 ==> !In(v, ms[q])
  }

  ghost predicate Good(ms: seq<bv32>) {
    && |ms| == 32
    && (forall p, q {:trigger Apart(ms, p, q)} :: Apart(ms, p, q))
    && forall v {:trigger Ffs(v)} :: Found(ms, v)
  }

  function Masks(): seq<bv32> {
    seq(32, p requires 0 <= p < 32 => BitOf(p))
  }

  lemma BitNotZero(p: nat)
    requires p < 32
    ensures BitOf(p) != 0
  {
  }

  lemma MasksGood()
    ensures Good(Masks())
  {
    var ms := Masks();
    forall p, q ensures Apart(ms, p, q) {
      if 0 <= p < 32 && 0 <= q < 32 {
        if p == q { BitNotZero(p); } else { BitsApart(p, q); }
      }
    }
    forall v ensures Found(ms, v) {
      if v != 0 { FoundAt(v); }
    }
  }

  lemma FoundAt(v: bv32)
    requires v != 0
    ensures Found(Masks(), v)
  {
    FfsFinds(v);
    var k := Ffs(v) - 1;
    LowestIn(v, BitOf(k));
    forall q | 0 <= q < k ensures !In(v, BitOf(q)) {
      BitsBelow(k, q);
      Under(v, BitOf(k), BitOf(q));
    }
  }

  lemma LowestIn(v: bv32, b: bv32)
    requires Lowest(v, b)
    ensures In(v, b)
  {
  }

  lemma MasksApart(ms: seq<bv32>, p: nat, q: nat)
    requires Good(ms) && p < 32 && q < 32
    ensures if p == q then ms[p] != 0 else ms[p] & ms[q] == 0
  {
    assert Apart(ms, p, q);
  }

  lemma ZeroHasNone(ms: seq<bv32>, v: bv32)
    requires Good(ms)
    ensures v == 0 <==> forall q :: 0 <= q < 32 ==> !In(v, ms[q])
  {
    assert Found(ms, v);
    if v == 0 {
      forall q | 0 <= q < 32 ensures !In(v, ms[q]) { NothingIn(ms[q]); }
    }
  }

  lemma NothingIn(b: bv32)
    ensures !In(0, b)
  {
  }

  lemma SetOther(ms: seq<bv32>, v: bv32, p: nat, q: nat)
    requires Good(ms) && p < 32 && q < 32 && p != q
    ensures In(v | ms[p], ms[q]) == In(v, ms[q])
  {
    MasksApart(ms, p, q);
    var b, c := ms[p], ms[q];
    OtherSet(v, b, c);
  }

  lemma ClearOther(ms: seq<bv32>, v: bv32, p: nat, q: nat)
    requires Good(ms) && p < 32 && q < 32 && p != q
    ensures In(v & !ms[p], ms[q]) == In(v, ms[q])
  {
    MasksApart(ms, p, q);
    var b, c := ms[p], ms[q];
    OtherCleared(v, b, c);
  }

  lemma SetOwn(ms: seq<bv32>, v: bv32, p: nat)
    requires Good(ms) && p < 32
    ensures In(v | ms[p], ms[p])
  {
    MasksApart(ms, p, p);
    OwnSet(v, ms[p]);
  }

  lemma ClearOwn(ms: seq<bv32>, v: bv32, p: nat)
    requires p < |ms|
    ensures !In(v & !ms[p], ms[p])
  {
    OwnCleared(v, ms[p]);
  }

  /** The word after setting bit `p`, bit by bit. */
  lemma SetFacts(ms: seq<bv32>, v: bv32, w: bv32, p: nat)
    requires Good(ms) && p < 32 && w == v | ms[p]
    ensures forall q: nat :: q < 32 ==> (In(w, ms[q]) <==> q == p || In(v, ms[q]))
  {
    SetOwn(ms, v, p);
    forall q: nat | q < 32 && q != p ensures In(w, ms[q]) == In(v, ms[q]) {
      SetOther(ms, v, p, q);
    }
  }

  /** The word after clearing bit `p`, bit by bit. */
  lemma ClearFacts(ms: seq<bv32>, v: bv32, w: bv32, p: nat)
    requires Good(ms) && p < 32 && w == v & !ms[p]
    ensures forall q: nat :: q < 32 ==> (In(w, ms[q]) <==> q != p && In(v, ms[q]))
  {
    ClearOwn(ms, v, p);
    forall q: nat | q < 32 && q != p ensures In(w, ms[q]) == In(v, ms[q]) {
      ClearOther(ms, v, p, q);
    }
  }

  /** `rt_thread_ready_priority_group` and, with more than 32 priorities, `rt_thread_ready_table`. */
  class Bitmap {
    const wide: bool
    const masks: seq<bv32>
    const table: array<bv32>
    var group: bv32
    ghost var ready: set<nat>

    /** One word: bit `p` stands for priority `p`. */
    ghost predicate NarrowOk(p: nat)
      reads this
    {
      p < 32 == |masks| ==> (In(group, masks[p]) <==> p in ready)
    }

    /** Two levels: bit `k` of word `n` stands for priority `8 n + k`. */
    ghost predicate WideOk(n: nat, k: nat)
      reads this`ready, table
    {
      n < 32 && k < 32 == |masks| && table.Length == 32 ==> (In(table[n], masks[k]) <==> k < 8 && 8 * n + k in ready)
    }

    ghost predicate GroupOk(n: nat)
      reads this`group, table
    {
      n < 32 == |masks| && table.Length == 32 ==> (In(group, masks[n]) <==> table[n] != 0)
    }

    ghost predicate Valid()
      reads this, table
    {
      && Good(masks) && table.Length == 32
      && if wide
         then
           && (forall p :: p in ready ==> p < 256)
           && (forall n: nat, k: nat {:trigger WideOk(n, k)} :: WideOk(n, k))
           && forall n: nat {:trigger GroupOk(n)} :: GroupOk(n)
         else (forall p :: p in ready ==> p < 32) && forall p: nat {:trigger NarrowOk(p)} :: NarrowOk(p)
    }

    constructor (wide: bool)
      ensures Valid() && ready == {} && this.wide == wide && fresh(table)
    {
      this.wide := wide;
      masks := Masks();
      table := new bv32[32](_ => 0);
      group := 0;
      ready := {};
      MasksGood();
      new;
      ZeroHasNone(masks, 0);
    }

    /** `v |= mask`. */
    method SetBit(v: bv32, k: nat) returns (w: bv32)
      requires Good(masks) && k < 32
      ensures w != 0 && forall q: nat :: q < 32 ==> (In(w, masks[q]) <==> q == k || In(v, masks[q]))
    {
      w := v | masks[k];
      SetFacts(masks, v, w, k);
      ZeroHasNone(masks, w);
    }

    /** `v &= ~mask`. */
    method ClearBit(v: bv32, k: nat) returns (w: bv32)
      requires Good(masks) && k < 32
      ensures forall q: nat :: q < 32 ==> (In(w, masks[q]) <==> q != k && In(v, masks[q]))
    {
      w := v & !masks[k];
      ClearFacts(masks, v, w, k);
    }

    /** Priority `p` has a ready thread. */
    method Mark(p: nat)
      requires Valid() && p < if wide then 256 else 32
      modifies this`group, this`ready, table
      ensures Valid() && ready == old(ready) + {p}
    {
      if wide {
        MarkWide(p, p / 8, p % 8);
      } else {
        group := SetBit(group, p);
        ready := ready + {p};
        forall q: nat ensures NarrowOk(q) {
          assert old(NarrowOk(q));
        }
      }
    }

    method MarkWide(p: nat, n: nat, k: nat)
      requires Valid() && wide && n < 32 && k < 8 && p == 8 * n + k
      modifies this`group, this`ready, table
      ensures Valid() && ready == old(ready) + {p}
    {
      table[n] := SetBit(table[n], k);
      group := SetBit(group, n);
      ready := ready + {p};
      forall m: nat, j: nat ensures WideOk(m, j) {
        assert old(WideOk(m, j));
      }
      forall m: nat ensures GroupOk(m) {
        assert old(GroupOk(m));
      }
    }

    /** Priority `p` has no ready thread any more. */
    method Unmark(p: nat)
      requires Valid() && p < if wide then 256 else 32
      modifies this`group, this`ready, table
      ensures Valid() && ready == old(ready) - {p}
    {
      if wide {
        UnmarkWide(p, p / 8, p % 8);
      } else {
        group := ClearBit(group, p);
        ready := ready - {p};
        forall q: nat ensures NarrowOk(q) {
          assert old(NarrowOk(q));
        }
      }
    }

    method UnmarkWide(p: nat, n: nat, k: nat)
      requires Valid() && wide && n < 32 && k < 8 && p == 8 * n + k
      modifies this`group, this`ready, table
      ensures Valid() && ready == old(ready) - {p}
    {
      ZeroHasNone(masks, table[n]);
      table[n] := ClearBit(table[n], k);
      ZeroHasNone(masks, table[n]);
      if table[n] == 0 {
        group := ClearBit(group, n);
      }
      ready := ready - {p};
      forall m: nat, j: nat ensures WideOk(m, j) {
        assert old(WideOk(m, j));
      }
      forall m: nat ensures GroupOk(m) {
        assert old(GroupOk(m));
      }
    }

    /** A ready priority shows in the group word. */
    lemma ReadyShows(p: nat)
      requires Valid() && p in ready
      ensures if wide then table[p / 8] != 0 && In(group, masks[p / 8]) && In(table[p / 8], masks[p % 8])
              else In(group, masks[p])
      ensures group != 0
    {
      ZeroHasNone(masks, group);
      if wide {
        Halves(p);
        assert WideOk(p / 8, p % 8) && GroupOk(p / 8);
        ZeroHasNone(masks, table[p / 8]);
      } else {
        assert NarrowOk(p);
      }
    }

    /** Where the bit searches of `_get_highest_priority_thread` lead. */
    function Place(): int
      requires Valid() && group != 0
      reads this, table
    {
      assert Found(masks, group);
      if wide then
        var number := Ffs(group) - 1;
        number * 8 + Ffs(table[number]) - 1
      else Ffs(group) - 1
    }

    lemma PlaceIsReady()
      requires Valid() && group != 0
      ensures Place() >= 0 && Place() as nat in ready
    {
      assert Found(masks, group);
      var n := Ffs(group) - 1;
      if wide {
        assert GroupOk(n) && Found(masks, table[n]);
        assert WideOk(n, Ffs(table[n]) - 1);
      } else {
        assert NarrowOk(n);
      }
    }

    /** The second search stays within eight bits. */
    lemma FirstInByte()
      requires Valid() && wide && group != 0
      ensures var number := Ffs(group) - 1; 0 <= number < 32 && 1 <= Ffs(table[number]) <= 8
    {
      assert Found(masks, group);
      var n := Ffs(group) - 1;
      assert GroupOk(n) && Found(masks, table[n]);
      assert WideOk(n, Ffs(table[n]) - 1);
    }

    /** The first search does not pass the word of a ready priority. */
    lemma GroupLeads(p: nat)
      requires Valid() && wide && group != 0 && p in ready
      ensures Ffs(group) - 1 <= p / 8 < 32
    {
      ReadyShows(p);
      Halves(p);
      assert Found(masks, group);
    }

    /** The second search does not pass its bit. */
    lemma WordLeads(p: nat)
      requires Valid() && wide && p in ready
      ensures p / 8 < 32 && Ffs(table[p / 8]) - 1 <= p % 8
    {
      ReadyShows(p);
      Halves(p);
      assert Found(masks, table[p / 8]);
    }

    lemma PlaceIsLeast(p: nat)
      requires Valid() && group != 0 && p in ready
      ensures Place() <= p
    {
      if wide {
        GroupLeads(p);
        WordLeads(p);
        FirstInByte();
        Halves(p);
      } else {
        ReadyShows(p);
        assert Found(masks, group);
      }
    }

    /** The scheduler looks at the group word to see whether any thread is ready. */
    method Any() returns (any: bool)
      requires Valid()
      ensures any <==> ready != {}
    {
      any := group != 0;
      if any {
        PlaceIsReady();
      } else {
        forall p | p in ready ensures false { ReadyShows(p); }
      }
    }

    /** The most urgent ready priority. */
    method First() returns (p: nat)
      requires Valid() && ready != {}
      ensures p in ready && forall q :: q in ready ==> p <= q
    {
      ghost var some :| some in ready;
      ReadyShows(some);
      PlaceIsReady();
      forall q | q in ready ensures Place() <= q { PlaceIsLeast(q); }
      p := Place();
    }
  }

  lemma Halves(p: nat)
    requires p < 256
    ensures p / 8 < 32 && p % 8 < 8 && p == 8 * (p / 8) + p % 8
  {
  }
}

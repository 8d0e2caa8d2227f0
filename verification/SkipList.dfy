/** The sorted rows of the timer skip list of rt-thread/src/timer.c.

    A timer is a number.  The bottom row lists all pending timers; a row above lists the
    taller ones among them.  Deadlines are kept twice: as the 32-bit tick the program
    stores, and unwrapped, as the integer it stands for. */
module SkipList {
  import opened Rings

  // ----- ticks -----

  const TICKS: int := 0x1_0000_0000
  const HALF: int := 0x7fff_ffff

  function Wrap(x: int): nat { x % TICKS }

  /** The stored tick `a` is after the stored tick `b`, as the program decides it. */
  predicate After(a: nat, b: nat) {
    Wrap(a - b) != 0 && Wrap(a - b) < HALF
  }

  lemma WrapDiff(a: int, b: int)
    ensures Wrap(Wrap(a) - Wrap(b)) == Wrap(a - b)
  {
    var p, q := a / TICKS, b / TICKS;
    var x := a - b;
    var y := Wrap(a) - Wrap(b);
    assert x == y + (p - q) * TICKS;
    assert y == x - (p - q) * TICKS;
    SameResidue(x, y, p - q);
  }

  lemma SameResidue(x: int, y: int, k: int)
    requires x == y + k * TICKS
    ensures Wrap(x) == Wrap(y)
  {
    var q := y / TICKS;
    assert y == q * TICKS + Wrap(y);
    assert x == (q + k) * TICKS + Wrap(y);
  }

  /** Two unwrapped ticks are close enough for the program to tell which comes first. */
  ghost predicate Comparable(a: int, b: int) {
    -(HALF + 2) <= a - b < HALF
  }

  /** Among ticks less than a whole turn apart, the program orders exactly the comparable ones correctly. */
  lemma OrderIff(a: int, b: int)
    requires -TICKS <= a - b <= TICKS
    ensures Comparable(a, b) <==> (After(Wrap(a), Wrap(b)) <==> a > b) && (Wrap(Wrap(a) - Wrap(b)) == 0 <==> a == b)
  {
    WrapDiff(a, b);
  }

  /** The program finds `now` past `due`. */
  lemma PastIff(now: int, due: int)
    requires -(HALF + 2) <= now - due < HALF
    ensures Wrap(Wrap(now) - Wrap(due)) < HALF <==> due <= now
  {
    WrapDiff(now, due);
  }

  lemma WrapStep(now: int)
    ensures Wrap(Wrap(now) + 1) == Wrap(now + 1)
  {
    WrapDiff(now, -1);
    WrapDiff(Wrap(now), -1);
  }

  lemma WrapSum(now: int, d: nat)
    ensures Wrap(Wrap(now) + d) == Wrap(now + d)
  {
    SameResidue(now + d, Wrap(now) + d, now / TICKS);
  }

  // ----- rows -----

  ghost function Of(h: seq<int>, t: nat): int {
    if t < |h| then h[t] else 0
  }

  /** The timers of `row` that are at least `k` rows tall, in the same order. */
  ghost function Tall(row: seq<nat>, height: seq<int>, k: int): seq<nat> {
    if row == [] then []
    else
      var last := row[|row| - 1];
      var rest := Tall(row[..|row| - 1], height, k);
      if Of(height, last) >= k then rest + [last] else rest
  }

  /** `row` without timer `t`. */
  function Minus(row: seq<nat>, t: nat): seq<nat> {
    if row == [] then []
    else
      var last := row[|row| - 1];
      var rest := Minus(row[..|row| - 1], t);
      if last != t then rest + [last] else rest
  }

  function Insert(row: seq<nat>, p: nat, t: nat): seq<nat>
    requires p <= |row|
  {
    row[..p] + [t] + row[p..]
  }

  ghost predicate Ordered(row: seq<nat>, due: seq<int>, i: int, j: int) {
    0 <= i < j < |row| ==> Of(due, row[i]) <= Of(due, row[j])
  }

  ghost predicate Sorted(row: seq<nat>, due: seq<int>) {
    forall i, j {:trigger Ordered(row, due, i, j)} :: Ordered(row, due, i, j)
  }

  /** Behind everything due by `d`, in front of everything due later. */
  ghost predicate IsSpot(row: seq<nat>, due: seq<int>, d: int, p: nat) {
    && p <= |row|
    && (forall i :: 0 <= i < p ==> Of(due, row[i]) <= d)
    && (forall i :: p <= i < |row| ==> Of(due, row[i]) > d)
  }

  /** The place a scan of the row from its head arrives at: the first timer due after `d`. */
  ghost function Linear(row: seq<nat>, due: seq<int>, d: int): (p: nat)
    ensures p <= |row|
  {
    if row == [] || Of(due, row[0]) > d then 0 else 1 + Linear(row[1..], due, d)
  }

  lemma {:induction false} LinearIs(row: seq<nat>, due: seq<int>, d: int, p: nat)
    requires IsSpot(row, due, d, p)
    ensures Linear(row, due, d) == p
  {
    if p > 0 {
      assert row[0] == row[0];
      LinearIs(row[1..], due, d, p - 1);
    }
  }

  lemma TallSnoc(row: seq<nat>, t: nat, height: seq<int>, k: int)
    ensures Tall(row + [t], height, k) == if Of(height, t) >= k then Tall(row, height, k) + [t]
                                          else Tall(row, height, k)
  {
    assert (row + [t])[..|row|] == row;
  }

  lemma MinusSnoc(row: seq<nat>, t: nat, u: nat)
    ensures Minus(row + [t], u) == if t != u then Minus(row, u) + [t] else Minus(row, u)
  {
    assert (row + [t])[..|row|] == row;
  }

  lemma {:induction false} TallJoin(a: seq<nat>, b: seq<nat>, height: seq<int>, k: int)
    ensures Tall(a + b, height, k) == Tall(a, height, k) + Tall(b, height, k)
  {
    if b == [] {
      assert a + b == a;
    } else {
      var c := b[..|b| - 1];
      assert (a + b)[..|a + b| - 1] == a + c;
      TallJoin(a, c, height, k);
    }
  }

  lemma {:induction false} TallHas(row: seq<nat>, height: seq<int>, k: int)
    ensures forall t :: t in Tall(row, height, k) <==> t in row && Of(height, t) >= k
  {
    if row != [] {
      var last := row[|row| - 1];
      TallHas(row[..|row| - 1], height, k);
      assert row == row[..|row| - 1] + [last];
    }
  }

  lemma {:induction false} TallSame(row: seq<nat>, h: seq<int>, g: seq<int>, k: int)
    requires forall t :: t in row ==> Of(h, t) == Of(g, t)
    ensures Tall(row, h, k) == Tall(row, g, k)
  {
    if row != [] {
      assert row[|row| - 1] in row;
      TallSame(row[..|row| - 1], h, g, k);
    }
  }

  lemma {:induction false} TallAll(row: seq<nat>, h: seq<int>, k: int)
    requires forall t :: t in row ==> Of(h, t) >= k
    ensures Tall(row, h, k) == row
  {
    if row != [] {
      assert row[|row| - 1] in row;
      TallAll(row[..|row| - 1], h, k);
    }
  }

  /** Taller of the tall: every row is a subsequence of the row below it. */
  lemma {:induction false} TallOfTall(row: seq<nat>, h: seq<int>, k: int, m: int)
    requires k <= m
    ensures Tall(Tall(row, h, k), h, m) == Tall(row, h, m)
  {
    if row != [] {
      var front, last := row[..|row| - 1], row[|row| - 1];
      TallOfTall(front, h, k, m);
      if Of(h, last) >= k {
        TallSnoc(Tall(front, h, k), last, h, m);
      }
    }
  }

  lemma {:induction false} TallSorted(row: seq<nat>, h: seq<int>, k: int, due: seq<int>)
    requires Sorted(row, due)
    ensures Sorted(Tall(row, h, k), due)
  {
    if row != [] {
      var front, last := row[..|row| - 1], row[|row| - 1];
      forall i, j ensures Ordered(front, due, i, j) {
        assert Ordered(row, due, i, j);
      }
      TallSorted(front, h, k, due);
      TallHas(front, h, k);
      var r, s := Tall(row, h, k), Tall(front, h, k);
      forall i, j ensures Ordered(r, due, i, j) {
        assert Ordered(s, due, i, j);
        if 0 <= i < j < |r| && j == |s| {
          assert s[i] in s && s[i] in front;
          var q :| 0 <= q < |front| && front[q] == s[i];
          assert Ordered(row, due, q, |row| - 1);
        }
      }
    }
  }

  /** The place in a row above is the place in the bottom row, less the low timers before it. */
  lemma SpotAbove(row: seq<nat>, h: seq<int>, k: int, due: seq<int>, d: int, p: nat, q: nat)
    requires IsSpot(row, due, d, p) && IsSpot(Tall(row, h, k), due, d, q)
    ensures Tall(row, h, k)[..q] == Tall(row[..p], h, k) && Tall(row, h, k)[q..] == Tall(row[p..], h, k)
  {
    var a, b := Tall(row[..p], h, k), Tall(row[p..], h, k);
    assert row == row[..p] + row[p..];
    TallJoin(row[..p], row[p..], h, k);
    TallHas(row[..p], h, k);
    TallHas(row[p..], h, k);
    forall i | 0 <= i < |a| ensures Of(due, a[i]) <= d {
      assert a[i] in a && a[i] in row[..p];
    }
    forall i | 0 <= i < |b| ensures Of(due, b[i]) > d {
      assert b[i] in b && b[i] in row[p..];
    }
    LinearIs(a + b, due, d, |a|);
    LinearIs(a + b, due, d, q);
  }

  lemma TallInsert(row: seq<nat>, h: seq<int>, k: int, due: seq<int>, d: int, p: nat, q: nat, t: nat)
    requires IsSpot(row, due, d, p) && IsSpot(Tall(row, h, k), due, d, q) && Of(h, t) >= k
    ensures Insert(Tall(row, h, k), q, t) == Tall(Insert(row, p, t), h, k)
  {
    SpotAbove(row, h, k, due, d, p, q);
    TallJoin(row[..p] + [t], row[p..], h, k);
    TallSnoc(row[..p], t, h, k);
  }

  lemma TallSkip(row: seq<nat>, h: seq<int>, k: int, p: nat, t: nat)
    requires p <= |row| && Of(h, t) < k
    ensures Tall(row, h, k) == Tall(Insert(row, p, t), h, k)
  {
    assert row == row[..p] + row[p..];
    TallJoin(row[..p], row[p..], h, k);
    TallJoin(row[..p] + [t], row[p..], h, k);
    TallSnoc(row[..p], t, h, k);
  }

  /** A timer `tall` rows high enters row `k`, counted from the bottom, if the row is low enough. */
  lemma TallEnter(row: seq<nat>, h: seq<int>, t: nat, tall: int, k: int, due: seq<int>, p: nat, q: nat)
    requires t < |h| && t !in row && IsSpot(row, due, Of(due, t), p) && IsSpot(Tall(row, h, k), due, Of(due, t), q)
    ensures Tall(Insert(row, p, t), h[t := tall], k) == if k <= tall then Insert(Tall(row, h, k), q, t)
                                                        else Tall(row, h, k)
  {
    TallSame(row, h, h[t := tall], k);
    if k <= tall {
      TallInsert(row, h[t := tall], k, due, Of(due, t), p, q, t);
    } else {
      TallSkip(row, h[t := tall], k, p, t);
    }
  }

  /** Row `l` holds the timers of the bottom row that are tall enough for it. */
  ghost predicate RowIs(rows: seq<seq<nat>>, height: seq<int>, l: int) {
    0 <= l < |rows| ==> rows[l] == Tall(rows[|rows| - 1], height, |rows| - l)
  }

  lemma RowEnters(b: seq<nat>, row: seq<nat>, up: seq<nat>, now: seq<nat>, h: seq<int>, t: nat, tall: int, k: int,
                  due: seq<int>, p: nat, q: nat)
    requires t < |h| && t !in b && row == Tall(b, h, k)
    requires IsSpot(b, due, Of(due, t), p) && IsSpot(row, due, Of(due, t), q)
    requires up == Insert(b, p, t) && now == if k <= tall then Insert(row, q, t) else row
    ensures now == Tall(up, h[t := tall], k)
  {
    TallEnter(b, h, t, tall, k, due, p, q);
  }

  lemma RowsEnter(rows: seq<seq<nat>>, after: seq<seq<nat>>, h: seq<int>, t: nat, tall: int, due: seq<int>,
                  places: seq<nat>)
    requires |rows| == |after| == |places| > 0 && t < |h| && t !in rows[|rows| - 1] && tall >= 1
    requires forall l {:trigger RowIs(rows, h, l)} :: RowIs(rows, h, l)
    requires forall l :: 0 <= l < |rows| ==> places[l] <= |rows[l]| && IsSpot(rows[l], due, Of(due, t), places[l])
    requires forall l :: 0 <= l < |rows| ==>
               after[l] == if |rows| - l <= tall then Insert(rows[l], places[l], t) else rows[l]
    ensures var g := h[t := tall]; forall l {:trigger RowIs(after, g, l)} :: RowIs(after, g, l)
  {
    var top, g := |rows| - 1, h[t := tall];
    forall l ensures RowIs(after, g, l) {
      assert RowIs(rows, h, l);
      if 0 <= l < |rows| {
        RowEnters(rows[top], rows[l], after[top], after[l], h, t, tall, |rows| - l, due, places[top], places[l]);
      }
    }
  }

  lemma InsertKeeps(row: seq<nat>, due: seq<int>, p: nat, t: nat)
    requires Distinct(row) && Sorted(row, due) && t !in row && IsSpot(row, due, Of(due, t), p)
    ensures Distinct(Insert(row, p, t)) && Sorted(Insert(row, p, t), due)
    ensures forall u :: u in Insert(row, p, t) <==> u == t || u in row
  {
    var r := Insert(row, p, t);
    forall i, j ensures Differ(r, i, j) && Ordered(r, due, i, j) {
      var a, b := if i < p then i else i - 1, if j < p then j else j - 1;
      assert Differ(row, a, b) && Ordered(row, due, a, b);
    }
    assert r[p] == t;
    forall i | 0 <= i < |row| ensures row[i] in r {
      assert row[i] == r[if i < p then i else i + 1];
    }
  }

  // ----- removing -----

  lemma {:induction false} MinusTall(row: seq<nat>, t: nat, h: seq<int>, k: int)
    ensures Minus(Tall(row, h, k), t) == Tall(Minus(row, t), h, k)
  {
    if row != [] {
      var front, last := row[..|row| - 1], row[|row| - 1];
      MinusTall(front, t, h, k);
      MinusSnoc(Tall(front, h, k), last, t);
      TallSnoc(Minus(front, t), last, h, k);
    }
  }

  lemma {:induction false} MinusNone(row: seq<nat>, t: nat)
    requires t !in row
    ensures Minus(row, t) == row
  {
    if row != [] {
      assert row[|row| - 1] in row;
      MinusNone(row[..|row| - 1], t);
    }
  }

  lemma RowsLeave(rows: seq<seq<nat>>, after: seq<seq<nat>>, h: seq<int>, t: nat)
    requires |rows| == |after| > 0 && forall l {:trigger RowIs(rows, h, l)} :: RowIs(rows, h, l)
    requires forall l :: 0 <= l < |rows| ==> after[l] == Minus(rows[l], t)
    ensures forall l {:trigger RowIs(after, h, l)} :: RowIs(after, h, l)
  {
    forall l ensures RowIs(after, h, l) {
      assert RowIs(rows, h, l);
      if 0 <= l < |rows| {
        MinusTall(rows[|rows| - 1], t, h, |rows| - l);
      }
    }
  }

  lemma {:induction false} MinusKeeps(row: seq<nat>, due: seq<int>, t: nat)
    requires Distinct(row) && Sorted(row, due)
    ensures Distinct(Minus(row, t)) && Sorted(Minus(row, t), due)
    ensures forall u :: u in Minus(row, t) <==> u in row && u != t
  {
    if row != [] {
      var front, last := row[..|row| - 1], row[|row| - 1];
      assert row == front + [last];
      forall i, j ensures Differ(front, i, j) && Ordered(front, due, i, j) {
        assert Differ(row, i, j) && Ordered(row, due, i, j);
      }
      MinusKeeps(front, due, t);
      var r, s := Minus(row, t), Minus(front, t);
      forall i, j ensures Differ(r, i, j) && Ordered(r, due, i, j) {
        assert Differ(s, i, j) && Ordered(s, due, i, j);
        if 0 <= i < j < |r| && j == |s| {
          assert s[i] in s && s[i] in front;
          var q :| 0 <= q < |front| && front[q] == s[i];
          assert Differ(row, q, |row| - 1) && Ordered(row, due, q, |row| - 1);
        }
      }
    }
  }

  /** A list that holds each timer once loses exactly one element. */
  lemma {:induction false} MinusOne(row: seq<nat>, j: nat)
    requires Distinct(row) && j < |row|
    ensures Minus(row, row[j]) == Without(row, j)
  {
    var front, last := row[..|row| - 1], row[|row| - 1];
    forall i, k ensures Differ(front, i, k) {
      assert Differ(row, i, k);
    }
    if j < |row| - 1 {
      assert Differ(row, j, |row| - 1);
      MinusOne(front, j);
      assert front[..j] == row[..j] && front[j + 1..] + [last] == row[j + 1..];
    } else {
      forall i | 0 <= i < |front| ensures front[i] != last {
        assert Differ(row, i, |row| - 1);
      }
      MinusNone(front, last);
    }
  }
}

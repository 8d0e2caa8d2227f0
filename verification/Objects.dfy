/** What a heap is to the program that uses it: a memory of separate objects.  An object is named by the number of
    the request that made it.  `SmallHeap` and `MemHeap` both refine this memory. */
module Objects {
  import opened Blocks
  import opened Common

  /** The contents of every object ever made; an object that was given back has none. */
  type Memory<T> = seq<Option<seq<T>>>

  datatype Op<T> = Allocate(size: nat) | Release(k: nat) | Resize(k: nat, size: nat) | Store(k: nat, at: nat, value: T)
  {
    predicate Names(j: nat) {
      !Allocate? && k == j
    }
  }

  ghost predicate Lives<T>(m: Memory<T>, k: nat) {
    k < |m| && m[k].Some?
  }

  /** Object `k` of `m` is now `size` long and begins as it did before. */
  ghost predicate Changed<T>(m: Memory<T>, n: Memory<T>, k: nat, size: nat) {
    && Lives(m, k) && Lives(n, k) && n == m[k := n[k]] && |n[k].value| == size
    && var kept := Least(|m[k].value|, size); n[k].value[..kept] == m[k].value[..kept]
  }

  ghost predicate Added<T>(m: Memory<T>, n: Memory<T>, size: nat) {
    |n| == |m| + 1 && n[..|m|] == m && n[|m|].Some? && |n[|m|].value| == size
  }

  /** What an operation may do to the memory; a request for room may be refused, and then nothing changes. */
  ghost predicate Step<T>(op: Op<T>, m: Memory<T>, n: Memory<T>) {
    match op
    case Allocate(size) => n == m || Added(m, n, size)
    case Release(k) => n == if Lives(m, k) then m[k := None] else m
    case Resize(k, size) =>
      if Lives(m, k) && size == 0 then n == m[k := None] else n == m || Changed(m, n, k, size)
    case Store(k, at, value) =>
      n == if Lives(m, k) && at < |m[k].value| then m[k := Some(m[k].value[at := value])] else m
  }

  ghost predicate Trace<T>(ops: seq<Op<T>>, ms: seq<Memory<T>>) {
    |ms| == |ops| + 1 && forall i :: 0 <= i < |ops| ==> Step(ops[i], ms[i], ms[i + 1])
  }

  /** Byte `at` of object `k` is never cut off. */
  ghost predicate Keeps<T>(ops: seq<Op<T>>, k: nat, at: nat) {
    forall op :: op in ops && op.Names(k) ==> !op.Release? && (op.Resize? ==> at < op.size)
  }

  /** The value last stored to byte `at` of object `k`; `first` if there is none. */
  ghost function LastStored<T>(ops: seq<Op<T>>, k: nat, at: nat, first: T): T {
    if ops == [] then first
    else
      var op := ops[|ops| - 1];
      if op.Store? && op.k == k && op.at == at then op.value else LastStored(ops[..|ops| - 1], k, at, first)
  }

  /** A byte that is not cut off holds what was last stored to it, whatever happens to other objects and other bytes. */
  lemma {:induction false} ReadsLastStored<T>(ops: seq<Op<T>>, ms: seq<Memory<T>>, k: nat, at: nat)
    requires Trace(ops, ms) && Lives(ms[0], k) && at < |ms[0][k].value| && Keeps(ops, k, at)
    ensures var m := ms[|ops|];
      Lives(m, k) && at < |m[k].value| && m[k].value[at] == LastStored(ops, k, at, ms[0][k].value[at])
  {
    if ops != [] {
      var last := |ops| - 1;
      assert forall i :: 0 <= i < last ==> Step(ops[i], ms[i], ms[i + 1]);
      assert Trace(ops[..last], ms[..|ops|]);
      ReadsLastStored(ops[..last], ms[..|ops|], k, at);
      var op, m, n := ops[last], ms[last], ms[last + 1];
      assert op in ops && Step(op, m, n);
      match op
      case Allocate(size) =>
        assert n != m ==> n[..|m|][k] == m[k];
      case Resize(j, size) =>
        if n != m && j == k && size > 0 {
          var kept := Least(|m[k].value|, size);
          assert n[k].value[..kept][at] == m[k].value[..kept][at];
        }
      case _ =>
    }
  }

  /** Object `k` is copied into object `j` byte by byte; anything may happen to other objects in between. */
  ghost predicate Copies<T>(ops: seq<Op<T>>, ms: seq<Memory<T>>, k: nat, j: nat)
    requires Trace(ops, ms)
  {
    && (forall op :: op in ops ==> !op.Names(k))
    && forall i :: 0 <= i < |ops| && ops[i].Names(j) ==>
         && ops[i].Store? && Lives(ms[i], k) && ops[i].at < |ms[i][k].value| &&
         ops[i].value == ms[i][k].value[ops[i].at]
  }

  /** A payload that moves is allocated, copied and freed in separate regions.  However these are interleaved with
      other operations, the bytes copied arrive, and the old object is as it was. */
  lemma {:induction false} Copied<T>(ops: seq<Op<T>>, ms: seq<Memory<T>>, k: nat, j: nat, at: nat)
    requires Trace(ops, ms) && Copies(ops, ms, k, j) && k != j
    requires Lives(ms[0], k) && Lives(ms[0], j) && at < |ms[0][k].value| && at < |ms[0][j].value|
    ensures var m := ms[|ops|];
      && Lives(m, k) && m[k] == ms[0][k] && Lives(m, j) && |m[j].value| == |ms[0][j].value|
      && m[j].value[at] == if exists i ::
        0 <= i < |ops| && Writes(ops[i], j, at) then m[k].value[at] else ms[0][j].value[at]
  {
    if ops != [] {
      var last := |ops| - 1;
      var front, states := ops[..last], ms[..|ops|];
      assert forall i :: 0 <= i < last ==> Step(front[i], states[i], states[i + 1]) && front[i] == ops[i];
      Copied(front, states, k, j, at);
      var op, m, n := ops[last], ms[last], ms[last + 1];
      assert op in ops && Step(op, m, n);
      assert (exists i :: 0 <= i < |ops| && Writes(ops[i], j, at)) <==>
        Writes(op, j, at) || exists i :: 0 <= i < |front| && Writes(front[i], j, at);
      match op
      case Allocate(size) =>
        assert n != m ==> n[..|m|][k] == m[k] && n[..|m|][j] == m[j];
      case _ =>
    }
  }

  predicate Writes<T>(op: Op<T>, j: nat, at: nat) {
    op.Store? && op.k == j && op.at == at
  }

  // ----- the objects in a heap -----

  /** What the program was given for a request. */
  datatype Grant = Grant(ptr: nat, size: nat)

  ghost predicate Granted(g: Grant, live: set<Range>) {
    exists s :: s in live && s.lo == g.ptr && g.ptr + g.size <= s.hi
  }

  /** Objects lie in payloads in use, each in one of its own. */
  ghost predicate Owning(held: seq<Option<Grant>>, live: set<Range>) {
    && (forall k :: 0 <= k < |held| && held[k].Some? ==> Granted(held[k].value, live))
    && (forall j, k :: 0 <= j < k < |held| && held[j].Some? && held[k].Some? ==> held[j].value.ptr != held[k].value.ptr)
  }

  /** The contents of one object. */
  ghost function Bytes<T>(g: Option<Grant>, c: seq<T>): Option<seq<T>> {
    if g.Some? && g.value.ptr + g.value.size <= |c| then Some(c[g.value.ptr..g.value.ptr + g.value.size]) else None
  }

  /** The memory that the buffer `c` stands for. */
  ghost function Contents<T>(held: seq<Option<Grant>>, c: seq<T>): (m: Memory<T>)
    ensures |m| == |held| && forall k :: 0 <= k < |held| ==> m[k] == Bytes(held[k], c)
  {
    seq(|held|, k requires 0 <= k < |held| => Bytes(held[k], c))
  }

  /** No two payloads begin at the same address, and all lie in the buffer. */
  ghost predicate Placed(live: set<Range>, size: nat) {
    && (forall s, t :: s in live && t in live && s.lo == t.lo ==> s == t)
    && forall s :: s in live ==> s.hi <= size
  }

  /** Objects whose payloads stay intact keep their contents. */
  lemma OthersKept<T>(held: seq<Option<Grant>>, live: set<Range>, now: set<Range>, c: seq<T>, d: seq<T>, gone: int)
    requires Owning(held, live) && Intact(live, now, c, d, gone) && |c| == |d|
    requires forall k :: 0 <= k < |held| && held[k].Some? ==> held[k].value.ptr != gone
    ensures Owning(held, now) && Contents(held, d) == Contents(held, c)
  {
    forall k | 0 <= k < |held| && held[k].Some?
      ensures Granted(held[k].value, now) && Bytes(held[k], c) == Bytes(held[k], d)
    {
      var g := held[k].value;
      var s :| s in live && s.lo == g.ptr && g.ptr + g.size <= s.hi;
      assert s in now && Same(c, d, s);
      if g.ptr + g.size <= |c| {
        assert c[g.ptr..g.ptr + g.size] == d[g.ptr..g.ptr + g.size];
      }
    }
  }

  /** An object given back stands in nobody's way. */
  lemma Dropped(held: seq<Option<Grant>>, live: set<Range>, k: nat)
    requires Owning(held, live) && k < |held| && held[k].Some?
    ensures Owning(held[k := None], live)
    ensures forall j :: 0 <= j < |held| && j != k && held[j].Some? ==> held[j].value.ptr != held[k].value.ptr
  {
  }

  /** The new payload `t` is nobody's yet. */
  lemma NotHeld<T>(held: seq<Option<Grant>>, live: set<Range>, now: set<Range>, c: seq<T>, d: seq<T>, gone: int,
                   t: Range)
    requires Owning(held, live) && Intact(live, now, c, d, gone) && Placed(now, |d|)
    requires forall k :: 0 <= k < |held| && held[k].Some? ==> held[k].value.ptr != gone
    requires t in now && t.lo < t.hi && !InLive(live, t.lo)
    ensures forall k :: 0 <= k < |held| && held[k].Some? ==> held[k].value.ptr != t.lo
  {
    forall k | 0 <= k < |held| && held[k].Some? ensures held[k].value.ptr != t.lo {
      assert Granted(held[k].value, live);
      assert held[k].value.ptr == t.lo ==> t in live;
    }
  }

  // ----- nothing is lost -----

  ghost predicate Owned(held: seq<Option<Grant>>, p: nat) {
    exists k :: 0 <= k < |held| && held[k].Some? && held[k].value.ptr == p
  }

  /** Every payload in use is some object's. */
  ghost predicate Whole(held: seq<Option<Grant>>, live: set<Range>) {
    forall s :: s in live ==> Owned(held, s.lo)
  }

  lemma WholeMore(held: seq<Option<Grant>>, live: set<Range>, t: Range, size: nat)
    requires Whole(held, live)
    ensures Whole(held + [Some(Grant(t.lo, size))], live + {t})
  {
    var more := held + [Some(Grant(t.lo, size))];
    assert more[|held|].value.ptr == t.lo;
    forall s | s in live ensures Owned(more, s.lo) {
      var k :| 0 <= k < |held| && held[k].Some? && held[k].value.ptr == s.lo;
      assert more[k] == held[k];
    }
  }

  lemma WholeLess(held: seq<Option<Grant>>, k: nat, live: set<Range>, s: Range, size: nat)
    requires Whole(held, live) && Placed(live, size) && s in live
    requires k < |held| && held[k].Some? && held[k].value.ptr == s.lo
    ensures Whole(held[k := None], live - {s})
  {
    var rest := held[k := None];
    forall t | t in live - {s} ensures Owned(rest, t.lo) {
      var j :| 0 <= j < |held| && held[j].Some? && held[j].value.ptr == t.lo;
      assert rest[j] == held[j];
    }
  }

  lemma WholeMoved(held: seq<Option<Grant>>, k: nat, live: set<Range>, s: Range, t: Range, size: nat, n: nat)
    requires Whole(held, live) && Placed(live, n) && s in live
    requires k < |held| && held[k].Some? && held[k].value.ptr == s.lo
    ensures Whole(held[k := Some(Grant(t.lo, size))], live - {s} + {t})
  {
    var rest, moved := held[k := None], held[k := Some(Grant(t.lo, size))];
    WholeLess(held, k, live, s, n);
    forall u | u in live - {s} + {t} ensures Owned(moved, u.lo) {
      if u == t {
        assert moved[k].value.ptr == t.lo;
      } else {
        var j :| 0 <= j < |rest| && rest[j].Some? && rest[j].value.ptr == u.lo;
        assert moved[j] == rest[j];
      }
    }
  }

  // ----- the operations of a heap are operations on objects -----

  lemma Allocated<T>(held: seq<Option<Grant>>, live: set<Range>, now: set<Range>, c: seq<T>, d: seq<T>, t: Range,
                     size: nat)
    requires Owning(held, live) && Intact(live, now, c, d, -1) && |c| == |d| && Placed(now, |d|)
    requires t in now && t.lo < t.hi && t.lo + size <= t.hi && !InLive(live, t.lo)
    ensures var more := held + [Some(Grant(t.lo, size))];
      Owning(more, now) && Step(Allocate(size), Contents(held, c), Contents(more, d))
  {
    OthersKept(held, live, now, c, d, -1);
    NotHeld(held, live, now, c, d, -1, t);
    var more := held + [Some(Grant(t.lo, size))];
    assert Granted(Grant(t.lo, size), now);
    assert Contents(more, d)[..|held|] == Contents(held, c);
  }

  lemma Released<T>(held: seq<Option<Grant>>, k: nat, live: set<Range>, now: set<Range>, c: seq<T>, d: seq<T>)
    requires Owning(held, live) && k < |held| && held[k].Some? && Placed(live, |c|) && |c| == |d|
    requires Intact(live, now, c, d, held[k].value.ptr)
    ensures Owning(held[k := None], now)
    ensures Contents(held, c)[k].Some? && Contents(held[k := None], d) == Contents(held, c)[k := None]
  {
    Dropped(held, live, k);
    assert Granted(held[k].value, live);
    OthersKept(held[k := None], live, now, c, d, held[k].value.ptr);
    assert Contents(held[k := None], c) == Contents(held, c)[k := None];
  }

  /** Object `k` is now in payload `t`, which is its old one or new. */
  lemma Moved<T>(held: seq<Option<Grant>>, k: nat, live: set<Range>, now: set<Range>, c: seq<T>, d: seq<T>, t: Range,
                 size: nat, len: nat)
    requires Owning(held, live) && k < |held| && held[k].Some? && Placed(live, |c|) && |c| == |d| && Placed(now, |d|)
    requires Intact(live, now, c, d, held[k].value.ptr)
    requires t in now && t.lo < t.hi && t.lo + size <= t.hi && (t.lo == held[k].value.ptr || !InLive(live, t.lo))
    requires Carried(c, d, held[k].value.ptr, t.lo, len) && len >= Least(held[k].value.size, size) && size > 0
    ensures var moved := held[k := Some(Grant(t.lo, size))];
      Owning(moved, now) && Step(Resize(k, size), Contents(held, c), Contents(moved, d))
  {
    var rest, moved, g := held[k := None], held[k := Some(Grant(t.lo, size))], held[k].value;
    Dropped(held, live, k);
    Released(held, k, live, now, c, d);
    if t.lo != g.ptr { NotHeld(rest, live, now, c, d, g.ptr, t); }
    assert Granted(Grant(t.lo, size), now);
    var m, n := Contents(held, c), Contents(moved, d);
    assert n == Contents(rest, d)[k := n[k]] == m[k := n[k]];
    Prefixes(c, d, g.ptr, t.lo, len, g.size, size);
  }

  lemma Prefixes<T>(c: seq<T>, d: seq<T>, p: nat, q: nat, len: nat, a: nat, b: nat)
    requires Carried(c, d, p, q, len) && len >= Least(a, b) && p + a <= |c| && q + b <= |d|
    ensures var kept := Least(a, b); d[q..q + b][..kept] == c[p..p + a][..kept]
  {
    var kept := Least(a, b);
    assert d[q..q + b][..kept] == d[q..q + len][..kept];
    assert c[p..p + a][..kept] == c[p..p + len][..kept];
  }

  lemma Stored<T>(held: seq<Option<Grant>>, k: nat, at: nat, value: T, live: set<Range>, c: seq<T>, d: seq<T>)
    requires Owning(held, live) && k < |held| && held[k].Some? && Placed(live, |c|) && at < held[k].value.size
    requires held[k].value.ptr + at < |c| && d == c[held[k].value.ptr + at := value]
    requires Intact(live, live, c, d, held[k].value.ptr)
    ensures Step(Store(k, at, value), Contents(held, c), Contents(held, d))
  {
    var g, rest := held[k].value, held[k := None];
    Released(held, k, live, live, c, d);
    assert Granted(g, live);
    var m, n := Contents(held, c), Contents(held, d);
    assert n == Contents(rest, d)[k := n[k]];
    assert m[k].value[at := value] == n[k].value;
  }
}

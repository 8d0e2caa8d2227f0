/** The page allocator of rt-thread/src/slab.c.

    Free pages are kept in runs.  The first page of a run holds the run's length and the
    link to the next run; pages are numbered from the start of the heap. */
module Pages {
  import opened Chains
  import opened Common
  import opened Rings

  datatype Run = Run(at: nat, n: nat)

  // ----- lists of runs -----

  /** Run `i` ends at least one page before run `j` begins. */
  ghost predicate Before(rs: seq<Run>, i: int, j: int) {
    0 <= i < j < |rs| ==> rs[i].at + rs[i].n < rs[j].at
  }

  ghost predicate Fits(rs: seq<Run>, i: int, total: nat) {
    0 <= i < |rs| ==> rs[i].n > 0 && rs[i].at + rs[i].n <= total
  }

  /** Sorted, not empty, and maximal: two runs never touch. */
  ghost predicate Spaced(rs: seq<Run>, total: nat) {
    && (forall i, j {:trigger Before(rs, i, j)} :: Before(rs, i, j))
    && forall i {:trigger Fits(rs, i, total)} :: Fits(rs, i, total)
  }

  /** Page `p` is in one of the runs. */
  ghost predicate Has(rs: seq<Run>, p: int) {
    exists i :: 0 <= i < |rs| && rs[i].at <= p < rs[i].at + rs[i].n
  }

  lemma TailSpaced(rs: seq<Run>, total: nat)
    requires Spaced(rs, total) && rs != []
    ensures Spaced(rs[1..], total)
    ensures forall p :: Has(rs[1..], p) <==> Has(rs, p) && p > rs[0].at + rs[0].n
    ensures forall p :: Has(rs, p) ==> p >= rs[0].at && p != rs[0].at + rs[0].n
  {
    var tail := rs[1..];
    forall i, j ensures Before(tail, i, j) {
      if i >= 0 { assert Before(rs, i + 1, j + 1); }
    }
    forall i ensures Fits(tail, i, total) {
      if i >= 0 { assert Fits(rs, i + 1, total); }
    }
    forall p ensures Has(tail, p) <==> Has(rs, p) && p > rs[0].at + rs[0].n {
      if Has(tail, p) {
        var i :| 0 <= i < |tail| && tail[i].at <= p < tail[i].at + tail[i].n;
        assert rs[i + 1] == tail[i] && Before(rs, 0, i + 1);
      }
      if Has(rs, p) && p > rs[0].at + rs[0].n {
        var i :| 0 <= i < |rs| && rs[i].at <= p < rs[i].at + rs[i].n;
        assert tail[i - 1] == rs[i];
      }
    }
    forall p | Has(rs, p) ensures p >= rs[0].at && p != rs[0].at + rs[0].n {
      var i :| 0 <= i < |rs| && rs[i].at <= p < rs[i].at + rs[i].n;
      assert Before(rs, 0, i) && Fits(rs, 0, total);
    }
  }

  lemma HasFirst(rs: seq<Run>, total: nat)
    requires Spaced(rs, total)
    ensures rs != [] ==> Has(rs, rs[0].at)
  {
    assert Fits(rs, 0, total);
  }

  /** The free pages determine the list: it is the sorted list of their maximal runs. */
  lemma {:induction false} OneList(rs: seq<Run>, qs: seq<Run>, total: nat)
    requires Spaced(rs, total) && Spaced(qs, total)
    requires forall p :: Has(rs, p) <==> Has(qs, p)
    ensures rs == qs
  {
    HasFirst(rs, total);
    HasFirst(qs, total);
    if rs != [] && qs != [] {
      var r, q := rs[0], qs[0];
      TailSpaced(rs, total);
      TailSpaced(qs, total);
      assert r.at == q.at;
      assert r.n > q.n ==> Has(rs, q.at + q.n);
      assert q.n > r.n ==> Has(qs, r.at + r.n);
      OneList(rs[1..], qs[1..], total);
      assert rs == [r] + rs[1..] && qs == [q] + qs[1..];
    }
  }

  // ----- the edits -----

  /** Runs before `i` and after `j - 1` are kept; the ones between give way to `mid`. */
  ghost function Patched(rs: seq<Run>, i: nat, j: nat, mid: seq<Run>): seq<Run>
    requires i <= j <= |rs|
  {
    rs[..i] + mid + rs[j..]
  }

  /** A list stays spaced and its pages change just where the replaced runs were, if one run or none takes their
      place. */
  lemma PatchedFacts(rs: seq<Run>, i: nat, j: nat, mid: seq<Run>, total: nat)
    requires Spaced(rs, total) && i <= j <= |rs| && |mid| <= 1
    requires |mid| == 1 ==> mid[0].n > 0 && mid[0].at + mid[0].n <= total
    requires |mid| == 1 && i > 0 ==> rs[i - 1].at + rs[i - 1].n < mid[0].at
    requires |mid| == 1 && j < |rs| ==> mid[0].at + mid[0].n < rs[j].at
    ensures var qs := Patched(rs, i, j, mid);
      && Spaced(qs, total)
      && forall p {:trigger Has(qs, p)} :: Has(qs, p) <==> Has(mid, p) || (Has(rs, p) && !Has(rs[i..j], p))
  {
    var qs := Patched(rs, i, j, mid);
    var d := j - i - |mid|;
    forall a, b ensures Before(qs, a, b) {
      assert Before(rs, if a < i then a else a + d, if b < i then b else b + d);
      assert Before(rs, a, i - 1) && Before(rs, j, b + d);
      assert Fits(rs, i - 1, total) && Fits(rs, j, total);
    }
    forall a ensures Fits(qs, a, total) {
      assert Fits(rs, if a < i then a else a + d, total);
    }
    forall p ensures Has(qs, p) <==> Has(mid, p) || (Has(rs, p) && !Has(rs[i..j], p)) {
      PatchedHas(rs, i, j, mid, total, p);
    }
  }

  lemma PatchedHas(rs: seq<Run>, i: nat, j: nat, mid: seq<Run>, total: nat, p: int)
    requires Spaced(rs, total) && i <= j <= |rs|
    ensures Has(Patched(rs, i, j, mid), p) <==> Has(mid, p) || (Has(rs, p) && !Has(rs[i..j], p))
  {
    var qs := Patched(rs, i, j, mid);
    var d := j - i - |mid|;
    if Has(qs, p) {
      var a :| 0 <= a < |qs| && qs[a].at <= p < qs[a].at + qs[a].n;
      if i <= a < i + |mid| {
        assert mid[a - i] == qs[a];
      } else {
        var b := if a < i then a else a + d;
        assert rs[b] == qs[a];
        forall c | i <= c < j ensures !(rs[c].at <= p < rs[c].at + rs[c].n) {
          assert Before(rs, b, c) && Before(rs, c, b);
        }
      }
    }
    if Has(mid, p) {
      var a :| 0 <= a < |mid| && mid[a].at <= p < mid[a].at + mid[a].n;
      assert qs[i + a] == mid[a];
    }
    if Has(rs, p) && !Has(rs[i..j], p) {
      var b :| 0 <= b < |rs| && rs[b].at <= p < rs[b].at + rs[b].n;
      if i <= b < j {
        assert rs[i..j][b - i] == rs[b];
      } else {
        assert qs[if b < i then b else b - d] == rs[b];
      }
    }
  }

  // ----- the list as it lies in memory -----

  ghost function RunsOf(list: seq<nat>, pages: seq<nat>): seq<Run> {
    seq(|list|, i requires 0 <= i < |list| => Run(list[i], if list[i] < |pages| then pages[list[i]] else 0))
  }

  ghost function NextOf(list: seq<nat>, i: nat): int {
    if i < |list| then list[i] else NULL
  }

  /** The links after the nodes from `i` to `j - 1` gave way to `mid`. */
  ghost predicate Relinked(next: seq<int>, after: seq<int>, list: seq<nat>, i: nat, j: nat, mid: seq<nat>)
    requires i <= j <= |list| && |mid| <= 1
  {
    && |after| == |next|
    && (|mid| == 1 ==> mid[0] < |next| && after[mid[0]] == NextOf(list, j))
    && (i > 0 && list[i - 1] < |next| ==> after[list[i - 1]] == if |mid| == 1 then mid[0] else NextOf(list, j))
    && forall m :: 0 <= m < |next| && (i > 0 ==> m != list[i - 1]) && m !in mid && m !in list[i..j] ==>
      after[m] == next[m]
  }

  lemma SplicedHas(list: seq<nat>, i: nat, j: nat, mid: seq<nat>)
    requires Distinct(list) && i <= j <= |list| && |mid| <= 1
    requires |mid| == 1 ==> mid[0] in list ==> mid[0] in list[i..j]
    ensures var r := list[..i] + mid + list[j..];
      Distinct(r) && forall k :: 0 <= k < |r| && !(i <= k < i + |mid|) ==> r[k] !in mid && r[k] !in list[i..j]
  {
    var r, d := list[..i] + mid + list[j..], j - i - |mid|;
    forall k | 0 <= k < |r| && !(i <= k < i + |mid|) ensures r[k] !in mid && r[k] !in list[i..j] {
      var b := if k < i then k else k + d;
      assert r[k] == list[b] && list[b] in list;
      forall c | i <= c < j ensures list[c] != list[b] {
        SamePlace(list, c, b);
      }
    }
    forall a, b ensures Differ(r, a, b) {
      assert Differ(list, if a < i then a else a + d, if b < i then b else b + d);
    }
  }

  lemma Spliced(next: seq<int>, after: seq<int>, list: seq<nat>, i: nat, j: nat, mid: seq<nat>)
    requires Chain(next, list) && i <= j <= |list| && |mid| <= 1 && Relinked(next, after, list, i, j, mid)
    requires |mid| == 1 ==> mid[0] in list ==> mid[0] in list[i..j]
    ensures Chain(after, list[..i] + mid + list[j..])
  {
    var r, d := list[..i] + mid + list[j..], j - i - |mid|;
    SplicedHas(list, i, j, mid);
    forall k ensures Joined(after, r, k) {
      if 0 <= k < |r| && !(i <= k < i + |mid|) {
        var b := if k < i then k else k + d;
        assert Joined(next, list, b) && r[k] == list[b];
        if i > 0 { SamePlace(list, b, i - 1); }
      }
    }
  }

  /** One edit of the list in memory: links, counts and free pages together. */
  lemma Edited(next: seq<int>, after: seq<int>, pages: seq<nat>, counts: seq<nat>, list: seq<nat>, i: nat, j: nat,
               mid: seq<nat>)
    requires |next| == |after| == |pages| == |counts| && Chain(next, list) && Spaced(RunsOf(list, pages), |pages|)
    requires i <= j <= |list| && |mid| <= 1 && Relinked(next, after, list, i, j, mid)
    requires forall m :: 0 <= m < |pages| && m !in mid && m !in list[i..j] ==> counts[m] == pages[m]
    requires |mid| == 1 ==>
               (mid[0] in list ==> mid[0] in list[i..j]) && counts[mid[0]] > 0 && mid[0] + counts[mid[0]] <= |pages|
    requires |mid| == 1 && i > 0 && list[i - 1] < |pages| ==> list[i - 1] + pages[list[i - 1]] < mid[0]
    requires |mid| == 1 && j < |list| ==> mid[0] + counts[mid[0]] < list[j]
    ensures var rs, qs := RunsOf(list, pages), RunsOf(list[..i] + mid + list[j..], counts);
      && Chain(after, list[..i] + mid + list[j..]) && Spaced(qs, |pages|) &&
      qs == Patched(rs, i, j, RunsOf(mid, counts))
      && forall p {:trigger Has(qs, p)} :: Has(qs, p) <==>
        Has(RunsOf(mid, counts), p) || (Has(rs, p) && !Has(rs[i..j], p))
  {
    var r := list[..i] + mid + list[j..];
    Spliced(next, after, list, i, j, mid);
    SplicedHas(list, i, j, mid);
    assert i > 0 ==> Joined(next, list, i - 1);
    forall k | 0 <= k < |r| ensures RunsOf(r, counts)[k] == Patched(RunsOf(list, pages), i, j, RunsOf(mid, counts))[k] {
      var b := if k < i then k else k - |mid| - i + j;
      assert Joined(next, list, b);
    }
    assert RunsOf(r, counts) == Patched(RunsOf(list, pages), i, j, RunsOf(mid, counts));
    PatchedFacts(RunsOf(list, pages), i, j, RunsOf(mid, counts), |pages|);
  }

  class PageList {
    const total: nat
    const next: array<int>
    const pages: array<nat>
    var head: int
    ghost var list: seq<nat>

    ghost function Runs(): seq<Run>
      reads this, pages
    {
      RunsOf(list, pages[..])
    }

    ghost predicate Valid()
      reads this, next, pages
    {
      && next.Length == pages.Length == total && pages as object != next
      && Chain(next[..], list) && head == First(list) && Spaced(Runs(), total)
    }

    /** `rt_page_init`. */
    constructor (npages: nat)
      requires npages > 0
      ensures Valid() && total == npages && Runs() == [Run(0, npages)] && fresh(next) && fresh(pages)
    {
      total := npages;
      next := new int[npages](_ => NULL);
      pages := new nat[npages](_ => 0);
      head := NULL;
      list := [];
      new;
      Free(0, npages);
      assert forall p :: Has(Runs(), p) <==> 0 <= p < npages;
      ghost var whole := [Run(0, npages)];
      forall p: int | 0 <= p < npages ensures Has(whole, p) {
        assert whole[0].at <= p < whole[0].at + whole[0].n;
      }
      OneList(Runs(), whole, npages);
    }

    /** The pointer through which the list walk reached a node: the list head or a node's link. */
    method Redirect(prev: int, to: int)
      requires NULL <= prev < next.Length
      modifies this`head, next
      ensures head == if prev == NULL then to else old(head)
      ensures next[..] == if prev == NULL then old(next[..]) else old(next[..])[prev := to]
    {
      if prev == NULL {
        head := to;
      } else {
        next[prev] := to;
      }
    }

    /** The walk has reached node `i`. */
    ghost predicate Reached(prev: int, b: int, i: nat)
      reads this
    {
      i <= |list| && b == NextOf(list, i) && prev == if i > 0 then list[i - 1] else NULL
    }

    /** Run `i`, the first of at least `npages` pages, gives its lowest ones away. */
    ghost predicate Chosen(rs: seq<Run>, i: nat, npages: nat, at: nat) {
      i < |rs| && rs[i].n >= npages && rs[i].at == at && forall k :: 0 <= k < i ==> rs[k].n < npages
    }

    /** The rest of a longer run takes its place. */
    method TakePart(prev: int, b: nat, npages: nat, ghost i: nat)
      requires Valid() && Reached(prev, b, i) && i < |list| && b < pages.Length && pages[b] > npages > 0
      modifies this, next, pages
      ensures Valid()
      ensures forall p {:trigger Has(Runs(), p)} :: Has(Runs(), p) <==> old(Has(Runs(), p)) && !(b <= p < b + npages)
    {
      assert Chains.Joined(next[..], list, i) && Chains.Joined(next[..], list, i - 1);
      assert Fits(Runs(), i, total) && Before(Runs(), i - 1, i) && Before(Runs(), i, i + 1);
      ghost var was, counts, rs := next[..], pages[..], Runs();
      OneRun(rs, i);
      var n: nat := b + npages;
      NotListed(rs, i, n);
      next[n] := next[b];
      pages[n] := pages[b] - npages;
      Redirect(prev, n);
      Edited(was, next[..], counts, pages[..], list, i, i + 1, [n]);
      list := list[..i] + [n] + list[i + 1..];
      OnlyRun(n, pages[..]);
    }

    /** A run that fits exactly leaves the list. */
    method TakeWhole(prev: int, b: nat, ghost i: nat)
      requires Valid() && Reached(prev, b, i) && i < |list| && b < pages.Length
      modifies this, next
      ensures Valid()
      ensures forall p {:trigger Has(Runs(), p)} :: Has(Runs(), p) <==> old(Has(Runs(), p)) && !(b <= p < b + pages[b])
    {
      assert Chains.Joined(next[..], list, i) && Chains.Joined(next[..], list, i - 1);
      assert Fits(Runs(), i, total) && Before(Runs(), i - 1, i) && Before(Runs(), i, i + 1);
      ghost var was, counts, rs := next[..], pages[..], Runs();
      OneRun(rs, i);
      Redirect(prev, next[b]);
      Edited(was, next[..], counts, pages[..], list, i, i + 1, []);
      list := list[..i] + [] + list[i + 1..];
    }

    /** The first run that is long enough gives its lowest pages away. */
    method Take(prev: int, b: nat, npages: nat, ghost i: nat)
      requires Valid() && Reached(prev, b, i) && i < |list| && b < pages.Length && pages[b] >= npages > 0
      modifies this, next, pages
      ensures Valid()
      ensures forall p {:trigger Has(Runs(), p)} :: Has(Runs(), p) <==> old(Has(Runs(), p)) && !(b <= p < b + npages)
    {
      if pages[b] > npages {
        TakePart(prev, b, npages, i);
      } else {
        TakeWhole(prev, b, i);
      }
    }

    /** Pages `[a, a + npages)` are in use. */
    ghost predicate InUse(a: nat, npages: nat)
      reads this, pages
    {
      forall p {:trigger Has(Runs(), p)} :: a <= p < a + npages ==> !Has(Runs(), p)
    }

    /** What `rt_page_free` must leave behind. */
    ghost predicate Freed(rs: seq<Run>, a: nat, npages: nat)
      reads this, pages
    {
      forall p {:trigger Has(Runs(), p)} :: Has(Runs(), p) <==> Has(rs, p) || a <= p < a + npages
    }

    /** A run does not reach into pages that are in use. */
    lemma Clear(rs: seq<Run>, k: nat, a: nat, npages: nat)
      requires Valid() && rs == Runs() && InUse(a, npages) && k < |rs| && npages > 0
      ensures rs[k].at + rs[k].n <= a || a + npages <= rs[k].at
      ensures list[k] < pages.Length && rs[k].at == list[k] && rs[k].n == pages[list[k]] && rs[k].n > 0
      ensures list[k] + pages[list[k]] <= total
    {
      assert Fits(rs, k, total) && Chains.Joined(next[..], list, k);
      var p := if a <= rs[k].at then rs[k].at else a;
      assert rs[k].at <= p < rs[k].at + rs[k].n ==> Has(rs, p);
    }

    /** The freed pages join the run that ends where they begin. */
    method Extend(b: nat, a: nat, npages: nat, ghost i: nat)
      requires Valid() && InUse(a, npages) && npages > 0 && a + npages <= total
      requires i < |list| && list[i] == b < pages.Length && b + pages[b] == a && a + npages != next[b]
      modifies this, pages
      ensures Valid() && Freed(old(Runs()), a, npages)
    {
      ghost var was, counts, rs := next[..], pages[..], Runs();
      Clear(rs, i, a, npages);
      if i + 1 < |list| { Clear(rs, i + 1, a, npages); }
      assert Chains.Joined(was, list, i) && Before(rs, i - 1, i) && Before(rs, i, i + 1);
      assert i > 0 ==> Chains.Joined(was, list, i - 1);
      OneRun(rs, i);
      pages[b] := pages[b] + npages;
      assert list[i..i + 1] == [list[i]];
      Edited(was, next[..], counts, pages[..], list, i, i + 1, [b]);
      list := list[..i] + [b] + list[i + 1..];
      OnlyRun(b, pages[..]);
    }

    /** The freed pages close the gap between two runs. */
    method Bridge(b: nat, a: nat, npages: nat, ghost i: nat)
      requires Valid() && InUse(a, npages) && npages > 0 && a + npages <= total
      requires i < |list| && list[i] == b < pages.Length && b + pages[b] == a && a + npages == next[b]
      modifies this, next, pages
      ensures Valid() && Freed(old(Runs()), a, npages)
    {
      ghost var was, counts, rs := next[..], pages[..], Runs();
      assert Chains.Joined(was, list, i);
      Clear(rs, i, a, npages);
      Clear(rs, i + 1, a, npages);
      assert Before(rs, i - 1, i) && Before(rs, i + 1, i + 2);
      assert i > 0 ==> Chains.Joined(was, list, i - 1);
      assert Chains.Joined(was, list, i + 1) && Chains.Joined(was, list, i + 2);
      SamePlace(list, i, i + 1);
      if i > 0 { SamePlace(list, i - 1, i); }
      TwoRuns(rs, i);
      var n := next[b];
      pages[b] := pages[b] + npages;
      pages[b] := pages[b] + pages[n];
      next[b] := next[n];
      assert list[i..i + 2] == [list[i], list[i + 1]];
      Edited(was, next[..], counts, pages[..], list, i, i + 2, [b]);
      list := list[..i] + [b] + list[i + 2..];
      OnlyRun(b, pages[..]);
    }

    /** The freed pages take the place of the run that begins where they end. */
    method JoinRight(prev: int, b: nat, a: nat, npages: nat, ghost i: nat)
      requires Valid() && InUse(a, npages) && npages > 0 && Reached(prev, b, i) && i < |list| && b == a + npages
      requires i > 0 ==> list[i - 1] < pages.Length && list[i - 1] + pages[list[i - 1]] < a
      modifies this, next, pages
      ensures Valid() && Freed(old(Runs()), a, npages)
    {
      ghost var was, counts, rs := next[..], pages[..], Runs();
      Clear(rs, i, a, npages);
      assert Chains.Joined(was, list, i) && Before(rs, i, i + 1);
      assert i > 0 ==> Chains.Joined(was, list, i - 1);
      assert i + 1 < |list| ==> Chains.Joined(was, list, i + 1);
      OneRun(rs, i);
      Unlisted(rs, a, npages);
      pages[a] := pages[b] + npages;
      next[a] := next[b];
      Redirect(prev, a);
      assert list[i..i + 1] == [list[i]];
      Edited(was, next[..], counts, pages[..], list, i, i + 1, [a]);
      list := list[..i] + [a] + list[i + 1..];
      OnlyRun(a, pages[..]);
    }

    /** The freed pages become a run of their own. */
    method Insert(prev: int, b: int, a: nat, npages: nat, ghost i: nat)
      requires Valid() && InUse(a, npages) && npages > 0 && Reached(prev, b, i) && a + npages <= total
      requires i > 0 ==> list[i - 1] < pages.Length && list[i - 1] + pages[list[i - 1]] < a
      requires i < |list| ==> a + npages < list[i]
      modifies this, next, pages
      ensures Valid() && Freed(old(Runs()), a, npages)
    {
      ghost var was, counts, rs := next[..], pages[..], Runs();
      assert i > 0 ==> Chains.Joined(was, list, i - 1);
      Unlisted(rs, a, npages);
      pages[a] := npages;
      next[a] := b;
      Redirect(prev, a);
      assert list[i..i] == [] && rs[i..i] == [];
      Edited(was, next[..], counts, pages[..], list, i, i, [a]);
      list := list[..i] + [a] + list[i..];
      OnlyRun(a, pages[..]);
    }

    lemma Unlisted(rs: seq<Run>, a: nat, npages: nat)
      requires Valid() && rs == Runs() && InUse(a, npages) && npages > 0
      ensures a !in list
    {
      forall k | 0 <= k < |list| ensures list[k] != a {
        Clear(rs, k, a, npages);
      }
    }

    /** `rt_page_alloc`: the first run that is long enough. */
    method Alloc(npages: nat) returns (r: Option<nat>, ghost i: nat)
      requires Valid()
      modifies this, next, pages
      ensures Valid()
      ensures r.None? <==> npages == 0 || forall k :: 0 <= k < |old(Runs())| ==> old(Runs())[k].n < npages
      ensures r.None? ==> Runs() == old(Runs())
      ensures r.Some? ==> Chosen(old(Runs()), i, npages, r.value)
      ensures r.Some? ==> forall p {:trigger Has(Runs(), p)} :: Has(Runs(), p) <==>
                Has(old(Runs()), p) && !(r.value <= p < r.value + npages)
    {
      i := 0;
      if npages == 0 {
        return None, i;
      }
      var prev, b := NULL, head;
      while b != NULL
        invariant Reached(prev, b, i) && forall k :: 0 <= k < i ==> Runs()[k].n < npages
        decreases |list| - i
      {
        assert Chains.Joined(next[..], list, i);
        if pages[b] > npages || pages[b] == npages {
          assert Runs()[i].n >= npages;
          Take(prev, b, npages, i);
          return Some(b), i;
        }
        prev, b := b, next[b];
        i := i + 1;
      }
      return None, i;
    }

    /** `rt_page_free`. */
    method Free(a: nat, npages: nat)
      requires Valid() && InUse(a, npages) && npages > 0 && a + npages <= total
      modifies this, next, pages
      ensures Valid() && Freed(old(Runs()), a, npages)
    {
      var prev, b := NULL, head;
      ghost var i: nat := 0;
      while b != NULL
        invariant Reached(prev, b, i) && Valid() && InUse(a, npages) && Runs() == old(Runs())
        invariant i > 0 ==> list[i - 1] < total && list[i - 1] + pages[list[i - 1]] < a
        invariant i < |list| || b == NULL
        decreases |list| - i
      {
        assert Chains.Joined(next[..], list, i);
        Clear(Runs(), i, a, npages);
        if b + pages[b] == a {
          if b + (pages[b] + npages) == next[b] {
            Bridge(b, a, npages, i);
          } else {
            Extend(b, a, npages, i);
          }
          return;
        }
        if b == a + npages {
          JoinRight(prev, b, a, npages, i);
          return;
        }
        if b > a + npages {
          break;
        }
        prev, b := b, next[b];
        i := i + 1;
      }
      Insert(prev, b, a, npages, i);
    }

    /** Freeing the pages just allocated restores the list, run for run. */
    method AllocThenFree(npages: nat)
      requires Valid()
      modifies this, next, pages
      ensures Valid() && Runs() == old(Runs())
    {
      var r;
      ghost var i;
      r, i := Alloc(npages);
      if r.Some? {
        ghost var rs := old(Runs());
        assert Fits(rs, i, total);
        forall p | r.value <= p < r.value + npages ensures Has(rs, p) {
          assert rs[i].at <= p < rs[i].at + rs[i].n;
        }
        Free(r.value, npages);
        OneList(Runs(), rs, total);
      }
    }

    lemma NotListed(rs: seq<Run>, i: nat, n: nat)
      requires Valid() && rs == Runs() && i < |rs| && rs[i].at < n < rs[i].at + rs[i].n
      ensures n !in list
    {
      forall k | 0 <= k < |list| ensures list[k] != n {
        assert Before(rs, i, k) && Before(rs, k, i) && Fits(rs, k, total) && rs[k].at == list[k];
      }
    }
  }

  lemma OneRun(rs: seq<Run>, i: nat)
    requires i < |rs|
    ensures forall p {:trigger Has(rs[i..i + 1], p)} :: Has(rs[i..i + 1], p) <==> rs[i].at <= p < rs[i].at + rs[i].n
  {
    var part := rs[i..i + 1];
    assert part == [rs[i]];
    forall p ensures Has(part, p) <==> rs[i].at <= p < rs[i].at + rs[i].n {
      assert part[0].at <= p < part[0].at + part[0].n ==> Has(part, p);
    }
  }

  lemma TwoRuns(rs: seq<Run>, i: nat)
    requires i + 1 < |rs|
    ensures forall p {:trigger Has(rs[i..i + 2], p)} :: Has(rs[i..i + 2], p) <==>
              rs[i].at <= p < rs[i].at + rs[i].n || rs[i + 1].at <= p < rs[i + 1].at + rs[i + 1].n
  {
    var part := rs[i..i + 2];
    assert part == [rs[i], rs[i + 1]];
    forall p
      ensures Has(part, p) <==> part[0].at <= p < part[0].at + part[0].n || part[1].at <= p < part[1].at + part[1].n
    {
      assert part[0].at <= p < part[0].at + part[0].n ==> Has(part, p);
      assert part[1].at <= p < part[1].at + part[1].n ==> Has(part, p);
    }
  }

  lemma OnlyRun(m: nat, counts: seq<nat>)
    requires m < |counts|
    ensures forall p {:trigger Has(RunsOf([m], counts), p)} :: Has(RunsOf([m], counts), p) <==> m <= p < m + counts[m]
  {
    var r := RunsOf([m], counts);
    assert r == [Run(m, counts[m])];
    forall p | m <= p < m + counts[m] ensures Has(r, p) {
      assert r[0].at <= p < r[0].at + r[0].n;
    }
  }
}

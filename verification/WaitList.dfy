/** The lists of suspended threads of rt-thread/src/ipc.c.

    A list holds thread numbers, the next one to be resumed first. */
module WaitList {
  import opened Rings

  datatype Discipline = Fifo | Prio

  function Rank(prio: seq<int>, t: nat): int {
    if t < |prio| then prio[t] else 0
  }

  /** The place of a thread of priority `p`: in front of the first less urgent thread. */
  function Spot(list: seq<nat>, prio: seq<int>, p: int): (k: nat)
    ensures k <= |list|
  {
    if list == [] || p < Rank(prio, list[0]) then 0 else 1 + Spot(list[1..], prio, p)
  }

  function InsertAt(list: seq<nat>, k: nat, t: nat): seq<nat>
    requires k <= |list|
  {
    list[..k] + [t] + list[k..]
  }

  /** What `rt_ipc_list_suspend` makes of a list. */
  function Enqueued(list: seq<nat>, t: nat, prio: seq<int>, d: Discipline): seq<nat> {
    InsertAt(list, if d == Fifo then |list| else Spot(list, prio, Rank(prio, t)), t)
  }

  lemma {:induction false} SpotIs(list: seq<nat>, prio: seq<int>, p: int, k: nat)
    requires k <= |list| && forall i :: 0 <= i < k ==> p >= Rank(prio, list[i])
    requires k < |list| ==> p < Rank(prio, list[k])
    ensures Spot(list, prio, p) == k
  {
    if k > 0 {
      assert p >= Rank(prio, list[0]);
      SpotIs(list[1..], prio, p, k - 1);
    }
  }

  lemma {:induction false} SpotFacts(list: seq<nat>, prio: seq<int>, p: int)
    ensures var k := Spot(list, prio, p);
      (forall i :: 0 <= i < k ==> p >= Rank(prio, list[i])) && (k < |list| ==> p < Rank(prio, list[k]))
  {
    if list != [] && p >= Rank(prio, list[0]) {
      SpotFacts(list[1..], prio, p);
    }
  }

  ghost predicate NotAfter(list: seq<nat>, prio: seq<int>, i: int, j: int) {
    0 <= i < j < |list| ==> Rank(prio, list[i]) <= Rank(prio, list[j])
  }

  /** The most urgent thread comes first. */
  ghost predicate Urgent(list: seq<nat>, prio: seq<int>) {
    forall i, j {:trigger NotAfter(list, prio, i, j)} :: NotAfter(list, prio, i, j)
  }

  /** By priority, an ordered list stays ordered, and the new thread waits behind those of its own priority. */
  lemma PrioOrder(list: seq<nat>, t: nat, prio: seq<int>)
    requires Urgent(list, prio)
    ensures Urgent(Enqueued(list, t, prio, Prio), prio)
    ensures forall i :: 0 <= i < |list| && Rank(prio, list[i]) <= Rank(prio, t) ==> i < Spot(list, prio, Rank(prio, t))
  {
    var p := Rank(prio, t);
    var k, r := Spot(list, prio, p), Enqueued(list, t, prio, Prio);
    SpotFacts(list, prio, p);
    forall i | k <= i < |list| ensures Rank(prio, list[i]) > p {
      assert NotAfter(list, prio, k, i);
    }
    forall i, j ensures NotAfter(r, prio, i, j) {
      assert NotAfter(list, prio, if i < k then i else i - 1, if j < k then j else j - 1);
    }
  }

  lemma EnqueuedHas(list: seq<nat>, t: nat, prio: seq<int>, d: Discipline)
    requires Distinct(list) && t !in list
    ensures var r := Enqueued(list, t, prio, d);
      Distinct(r) && |r| == |list| + 1 && forall u :: u in r <==> u == t || u in list
  {
    var r := Enqueued(list, t, prio, d);
    var k := if d == Fifo then |list| else Spot(list, prio, Rank(prio, t));
    forall i, j ensures Differ(r, i, j) {
      assert Differ(list, if i < k then i else i - 1, if j < k then j else j - 1);
    }
    assert r[k] == t;
    forall i | 0 <= i < |list| ensures list[i] in r {
      assert list[i] == r[if i < k then i else i + 1];
    }
  }

  /** Thread `u` will be resumed before thread `t`. */
  ghost predicate Ahead(list: seq<nat>, u: nat, t: nat) {
    exists i, j :: 0 <= i < j < |list| && list[i] == u && list[j] == t
  }

  /** In order of arrival the new thread waits behind all others; by priority, behind all that are as urgent, and in
      front of those that are not. */
  lemma AheadOfNew(list: seq<nat>, t: nat, prio: seq<int>, d: Discipline, u: nat)
    requires Distinct(list) && t !in list && u in list && (d == Prio ==> Urgent(list, prio))
    ensures Ahead(Enqueued(list, t, prio, d), u, t) <==> d == Fifo || Rank(prio, u) <= Rank(prio, t)
  {
    var r := Enqueued(list, t, prio, d);
    var k := if d == Fifo then |list| else Spot(list, prio, Rank(prio, t));
    var i :| 0 <= i < |list| && list[i] == u;
    EnqueuedHas(list, t, prio, d);
    assert r[k] == t && r[if i < k then i else i + 1] == u;
    if d == Prio {
      SpotFacts(list, prio, Rank(prio, t));
      assert NotAfter(list, prio, k, i);
    }
    if Ahead(r, u, t) {
      var a, b :| 0 <= a < b < |r| && r[a] == u && r[b] == t;
      assert Differ(r, b, k) && Differ(r, k, b) && Differ(r, a, i) && Differ(r, i, a);
      assert Differ(r, a, i + 1) && Differ(r, i + 1, a);
    }
  }

  /** The threads that wait already keep their order. */
  lemma AheadStays(list: seq<nat>, t: nat, prio: seq<int>, d: Discipline, u: nat, v: nat)
    requires Distinct(list) && t !in list && u != t && v != t
    ensures Ahead(Enqueued(list, t, prio, d), u, v) <==> Ahead(list, u, v)
  {
    var r := Enqueued(list, t, prio, d);
    var k := if d == Fifo then |list| else Spot(list, prio, Rank(prio, t));
    if Ahead(list, u, v) {
      var i, j :| 0 <= i < j < |list| && list[i] == u && list[j] == v;
      assert r[if i < k then i else i + 1] == u && r[if j < k then j else j + 1] == v;
    }
    if Ahead(r, u, v) {
      var i, j :| 0 <= i < j < |r| && r[i] == u && r[j] == v;
      assert r[k] == t && list[if i < k then i else i - 1] == u && list[if j < k then j else j - 1] == v;
    }
  }

  function Dropped(list: seq<nat>, t: nat): seq<nat> {
    if list == [] then []
    else if list[0] == t then list[1..]
    else [list[0]] + Dropped(list[1..], t)
  }

  /** A timed-out or resumed thread leaves the list; the others keep their order. */
  lemma {:induction false} DroppedHas(list: seq<nat>, t: nat)
    requires Distinct(list) && t in list
    ensures var r := Dropped(list, t);
      Distinct(r) && |r| == |list| - 1 && forall u :: u in r <==> u in list && u != t
    ensures exists k :: 0 <= k < |list| && list[k] == t && Dropped(list, t) == Without(list, k)
  {
    var tail := list[1..];
    forall i, j ensures Differ(tail, i, j) {
      if i >= 0 { assert Differ(list, i + 1, j + 1); }
    }
    forall i | 0 <= i < |tail| ensures tail[i] != list[0] {
      assert Differ(list, 0, i + 1);
    }
    assert list == [list[0]] + tail;
    if list[0] == t {
      assert Without(list, 0) == tail;
    } else {
      DroppedHas(tail, t);
      var k :| 0 <= k < |tail| && tail[k] == t && Dropped(tail, t) == Without(tail, k);
      var r, s := Dropped(list, t), Dropped(tail, t);
      assert r == [list[0]] + s == Without(list, k + 1);
      forall i, j ensures Differ(r, i, j) {
        assert Differ(s, i - 1, j - 1);
        if i == 0 && 0 < j < |r| { assert r[j] in s; }
      }
    }
  }

  lemma BehindHead(head: nat, list: seq<nat>, k: nat, t: nat)
    requires k <= |list|
    ensures With([head] + list, k, t) == [head] + InsertAt(list, k, t)
  {
    var ring := [head] + list;
    assert ring[..k + 1] == [head] + list[..k] && ring[k + 1..] == list[k..];
  }

  /** `rt_ipc_list_suspend`, on the links: `head` is the list, a thread's node is its number. */
  method Suspend(links: array<Link>, head: nat, t: nat, prio: seq<int>, d: Discipline, ghost list: seq<nat>)
    requires Ring(links[..], [head] + list) && t < links.Length && t != head && t !in list
    modifies links
    ensures Ring(links[..], [head] + Enqueued(list, t, prio, d))
    ensures forall o :: 0 <= o < links.Length && o != head && o !in list && o != t ==> links[o] == old(links[o])
  {
    ghost var ring := [head] + list;
    match d
    case Fifo =>
      BehindHead(head, list, |list|, t);
      InsertBefore(links, head, t, ring, 0);
    case Prio =>
      ghost var j: nat := 1;
      assert At(links[..], ring, 0);
      var n := links[head].next;
      while n != head
        invariant 1 <= j <= |ring| && n == if j < |ring| then ring[j] else head
        invariant forall i :: 0 <= i < j - 1 ==> Rank(prio, t) >= Rank(prio, list[i])
        invariant links[..] == old(links[..])
        decreases |ring| - j
      {
        if Rank(prio, t) < Rank(prio, n) {
          SpotIs(list, prio, Rank(prio, t), j - 1);
          BehindHead(head, list, j - 1, t);
          InsertBefore(links, n, t, ring, j);
          return;
        }
        assert At(links[..], ring, j);
        n := links[n].next;
        j := j + 1;
      }
      if j < |ring| { SamePlace(ring, 0, j); }
      SpotIs(list, prio, Rank(prio, t), |list|);
      BehindHead(head, list, |list|, t);
      InsertBefore(links, head, t, ring, 0);
  }
}

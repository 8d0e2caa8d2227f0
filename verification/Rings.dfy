/** The intrusive doubly linked list of rt-thread/include/rtservice.h.

    A node is an index into an array of links.  The list is a ring: it runs from any of
    its nodes through all the others and back.  `ring` lists the nodes in order, starting
    from the node that serves as the head. */
module Rings {

  datatype Link = Link(next: int, prev: int)

  function Succ(n: nat, j: nat): nat { if j + 1 < n then j + 1 else 0 }

  function Pred(n: nat, j: nat): int { if j == 0 then n - 1 else j - 1 }

  /** Node `j` of the ring points to its two neighbours. */
  ghost predicate At(l: seq<Link>, ring: seq<nat>, j: int) {
    0 <= j < |ring| ==>
      && ring[j] < |l|
      && l[ring[j]].next == ring[Succ(|ring|, j)]
      && l[ring[j]].prev == ring[Pred(|ring|, j)]
  }

  ghost predicate Differ(ring: seq<nat>, j: int, k: int) {
    0 <= j < k < |ring| ==> ring[j] != ring[k]
  }

  ghost predicate Distinct(ring: seq<nat>) {
    forall j, k {:trigger Differ(ring, j, k)} :: Differ(ring, j, k)
  }

  /** `next` and `prev` are inverse to each other all the way round. */
  ghost predicate Ring(l: seq<Link>, ring: seq<nat>) {
    |ring| > 0 && Distinct(ring) && forall j {:trigger At(l, ring, j)} :: At(l, ring, j)
  }

  ghost function Without(ring: seq<nat>, j: nat): seq<nat>
    requires j < |ring|
  {
    ring[..j] + ring[j + 1..]
  }

  ghost function With(ring: seq<nat>, j: nat, n: nat): seq<nat>
    requires j < |ring|
  {
    ring[..j + 1] + [n] + ring[j + 1..]
  }

  lemma DistinctWithout(ring: seq<nat>, j: nat)
    requires Distinct(ring) && j < |ring|
    ensures Distinct(Without(ring, j)) && ring[j] !in Without(ring, j)
    ensures forall a :: a in Without(ring, j) <==> a in ring && a != ring[j]
  {
    var r := Without(ring, j);
    forall i, k ensures Differ(r, i, k) {
      assert Differ(ring, if i < j then i else i + 1, if k < j then k else k + 1);
    }
    forall i | 0 <= i < |ring| && i != j ensures ring[i] != ring[j] && ring[i] in r {
      assert Differ(ring, i, j) && Differ(ring, j, i);
      assert ring[i] == r[if i < j then i else i - 1];
    }
    forall i | 0 <= i < |r| ensures r[i] in ring && r[i] != ring[j] {
      assert r[i] == ring[if i < j then i else i + 1];
    }
  }

  lemma DistinctWith(ring: seq<nat>, j: nat, n: nat)
    requires Distinct(ring) && j < |ring| && n !in ring
    ensures Distinct(With(ring, j, n))
    ensures forall a :: a in With(ring, j, n) <==> a in ring || a == n
  {
    var r := With(ring, j, n);
    assert forall i :: 0 <= i <= j ==> r[i] == ring[i];
    assert forall i :: j + 1 < i < |r| ==> r[i] == ring[i - 1];
    forall i, k ensures Differ(r, i, k) {
      assert Differ(ring, if i <= j then i else i - 1, if k <= j then k else k - 1);
    }
    forall i | 0 <= i < |ring| ensures ring[i] in r {
      assert ring[i] == r[if i <= j then i else i + 1];
    }
    assert r[j + 1] == n;
  }

  lemma DistinctTail(list: seq<nat>)
    requires Distinct(list) && list != []
    ensures Distinct(list[1..]) && forall u :: u in list[1..] <==> u in list && u != list[0]
  {
    var tail := list[1..];
    assert list == [list[0]] + tail;
    forall i, j ensures Differ(tail, i, j) {
      if i >= 0 { assert Differ(list, i + 1, j + 1); }
    }
    forall i | 0 <= i < |tail| ensures tail[i] != list[0] {
      assert Differ(list, 0, i + 1);
    }
  }

  lemma DistinctFront(list: seq<nat>, t: nat)
    requires Distinct(list) && t !in list
    ensures Distinct([t] + list)
  {
    var r := [t] + list;
    forall i, j ensures Differ(r, i, j) {
      assert Differ(list, i - 1, j - 1);
      if i == 0 && 0 < j < |r| { assert r[j] in list; }
    }
  }

  /** Equal nodes have equal positions. */
  lemma SamePlace(ring: seq<nat>, j: nat, k: nat)
    requires Distinct(ring) && j < |ring| && k < |ring|
    ensures ring[j] == ring[k] <==> j == k
  {
    assert Differ(ring, j, k) && Differ(ring, k, j);
  }

  /** The two writes that take node `j` out, whatever happens to its own link. */
  lemma Unlinked(l: seq<Link>, m: seq<Link>, ring: seq<nat>, j: nat)
    requires Ring(l, ring) && 0 < j < |ring| && |m| == |l|
    requires var p, n := ring[j - 1], ring[Succ(|ring|, j)];
      && p < |l| && n < |l|
      && m[p].next == n && m[n].prev == p && (p != n ==> m[p].prev == l[p].prev && m[n].next == l[n].next)
    requires forall o :: 0 <= o < |l| && o != ring[j - 1] && o != ring[j] && o != ring[Succ(|ring|, j)] ==> m[o] == l[o]
    ensures Ring(m, Without(ring, j))
  {
    var r := Without(ring, j);
    DistinctWithout(ring, j);
    forall k ensures At(m, r, k) {
      if 0 <= k < |r| {
        var q := if k < j then k else k + 1;
        assert At(l, ring, q) && r[k] == ring[q];
        SamePlace(ring, q, j - 1);
        SamePlace(ring, q, j);
        SamePlace(ring, q, Succ(|ring|, j));
      }
    }
  }

  /** The four writes that put node `n` behind node `j`. */
  lemma Linked(l: seq<Link>, m: seq<Link>, ring: seq<nat>, j: nat, n: nat)
    requires Ring(l, ring) && j < |ring| && n !in ring && n < |l| && |m| == |l|
    requires var p, s := ring[j], ring[Succ(|ring|, j)];
      && p < |l| && s < |l|
      && m[n] == Link(s, p) && m[p].next == n && m[s].prev == n
      && (p != s ==> m[p].prev == l[p].prev && m[s].next == l[s].next)
    requires forall o :: 0 <= o < |l| && o != ring[j] && o != n && o != ring[Succ(|ring|, j)] ==> m[o] == l[o]
    ensures Ring(m, With(ring, j, n))
  {
    var r := With(ring, j, n);
    DistinctWith(ring, j, n);
    forall k ensures At(m, r, k) {
      if 0 <= k < |r| && k != j + 1 {
        var q := if k <= j then k else k - 1;
        assert At(l, ring, q) && r[k] == ring[q];
        SamePlace(ring, q, j);
        SamePlace(ring, q, Succ(|ring|, j));
      }
    }
  }

  /** Writes to nodes that are not on the ring leave it alone. */
  lemma Untouched(l: seq<Link>, m: seq<Link>, ring: seq<nat>)
    requires Ring(l, ring) && |m| == |l| && forall o :: 0 <= o < |l| && o in ring ==> m[o] == l[o]
    ensures Ring(m, ring)
  {
    forall j ensures At(m, ring, j) {
      assert At(l, ring, j);
      if 0 <= j < |ring| { assert ring[j] in ring; }
    }
  }

  // ----- the list operations -----

  /** `rt_list_init`. */
  method Init(links: array<Link>, n: nat)
    requires n < links.Length
    modifies links
    ensures Ring(links[..], [n])
    ensures forall o :: 0 <= o < links.Length && o != n ==> links[o] == old(links[o])
  {
    links[n] := Link(n, n);
    assert At(links[..], [n], 0);
  }

  /** `rt_list_insert_after`. */
  method InsertAfter(links: array<Link>, l: nat, n: nat, ghost ring: seq<nat>, ghost j: nat)
    requires Ring(links[..], ring) && j < |ring| && ring[j] == l && n !in ring && n < links.Length
    modifies links
    ensures Ring(links[..], With(ring, j, n))
    ensures forall o :: 0 <= o < links.Length && o !in ring && o != n ==> links[o] == old(links[o])
  {
    assert At(links[..], ring, j) && At(links[..], ring, Succ(|ring|, j));
    links[links[l].next] := links[links[l].next].(prev := n);
    links[n] := links[n].(next := links[l].next);
    links[l] := links[l].(next := n);
    links[n] := links[n].(prev := l);
    Linked(old(links[..]), links[..], ring, j, n);
  }

  /** `rt_list_insert_before`; the node goes behind the predecessor of `l`. */
  method InsertBefore(links: array<Link>, l: nat, n: nat, ghost ring: seq<nat>, ghost j: nat)
    requires Ring(links[..], ring) && j < |ring| && ring[j] == l && n !in ring && n < links.Length
    modifies links
    ensures Ring(links[..], With(ring, Pred(|ring|, j), n))
    ensures forall o :: 0 <= o < links.Length && o !in ring && o != n ==> links[o] == old(links[o])
  {
    ghost var p := Pred(|ring|, j);
    assert At(links[..], ring, j) && At(links[..], ring, p) && Succ(|ring|, p) == j;
    links[links[l].prev] := links[links[l].prev].(next := n);
    links[n] := links[n].(prev := links[l].prev);
    links[l] := links[l].(prev := n);
    links[n] := links[n].(next := l);
    Linked(old(links[..]), links[..], ring, p, n);
  }

  /** The two writes shared by every removal. */
  method Unlink(links: array<Link>, n: nat, ghost ring: seq<nat>, ghost j: nat)
    requires Ring(links[..], ring) && 0 < j < |ring| && ring[j] == n
    modifies links
    ensures n < links.Length && links[n] == old(links[n]) && Ring(links[..], Without(ring, j))
    ensures forall o :: 0 <= o < links.Length && o !in ring ==> links[o] == old(links[o])
  {
    assert At(links[..], ring, j) && At(links[..], ring, j - 1) && At(links[..], ring, Succ(|ring|, j));
    SamePlace(ring, j, j - 1);
    SamePlace(ring, j, Succ(|ring|, j));
    links[links[n].next] := links[links[n].next].(prev := links[n].prev);
    links[links[n].prev] := links[links[n].prev].(next := links[n].next);
    Unlinked(old(links[..]), links[..], ring, j);
  }

  /** `rt_list_remove`: the node ends up as a ring of its own. */
  method Remove(links: array<Link>, n: nat, ghost ring: seq<nat>, ghost j: nat)
    requires Ring(links[..], ring) && 0 < j < |ring| && ring[j] == n
    modifies links
    ensures Ring(links[..], Without(ring, j)) && Ring(links[..], [n])
    ensures forall o :: 0 <= o < links.Length && o !in ring ==> links[o] == old(links[o])
  {
    Unlink(links, n, ring, j);
    ghost var r, m := Without(ring, j), links[..];
    DistinctWithout(ring, j);
    links[n] := Link(n, n);
    forall k ensures At(links[..], r, k) {
      assert At(m, r, k);
      if 0 <= k < |r| { assert r[k] in r; }
    }
    assert At(links[..], [n], 0);
  }

  /** `rt_list_isempty`. */
  method IsEmpty(links: array<Link>, l: nat, ghost ring: seq<nat>) returns (empty: bool)
    requires Ring(links[..], ring) && ring[0] == l
    ensures empty <==> |ring| == 1
  {
    assert At(links[..], ring, 0);
    SamePlace(ring, 0, Succ(|ring|, 0));
    empty := links[l].next == l;
  }

  /** `rt_list_len`. */
  method Len(links: array<Link>, l: nat, ghost ring: seq<nat>) returns (len: nat)
    requires Ring(links[..], ring) && ring[0] == l
    ensures len == |ring| - 1
  {
    len := 0;
    var p := l;
    assert At(links[..], ring, 0);
    while links[p].next != l
      invariant len < |ring| && p == ring[len] && At(links[..], ring, len)
      decreases |ring| - len
    {
      SamePlace(ring, 0, Succ(|ring|, len));
      p := links[p].next;
      len := len + 1;
      assert At(links[..], ring, len);
    }
    SamePlace(ring, 0, Succ(|ring|, len));
  }
}

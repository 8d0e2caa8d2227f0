/** Singly linked lists that end in a null pointer, as rt-thread/src/ipc.c and mempool.c thread them through a pool.

    A node is an index into an array of `next` fields. */
module Chains {
  import opened Rings

  const NULL: int := -1

  ghost function First(list: seq<nat>): int {
    if list == [] then NULL else list[0]
  }

  ghost function Last(list: seq<nat>): int {
    if list == [] then NULL else list[|list| - 1]
  }

  ghost predicate Joined(next: seq<int>, list: seq<nat>, i: int) {
    0 <= i < |list| ==> list[i] < |next| && next[list[i]] == if i + 1 < |list| then list[i + 1] else NULL
  }

  /** Following `next` from the first node of `list` visits its nodes in order and ends at null. */
  ghost predicate Chain(next: seq<int>, list: seq<nat>) {
    Distinct(list) && forall i {:trigger Joined(next, list, i)} :: Joined(next, list, i)
  }

  lemma Pushed(next: seq<int>, list: seq<nat>, m: nat)
    requires Chain(next, list) && m < |next| && m !in list
    ensures Chain(next[m := First(list)], [m] + list) && forall u :: u in [m] + list <==> u == m || u in list
  {
    var after, longer := next[m := First(list)], [m] + list;
    forall i, j ensures Differ(longer, i, j) {
      assert Differ(list, i - 1, j - 1);
      if i == 0 && 0 < j < |longer| { assert longer[j] in list; }
    }
    forall i ensures Joined(after, longer, i) {
      if 0 < i < |longer| {
        assert Joined(next, list, i - 1) && longer[i] in list;
      }
    }
  }

  lemma Popped(next: seq<int>, list: seq<nat>)
    requires Chain(next, list) && list != []
    ensures list[0] < |next| && next[list[0]] == First(list[1..]) && Chain(next, list[1..])
    ensures forall u :: u in list[1..] <==> u in list && u != list[0]
  {
    DistinctTail(list);
    assert Joined(next, list, 0);
    var tail := list[1..];
    forall i ensures Joined(next, tail, i) {
      if 0 <= i < |tail| { assert Joined(next, list, i + 1); }
    }
  }

  lemma Appended(next: seq<int>, after: seq<int>, list: seq<nat>, m: nat)
    requires Chain(next, list) && m < |next| && m !in list && next[m] == NULL
    requires after == if list == [] then next else if Last(list) < |next| then next[Last(list) := m] else []
    ensures Chain(after, list + [m]) && forall u :: u in list + [m] <==> u == m || u in list
  {
    var longer := list + [m];
    if list != [] {
      assert Joined(next, list, |list| - 1);
      assert list[|list| - 1] in list;
    }
    forall i, j ensures Differ(longer, i, j) {
      assert Differ(list, i, j);
      if 0 <= i < |list| && j == |list| { assert list[i] in list; }
    }
    forall i ensures Joined(after, longer, i) {
      if 0 <= i < |list| {
        assert Joined(next, list, i);
        assert Differ(list, i, |list| - 1);
      }
    }
  }

  /** Writes to the links of other nodes leave a chain alone. */
  lemma Spared(next: seq<int>, after: seq<int>, list: seq<nat>)
    requires Chain(next, list) && |after| == |next|
    requires forall m :: 0 <= m < |next| && m in list ==> after[m] == next[m]
    ensures Chain(after, list)
  {
    forall i ensures Joined(after, list, i) {
      assert Joined(next, list, i);
      if 0 <= i < |list| { assert list[i] in list; }
    }
  }

  /** A list without repetition of numbers below `n` has at most `n` elements. */
  lemma {:induction false} AtMost(list: seq<nat>, n: nat)
    requires Distinct(list) && forall u :: u in list ==> u < n
    ensures |list| <= n
  {
    if list != [] {
      assert list[0] in list;
      if n - 1 in list {
        var k :| 0 <= k < |list| && list[k] == n - 1;
        DistinctWithout(list, k);
        AtMost(Without(list, k), n - 1);
      } else {
        AtMost(list, n - 1);
      }
    }
  }

  /** One that leaves a number out has fewer. */
  lemma FewerThan(list: seq<nat>, m: nat, n: nat)
    requires Distinct(list) && (forall u :: u in list ==> u < n) && m < n && m !in list
    ensures |list| < n
  {
    var longer := list + [m];
    forall i, j ensures Differ(longer, i, j) {
      assert Differ(list, i, j);
      if 0 <= i < |list| && j == |list| { assert list[i] in list; }
    }
    AtMost(longer, n);
  }

  /** One that leaves none out has at least `n`. */
  lemma {:induction false} AtLeast(list: seq<nat>, n: nat)
    requires Distinct(list) && forall u :: 0 <= u < n ==> u in list
    ensures |list| >= n
  {
    if n > 0 {
      var top: nat := n - 1;
      assert top in list;
      var k :| 0 <= k < |list| && list[k] == top;
      DistinctWithout(list, k);
      AtLeast(Without(list, k), n - 1);
    }
  }

  /** The elements of a list without repetition, as a set of the same size. */
  lemma {:induction false} ElementsOf(list: seq<nat>) returns (s: set<nat>)
    requires Distinct(list)
    ensures |s| == |list| && forall u :: u in s <==> u in list
  {
    if list == [] {
      s := {};
    } else {
      DistinctTail(list);
      s := ElementsOf(list[1..]);
      s := s + {list[0]};
    }
  }

  /** The numbers below `n`. */
  function Below(n: nat): (s: set<nat>)
    ensures |s| == n && forall k: nat :: k in s <==> k < n
  {
    if n == 0 then {} else Below(n - 1) + {n - 1}
  }
}

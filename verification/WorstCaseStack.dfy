/** Worst-case stack depth over a call graph (rt-thread/tools/WCS.py).

    `Analysis.CalcWcs` is the memoised depth-first search: it writes its answers into
    the function table, keeps the chain of callers on an explicit stack, and treats
    meeting a caller again as recursion.  The meaning of an answer is given without the
    search: by the paths of the call graph. */
module WorstCaseStack {

  /** A function is named by its index in the list of all functions; callees outside it stay names. */
  type Fn = nat
  type Name = nat

  datatype Stack = Bounded(bytes: nat) | Unbounded

  /** One function record after every call name has been resolved. */
  datatype Function = Function(calls: seq<Fn>, hasPtrCall: bool, localStack: nat, unresolved: set<Name>)

  type Graph = seq<Function>

  ghost predicate Closed(g: Graph) {
    forall f :: 0 <= f < |g| ==> forall c: Fn :: c in g[f].calls ==> c < |g|
  }

  // ----- what an answer means -----

  /** `p` is a chain of calls that starts in `f` and ends in `h`. */
  ghost predicate CallPath(g: Graph, p: seq<Fn>, f: Fn, h: Fn) {
    && |p| > 0 && p[0] == f && f < |g|
    && if |p| == 1 then h == f else p[1] in g[f].calls && CallPath(g, p[1..], p[1], h)
  }

  ghost predicate Reaches(g: Graph, f: Fn, h: Fn) {
    exists p :: CallPath(g, p, f, h)
  }

  ghost predicate OnCycle(g: Graph, f: Fn) {
    f < |g| && exists c: Fn :: c in g[f].calls && Reaches(g, c, f)
  }

  /** `f` can get into recursion or into a call through a pointer. */
  ghost predicate Endless(g: Graph, f: Fn) {
    exists h: Fn :: Reaches(g, f, h) && h < |g| && (g[h].hasPtrCall || OnCycle(g, h))
  }

  ghost function StackOf(g: Graph, p: seq<Fn>): nat {
    if p == [] then 0 else (if p[0] < |g| then g[p[0]].localStack else 0) + StackOf(g, p[1..])
  }

  ghost predicate AtMost(g: Graph, f: Fn, n: nat) {
    forall p, h: Fn :: CallPath(g, p, f, h) ==> StackOf(g, p) <= n
  }

  ghost predicate Attained(g: Graph, f: Fn, n: nat) {
    exists p, h: Fn :: CallPath(g, p, f, h) && StackOf(g, p) == n
  }

  ghost predicate Correct(g: Graph, f: Fn, s: Stack) {
    match s
    case Unbounded => Endless(g, f)
    case Bounded(n) => !Endless(g, f) && AtMost(g, f, n) && Attained(g, f, n)
  }

  ghost predicate ReachesUnresolved(g: Graph, f: Fn, u: Name) {
    exists h: Fn :: Reaches(g, f, h) && h < |g| && u in g[h].unresolved
  }

  // ----- paths -----

  lemma ReachSelf(g: Graph, f: Fn)
    requires f < |g|
    ensures Reaches(g, f, f)
  {
    assert CallPath(g, [f], f, f);
  }

  lemma ConsPath(g: Graph, f: Fn, c: Fn, h: Fn, p: seq<Fn>)
    requires f < |g| && c in g[f].calls && CallPath(g, p, c, h)
    ensures CallPath(g, [f] + p, f, h)
    ensures StackOf(g, [f] + p) == g[f].localStack + StackOf(g, p)
  {
    assert ([f] + p)[1..] == p;
  }

  lemma {:induction false} SnocPath(g: Graph, p: seq<Fn>, f: Fn, h: Fn, c: Fn)
    requires CallPath(g, p, f, h) && c < |g|
    ensures h < |g|
    ensures c in g[h].calls ==> CallPath(g, p + [c], f, c)
  {
    if |p| > 1 { SnocPath(g, p[1..], p[1], h, c); }
    assert (p + [c])[1..] == p[1..] + [c];
    assert [c][0] == c;
  }

  lemma {:induction false} SuffixPath(g: Graph, p: seq<Fn>, f: Fn, h: Fn, k: nat)
    requires CallPath(g, p, f, h) && k < |p|
    ensures CallPath(g, p[k..], p[k], h)
  {
    if k > 0 {
      SuffixPath(g, p[1..], p[1], h, k - 1);
      assert p[1..][k - 1..] == p[k..];
    } else {
      assert p[k..] == p;
    }
  }

  lemma ReachStep(g: Graph, f: Fn, c: Fn, h: Fn)
    requires f < |g| && c in g[f].calls && Reaches(g, c, h)
    ensures Reaches(g, f, h)
  {
    var p :| CallPath(g, p, c, h);
    ConsPath(g, f, c, h, p);
  }

  lemma ReachSplit(g: Graph, f: Fn, h: Fn)
    requires Reaches(g, f, h) && f != h
    ensures f < |g| && exists c: Fn :: c in g[f].calls && Reaches(g, c, h)
  {
    var p :| CallPath(g, p, f, h);
    assert p[1] in g[f].calls && CallPath(g, p[1..], p[1], h);
  }

  lemma EndlessCallee(g: Graph, f: Fn, c: Fn)
    requires f < |g| && c in g[f].calls && Endless(g, c)
    ensures Endless(g, f)
  {
    var h: Fn :| Reaches(g, c, h) && h < |g| && (g[h].hasPtrCall || OnCycle(g, h));
    ReachStep(g, f, c, h);
  }

  /** Without a pointer call of its own, a function is endless only through a callee. */
  lemma EndlessSplit(g: Graph, f: Fn)
    requires f < |g| && Endless(g, f) && !g[f].hasPtrCall
    ensures exists c: Fn :: c in g[f].calls && Endless(g, c)
  {
    var h: Fn :| Reaches(g, f, h) && h < |g| && (g[h].hasPtrCall || OnCycle(g, h));
    if f == h {
      var c: Fn :| c in g[f].calls && Reaches(g, c, f);
      assert Endless(g, c);
    } else {
      ReachSplit(g, f, h);
      var c: Fn :| c in g[f].calls && Reaches(g, c, h);
      assert Endless(g, c);
    }
  }

  /** The answer for a function from the answers for its callees. */
  lemma FromCallees(g: Graph, f: Fn, m: nat)
    requires f < |g| && !g[f].hasPtrCall
    requires forall c: Fn :: c in g[f].calls ==> !Endless(g, c) && AtMost(g, c, m)
    requires m == 0 || exists c: Fn :: c in g[f].calls && Attained(g, c, m)
    ensures Correct(g, f, Bounded(m + g[f].localStack))
  {
    if Endless(g, f) { EndlessSplit(g, f); }
    var n := m + g[f].localStack;
    forall p, h: Fn | CallPath(g, p, f, h) ensures StackOf(g, p) <= n {
      if |p| > 1 { assert CallPath(g, p[1..], p[1], h) && StackOf(g, p[1..]) <= m; } else { assert p[1..] == []; }
    }
    if m == 0 {
      assert CallPath(g, [f], f, f) && StackOf(g, [f]) == n;
    } else {
      var c: Fn :| c in g[f].calls && Attained(g, c, m);
      var p, h: Fn :| CallPath(g, p, c, h) && StackOf(g, p) == m;
      ConsPath(g, f, c, h, p);
    }
  }

  /** A function has one right answer, so the visiting order cannot change it. */
  lemma AnswerIsUnique(g: Graph, f: Fn, s: Stack, t: Stack)
    requires Correct(g, f, s) && Correct(g, f, t)
    ensures s == t
  {
    if s.Bounded? && t.Bounded? {
      var p, h: Fn :| CallPath(g, p, f, h) && StackOf(g, p) == s.bytes;
      var q, k: Fn :| CallPath(g, q, f, k) && StackOf(g, q) == t.bytes;
      assert StackOf(g, p) <= t.bytes && StackOf(g, q) <= s.bytes;
    }
  }

  lemma UnresolvedSplit(g: Graph, f: Fn, u: Name)
    requires f < |g|
    ensures ReachesUnresolved(g, f, u) <==>
      u in g[f].unresolved || exists c: Fn :: c in g[f].calls && ReachesUnresolved(g, c, u)
  {
    if ReachesUnresolved(g, f, u) {
      var h: Fn :| Reaches(g, f, h) && h < |g| && u in g[h].unresolved;
      if f != h {
        ReachSplit(g, f, h);
        var c: Fn :| c in g[f].calls && Reaches(g, c, h);
        assert ReachesUnresolved(g, c, u);
      }
    }
    if u in g[f].unresolved { ReachSelf(g, f); }
    if c: Fn :| c in g[f].calls && ReachesUnresolved(g, c, u) {
      var h: Fn :| Reaches(g, c, h) && h < |g| && u in g[h].unresolved;
      ReachStep(g, f, c, h);
    }
  }

  // ----- what the search keeps -----

  datatype Answer = Unknown | Known(stack: Stack)

  /** What the search writes into a function's record. */
  datatype Entry = Entry(wcs: Answer, unresolved: set<Name>)

  type Table = seq<Entry>

  /** A written depth is right; collected names are reachable, and complete beside a bounded depth. */
  ghost predicate EntryOk(g: Graph, f: Fn, e: Entry)
    requires f < |g|
  {
    && (e.wcs.Known? ==> Correct(g, f, e.wcs.stack))
    && g[f].unresolved <= e.unresolved
    && (forall u :: u in e.unresolved ==> ReachesUnresolved(g, f, u))
    && (e.wcs.Known? && e.wcs.stack.Bounded? ==> forall u :: ReachesUnresolved(g, f, u) ==> u in e.unresolved)
  }

  ghost predicate Sound(g: Graph, t: Table) {
    |t| == |g| && forall f {:trigger t[f]} :: 0 <= f < |g| ==> EntryOk(g, f, t[f])
  }

  /** Later tables know at least as much. */
  ghost predicate Grows(t: Table, t': Table) {
    |t| == |t'| && forall h {:trigger t'[h]} :: 0 <= h < |t| ==>
      t[h].unresolved <= t'[h].unresolved && (t[h].wcs.Known? ==> t'[h].wcs.Known?)
  }

  /** `parents` is a chain of calls whose last member may call `f`. */
  ghost predicate Callers(g: Graph, parents: seq<Fn>, f: Fn) {
    && f < |g|
    && (parents != [] ==> exists h: Fn :: CallPath(g, parents, parents[0], h) && h < |g| && f in g[h].calls)
  }

  /** How many of the first `n` functions are not yet among the callers. */
  ghost function Room(n: nat, parents: seq<Fn>): nat {
    if n == 0 then 0 else Room(n - 1, parents) + if n - 1 in parents then 0 else 1
  }

  /** The callees in `done` are bounded, and `m` is the deepest of them. */
  ghost predicate Scanned(g: Graph, done: set<Fn>, m: nat) {
    && (forall c: Fn :: c in done ==> !Endless(g, c) && AtMost(g, c, m))
    && (m == 0 || exists c: Fn :: c in done && Attained(g, c, m))
  }

  ghost predicate Collected(g: Graph, done: set<Fn>, names: set<Name>) {
    forall c: Fn, u :: c in done && ReachesUnresolved(g, c, u) ==> u in names
  }

  /** Meeting a caller again closes a cycle. */
  lemma CallerAgain(g: Graph, parents: seq<Fn>, f: Fn)
    requires Callers(g, parents, f) && f in parents
    ensures Endless(g, f)
  {
    var k :| 0 <= k < |parents| && parents[k] == f;
    var last: Fn :| CallPath(g, parents, parents[0], last) && last < |g| && f in g[last].calls;
    SuffixPath(g, parents, parents[0], last, k);
    SnocPath(g, parents[k..], f, last, f);
    var p := parents[k..] + [f];
    assert p[1] in g[f].calls && CallPath(g, p[1..], p[1], f);
    ReachSelf(g, f);
    assert OnCycle(g, f);
  }

  lemma PushCaller(g: Graph, parents: seq<Fn>, f: Fn, c: Fn)
    requires Callers(g, parents, f) && f !in parents && c in g[f].calls && c < |g|
    ensures Callers(g, parents + [f], c)
    ensures Room(|g|, parents + [f]) < Room(|g|, parents)
  {
    var chain := parents + [f];
    if parents == [] {
      assert CallPath(g, chain, f, f);
    } else {
      var h: Fn :| CallPath(g, parents, parents[0], h) && h < |g| && f in g[h].calls;
      SnocPath(g, parents, parents[0], h, f);
      assert chain[0] == parents[0];
    }
    RoomShrinks(|g|, parents, f);
  }

  lemma {:induction false} RoomShrinks(n: nat, parents: seq<Fn>, f: Fn)
    requires f !in parents
    ensures Room(n, parents + [f]) <= Room(n, parents)
    ensures f < n ==> Room(n, parents + [f]) < Room(n, parents)
  {
    if n > 0 { RoomShrinks(n - 1, parents, f); }
  }

  lemma TakeIn(g: Graph, t: Table, f: Fn, c: Fn, done: set<Fn>, m: nat, n: nat)
    requires Sound(g, t) && f < |g| && c < |g| && c in g[f].calls && t[c].wcs == Known(Bounded(n))
    requires Scanned(g, done, m) && Collected(g, done, t[f].unresolved)
    ensures var e := t[f].(unresolved := t[f].unresolved + t[c].unresolved);
      EntryOk(g, f, e) && Collected(g, done + {c}, e.unresolved)
    ensures Scanned(g, done + {c}, if n > m then n else m)
  {
    assert EntryOk(g, f, t[f]) && EntryOk(g, c, t[c]);
    assert c in done + {c};
    forall u | u in t[c].unresolved ensures ReachesUnresolved(g, f, u) {
      UnresolvedSplit(g, f, u);
    }
  }

  lemma Finish(g: Graph, t: Table, f: Fn, m: nat, done: set<Fn>)
    requires Sound(g, t) && f < |g| && !g[f].hasPtrCall
    requires forall c: Fn :: c in done <==> c in g[f].calls
    requires Scanned(g, done, m) && Collected(g, done, t[f].unresolved)
    ensures EntryOk(g, f, t[f].(wcs := Known(Bounded(m + g[f].localStack))))
  {
    assert EntryOk(g, f, t[f]);
    FromCallees(g, f, m);
    forall u | ReachesUnresolved(g, f, u) ensures u in t[f].unresolved {
      UnresolvedSplit(g, f, u);
    }
  }

  // ----- the search -----

  class Analysis {
    const graph: Graph
    const table: array<Entry>

    ghost predicate Valid()
      reads table
    {
      Closed(graph) && Sound(graph, table[..])
    }

    /** `manual` are the functions whose depth was given by hand: no calls, a known stack. */
    constructor (graph: Graph, manual: set<Fn>)
      requires Closed(graph)
      requires forall f: nat :: f in manual ==> f < |graph| && graph[f].calls == [] && !graph[f].hasPtrCall
      ensures Valid() && this.graph == graph
      ensures forall f: nat :: f < |graph| ==> (table[f].wcs.Known? <==> f in manual)
    {
      this.graph := graph;
      table := new Entry[|graph|](f requires 0 <= f < |graph| =>
        Entry(if f in manual then Known(Bounded(graph[f].localStack)) else Unknown, graph[f].unresolved));
      new;
      forall f: nat | f < |graph| ensures EntryOk(graph, f, table[f]) {
        if f in manual { FromCallees(graph, f, 0); }
        forall u ensures u in graph[f].unresolved ==> ReachesUnresolved(graph, f, u)
                 ensures f in manual && ReachesUnresolved(graph, f, u) ==> u in graph[f].unresolved
        {
          UnresolvedSplit(graph, f, u);
        }
      }
    }

    method CalcWcs(f: Fn, parents: seq<Fn>)
      requires Valid() && Callers(graph, parents, f)
      modifies table
      ensures Valid() && Grows(old(table[..]), table[..]) && table[f].wcs.Known?
      decreases Room(|graph|, parents), 1
    {
      if table[f].wcs.Known? {
        return;
      }
      if graph[f].hasPtrCall || f in parents {
        if graph[f].hasPtrCall { ReachSelf(graph, f); } else { CallerAgain(graph, parents, f); }
        table[f] := table[f].(wcs := Known(Unbounded));
        return;
      }
      var callMax: nat := 0;
      ghost var done: set<Fn> := {};
      var calls := graph[f].calls;
      for i := 0 to |calls|
        invariant Valid() && Grows(old(table[..]), table[..])
        invariant Scanned(graph, done, callMax) && Collected(graph, done, table[f].unresolved)
        invariant forall c: Fn :: c in done <==> c in calls[..i]
      {
        var answer := VisitCallee(f, calls[i], callMax, parents, done);
        if answer.Unbounded? {
          table[f] := table[f].(wcs := Known(Unbounded));
          return;
        }
        callMax := answer.bytes;
        done := done + {calls[i]};
      }
      Finish(graph, table[..], f, callMax, done);
      table[f] := table[f].(wcs := Known(Bounded(callMax + graph[f].localStack)));
    }

    /** One turn of the loop over the callees of `f`; `done` are the callees of earlier turns. */
    method VisitCallee(f: Fn, c: Fn, callMax: nat, parents: seq<Fn>, ghost done: set<Fn>) returns (answer: Stack)
      requires Valid() && Callers(graph, parents, f) && f !in parents && c in graph[f].calls
      requires Scanned(graph, done, callMax) && Collected(graph, done, table[f].unresolved)
      modifies table
      ensures Valid() && Grows(old(table[..]), table[..])
      ensures answer.Unbounded? ==> Endless(graph, f)
      ensures answer.Bounded? ==>
                Scanned(graph, done + {c}, answer.bytes) && Collected(graph, done + {c}, table[f].unresolved)
      decreases Room(|graph|, parents), 0
    {
      PushCaller(graph, parents, f, c);
      CalcWcs(c, parents + [f]);
      assert EntryOk(graph, c, table[c]);
      var stack := table[c].wcs.stack;
      if stack.Unbounded? {
        EndlessCallee(graph, f, c);
        return Unbounded;
      }
      answer := Bounded(if stack.bytes > callMax then stack.bytes else callMax);
      TakeIn(graph, table[..], f, c, done, callMax, stack.bytes);
      table[f] := table[f].(unresolved := table[f].unresolved + table[c].unresolved);
    }

    /** Visits every function, in whatever order `order` lists them. */
    method CalcAllWcs(order: seq<Fn>)
      requires Valid()
      requires forall f: Fn :: f < |graph| ==> f in order
      requires forall i :: 0 <= i < |order| ==> order[i] < |graph|
      modifies table
      ensures table.Length == |graph| && forall f: nat :: f < |graph| ==> table[f].wcs.Known?
      ensures forall f: nat :: f < |graph| ==> (table[f].wcs.stack == Unbounded <==> Endless(graph, f))
      ensures forall f: nat, n :: f < |graph| && table[f].wcs.stack == Bounded(n) ==>
                AtMost(graph, f, n) && Attained(graph, f, n)
      ensures forall f: nat, u :: f < |graph| && table[f].wcs.stack.Bounded? ==>
                (u in table[f].unresolved <==> ReachesUnresolved(graph, f, u))
    {
      for i := 0 to |order|
        invariant Valid()
        invariant forall j :: 0 <= j < i ==> table[order[j]].wcs.Known?
      {
        CalcWcs(order[i], []);
      }
      forall f: nat | f < |graph| ensures table[f].wcs.Known? && EntryOk(graph, f, table[f]) {
        assert f in order;
      }
    }
  }
}

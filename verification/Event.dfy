/** The event sets of rt-thread/src/ipc.c. */
module Event {
  import opened Rings
  import opened WaitList

  const AND: bv8 := 0x01
  const OR: bv8 := 0x02
  const CLEAR: bv8 := 0x04

  /** The bits a thread asks for, and how. */
  datatype Wish = Wish(bits: bv32, option: bv8)

  datatype Phase = Idle | Waiting | Woken

  datatype Thread = Thread(phase: Phase, wish: Wish)

  datatype Outcome = Invalid | TimedOut | Blocked | Got(bits: bv32)

  /** One atomic region; `prio` gives the priorities of all threads at that moment. */
  datatype Step =
    | SendStep(sent: bv32)
    | ReceiveStep(thread: nat, wish: Wish, timeout: int, prio: seq<int>)
    | FinishStep(thread: nat)
    | TimeoutStep(thread: nat)
    | ResetStep

  predicate Asks(w: Wish, flag: bv8) { w.option & flag != 0 }

  predicate Covered(v: bv32, e: bv32) { v & e == v }

  predicate Shares(v: bv32, e: bv32) { v & e != 0 }

  predicate Sensible(w: Wish) {
    w.bits != 0 && (Asks(w, AND) || Asks(w, OR))
  }

  /** The event set `e` meets the wish; asking for all bits takes precedence over asking for any. */
  predicate Met(w: Wish, e: bv32) {
    if Asks(w, AND) then Covered(w.bits, e) else Asks(w, OR) && Shares(w.bits, e)
  }

  // ----- what a receive takes, and what a send hands to a waiter -----

  function Received(w: Wish, e: bv32): bv32 { e & w.bits }

  function More(e: bv32, sent: bv32): bv32 { e | sent }

  function Less(e: bv32, h: bv32): bv32 { e & !h }

  function LeftByReceive(w: Wish, e: bv32): bv32 {
    if Asks(w, CLEAR) then Less(e, w.bits) else e
  }

  function Handed(w: Wish, e: bv32): bv32 {
    if Asks(w, AND) then w.bits else w.bits & e
  }

  function LeftBySend(w: Wish, e: bv32): bv32 {
    if Asks(w, CLEAR) then Less(e, Handed(w, e)) else e
  }

  // ----- position by position -----

  /** Position `i` of the word holds a 1. */
  predicate Bit(v: bv32, i: bv5) { (v >> i) & 1 == 1 }

  lemma BitOfBoth(v: bv32, w: bv32, i: bv5, x: bv32)
    requires x == v & w
    ensures Bit(x, i) == (Bit(v, i) && Bit(w, i))
  {
  }

  lemma BitOfRest(v: bv32, w: bv32, i: bv5, x: bv32)
    requires x == v & !w
    ensures Bit(x, i) == (Bit(v, i) && !Bit(w, i))
  {
  }

  lemma ZeroHasNone(i: bv5)
    ensures !Bit(0, i)
  {
  }

  lemma NoBit(v: bv32)
    requires forall i :: !Bit(v, i)
    ensures v == 0
  {
    assert !Bit(v, 0) && !Bit(v, 1) && !Bit(v, 2) && !Bit(v, 3) && !Bit(v, 4) && !Bit(v, 5) && !Bit(v, 6);
    assert !Bit(v, 7) && !Bit(v, 8) && !Bit(v, 9) && !Bit(v, 10) && !Bit(v, 11) && !Bit(v, 12) && !Bit(v, 13);
    assert !Bit(v, 14) && !Bit(v, 15) && !Bit(v, 16) && !Bit(v, 17) && !Bit(v, 18) && !Bit(v, 19) && !Bit(v, 20);
    assert !Bit(v, 21) && !Bit(v, 22) && !Bit(v, 23) && !Bit(v, 24) && !Bit(v, 25) && !Bit(v, 26) && !Bit(v, 27);
    assert !Bit(v, 28) && !Bit(v, 29) && !Bit(v, 30) && !Bit(v, 31);
  }

  lemma CoveredIf(v: bv32, e: bv32, x: bv32)
    requires x == v & !e && x == 0
    ensures Covered(v, e)
  {
  }

  lemma SharesBits(v: bv32, e: bv32)
    ensures Shares(v, e) <==> exists i :: Bit(v, i) && Bit(e, i)
  {
    var x := v & e;
    forall i ensures Bit(x, i) == (Bit(v, i) && Bit(e, i)) && !Bit(0, i) {
      BitOfBoth(v, e, i, x);
      ZeroHasNone(i);
    }
    if forall i :: !Bit(x, i) { NoBit(x); }
  }

  lemma CoveredBits(v: bv32, e: bv32)
    ensures Covered(v, e) <==> forall i :: Bit(v, i) ==> Bit(e, i)
  {
    var x, y := v & e, v & !e;
    forall i
      ensures Bit(x, i) == (Bit(v, i) && Bit(e, i)) && Bit(y, i) == (Bit(v, i) && !Bit(e, i))
    {
      BitOfBoth(v, e, i, x);
      BitOfRest(v, e, i, y);
    }
    if forall i :: !Bit(y, i) {
      NoBit(y);
      CoveredIf(v, e, y);
    }
  }

  /** Which sets meet a wish, position by position: with AND all positions asked for have to be set, with OR alone one
      of them, and without either nothing helps. */
  lemma MetBits(w: Wish, e: bv32)
    ensures Asks(w, AND) ==> (Met(w, e) <==> forall i :: Bit(w.bits, i) ==> Bit(e, i))
    ensures !Asks(w, AND) && Asks(w, OR) ==> (Met(w, e) <==> exists i :: Bit(w.bits, i) && Bit(e, i))
    ensures !Asks(w, AND) && !Asks(w, OR) ==> !Met(w, e)
  {
    CoveredBits(w.bits, e);
    SharesBits(w.bits, e);
  }

  /** A send adds the positions sent to the set. */
  lemma SentBits(e: bv32, sent: bv32, i: bv5)
    ensures Bit(More(e, sent), i) == (Bit(e, i) || Bit(sent, i))
  {
  }

  /** A receive returns the positions asked for that are set. */
  lemma ReceivedBits(w: Wish, e: bv32, i: bv5)
    ensures Bit(Received(w, e), i) == (Bit(e, i) && Bit(w.bits, i))
  {
    BitOfBoth(e, w.bits, i, Received(w, e));
  }

  /** With CLEAR a receive takes just the positions asked for out of the set, and otherwise none. */
  lemma LeftBits(w: Wish, e: bv32, i: bv5)
    ensures Bit(LeftByReceive(w, e), i) == (Bit(e, i) && !(Asks(w, CLEAR) && Bit(w.bits, i)))
  {
    if Asks(w, CLEAR) { BitOfRest(e, w.bits, i, LeftByReceive(w, e)); }
  }

  lemma HandedIsReceived(w: Wish, e: bv32)
    requires Met(w, e)
    ensures Handed(w, e) == Received(w, e)
  {
  }

  lemma RestSame(v: bv32, e: bv32, h: bv32)
    requires h == e & v
    ensures Less(e, v) == Less(e, h)
  {
  }

  lemma LeftAlike(w: Wish, e: bv32, h: bv32)
    requires h == Handed(w, e) && h == e & w.bits
    ensures LeftBySend(w, e) == LeftByReceive(w, e)
  {
    RestSame(w.bits, e, h);
  }

  /** Being handed bits by a send and receiving them comes to the same. */
  lemma EitherWay(w: Wish, e: bv32)
    requires Met(w, e)
    ensures Handed(w, e) == Received(w, e) && LeftBySend(w, e) == LeftByReceive(w, e)
  {
    HandedIsReceived(w, e);
    LeftAlike(w, e, Handed(w, e));
  }

  predicate Within(a: bv32, b: bv32) { a & b == a }

  lemma Masked(e: bv32, h: bv32)
    ensures Within(Less(e, h), e) && Within(e, e)
  {
  }

  lemma LeftWithin(w: Wish, e: bv32)
    ensures Within(LeftBySend(w, e), e)
  {
    var h := Handed(w, e);
    Masked(e, h);
    if Asks(w, CLEAR) {
      assert LeftBySend(w, e) == Less(e, h);
    } else {
      assert LeftBySend(w, e) == e;
    }
  }

  lemma ReceiveWithin(w: Wish, e: bv32)
    ensures Within(LeftByReceive(w, e), e)
  {
    Masked(e, w.bits);
    if Asks(w, CLEAR) {
      assert LeftByReceive(w, e) == Less(e, w.bits);
    } else {
      assert LeftByReceive(w, e) == e;
    }
  }

  lemma WithinTrans(a: bv32, b: bv32, c: bv32)
    requires Within(a, b) && Within(b, c)
    ensures Within(a, c)
  {
    assert (a & b) & c == a & (b & c);
  }

  /** Clearing bits never meets a wish. */
  lemma MetGrows(w: Wish, a: bv32, b: bv32)
    requires Within(a, b) && Met(w, a)
    ensures Met(w, b)
  {
    if Asks(w, AND) {
      assert a & b == a && w.bits & a == w.bits ==> w.bits & b == w.bits;
    } else {
      assert a & b == a && w.bits & b == 0 ==> w.bits & a == 0;
    }
  }

  // ----- the walk of a send along the waiters -----

  function WishOf(ts: seq<Thread>, t: nat): Wish {
    if t < |ts| then ts[t].wish else Wish(0, 0)
  }

  /** The event set when the walk reaches waiter `k`. */
  ghost function SetAt(list: seq<nat>, ts: seq<Thread>, e: bv32, k: nat): bv32
    requires k <= |list|
  {
    if k == 0 then e
    else
      var before, w := SetAt(list, ts, e, k - 1), WishOf(ts, list[k - 1]);
      if Met(w, before) then LeftBySend(w, before) else before
  }

  /** Waiter `k` is resumed. */
  ghost predicate Chosen(list: seq<nat>, ts: seq<Thread>, e: bv32, k: nat)
    requires k < |list|
  {
    Met(WishOf(ts, list[k]), SetAt(list, ts, e, k))
  }

  /** Those of the first `k` waiters that stay suspended. */
  ghost function Kept(list: seq<nat>, ts: seq<Thread>, e: bv32, k: nat): seq<nat>
    requires k <= |list|
  {
    if k == 0 then []
    else
      var before := Kept(list, ts, e, k - 1);
      if Chosen(list, ts, e, k - 1) then before else before + [list[k - 1]]
  }

  /** The event set when the waiters have called receive one after another, those that cannot be served leaving it
      alone. */
  ghost function InTurn(list: seq<nat>, ts: seq<Thread>, e: bv32, k: nat): bv32
    requires k <= |list|
  {
    if k == 0 then e
    else
      var before, w := InTurn(list, ts, e, k - 1), WishOf(ts, list[k - 1]);
      if Met(w, before) then LeftByReceive(w, before) else before
  }

  /** One send serves all waiters as if it had come first and they had called receive in their order. */
  lemma {:induction false} SendServesInTurn(list: seq<nat>, ts: seq<Thread>, e: bv32, k: nat)
    requires k <= |list|
    ensures SetAt(list, ts, e, k) == InTurn(list, ts, e, k)
    ensures k < |list| && Chosen(list, ts, e, k) ==>
              Handed(WishOf(ts, list[k]), SetAt(list, ts, e, k)) ==
                Received(WishOf(ts, list[k]), InTurn(list, ts, e, k))
  {
    if k > 0 {
      SendServesInTurn(list, ts, e, k - 1);
      if Chosen(list, ts, e, k - 1) { EitherWay(WishOf(ts, list[k - 1]), SetAt(list, ts, e, k - 1)); }
    }
    if k < |list| && Chosen(list, ts, e, k) { EitherWay(WishOf(ts, list[k]), SetAt(list, ts, e, k)); }
  }

  lemma {:induction false} SetShrinks(list: seq<nat>, ts: seq<Thread>, e: bv32, j: nat, k: nat)
    requires j <= k <= |list|
    ensures Within(SetAt(list, ts, e, k), SetAt(list, ts, e, j))
  {
    if j < k {
      var w := WishOf(ts, list[k - 1]);
      SetShrinks(list, ts, e, j, k - 1);
      LeftWithin(w, SetAt(list, ts, e, k - 1));
      if Chosen(list, ts, e, k - 1) {
        WithinTrans(SetAt(list, ts, e, k), SetAt(list, ts, e, k - 1), SetAt(list, ts, e, j));
      }
    }
  }

  /** Whoever is left on the list is not served by what is left in the set. */
  lemma {:induction false} NobodyServed(list: seq<nat>, ts: seq<Thread>, e: bv32, k: nat)
    requires k <= |list|
    ensures forall t :: t in Kept(list, ts, e, k) ==> t in list && !Met(WishOf(ts, t), SetAt(list, ts, e, |list|))
  {
    if k > 0 {
      NobodyServed(list, ts, e, k - 1);
      var w := WishOf(ts, list[k - 1]);
      SetShrinks(list, ts, e, k - 1, |list|);
      if !Chosen(list, ts, e, k - 1) && Met(w, SetAt(list, ts, e, |list|)) {
        MetGrows(w, SetAt(list, ts, e, |list|), SetAt(list, ts, e, k - 1));
      }
    }
  }

  lemma {:induction false} KeptHas(list: seq<nat>, ts: seq<Thread>, e: bv32, k: nat)
    requires Distinct(list) && k <= |list|
    ensures Distinct(Kept(list, ts, e, k)) && |Kept(list, ts, e, k)| <= k
    ensures forall t :: t in Kept(list, ts, e, k) <==> exists j :: 0 <= j < k && list[j] == t && !Chosen(list, ts, e, j)
  {
    if k > 0 {
      var before, after := Kept(list, ts, e, k - 1), Kept(list, ts, e, k);
      KeptHas(list, ts, e, k - 1);
      forall i, j ensures Differ(after, i, j) {
        assert Differ(before, i, j);
        if 0 <= i < j < |after| && j == |before| {
          assert before[i] in before;
          var q :| 0 <= q < k - 1 && list[q] == before[i] && !Chosen(list, ts, e, q);
          assert Differ(list, q, k - 1);
        }
      }
    }
  }

  // ----- what each region does -----

  datatype State = State(bits: bv32, waiting: seq<nat>, threads: seq<Thread>)

  /** Every waiter was dealt with in turn: resumed with the bits due to it, or left alone. */
  ghost predicate Dealt(s: State, u: State, e: bv32) {
    var list, n := s.waiting, |s.waiting|;
    && u.bits == SetAt(list, s.threads, e, n) && u.waiting == Kept(list, s.threads, e, n)
    && |u.threads| == |s.threads| && (forall t :: 0 <= t < |s.threads| && t !in list ==> u.threads[t] == s.threads[t])
    && forall j {:trigger DealtWith(s, u, e, j)} :: DealtWith(s, u, e, j)
  }

  ghost predicate DealtWith(s: State, u: State, e: bv32, j: int) {
    var list, ts := s.waiting, s.threads;
    0 <= j < |list| && list[j] < |ts| == |u.threads| ==>
      u.threads[list[j]] == if Chosen(list, ts, e, j)
                            then Thread(Woken,
                                        ts[list[j]].wish.(bits := Handed(ts[list[j]].wish, SetAt(list, ts, e, j))))
                            else ts[list[j]]
  }

  /** A receive: refused for no bits, served if the wish is met, and otherwise a wait unless the timeout is 0. */
  ghost function ReceivedBy(s: State, t: nat, w: Wish, timeout: int, prio: seq<int>, d: Discipline): State
    requires t < |s.threads|
  {
    if w.bits == 0 then s
    else if Met(w, s.bits) then
      State(LeftByReceive(w, s.bits), s.waiting,
            s.threads[t := Thread(Idle, Wish(Received(w, s.bits), w.option))])
    else if timeout == 0 then s
    else State(s.bits, Enqueued(s.waiting, t, prio, d), s.threads[t := Thread(Waiting, w)])
  }

  ghost predicate Next(d: Discipline, step: Step, s: State, u: State) {
    match step
    case SendStep(sent) => if sent == 0 then u == s else Dealt(s, u, More(s.bits, sent))
    case ReceiveStep(t, w, timeout, prio) =>
      u == if t < |s.threads| && s.threads[t].phase == Idle && (Asks(w, AND) || Asks(w, OR))
           then ReceivedBy(s, t, w, timeout, prio, d) else s
    case FinishStep(t) =>
      u == if t < |s.threads| && s.threads[t].phase == Woken
           then s.(threads := s.threads[t := s.threads[t].(phase := Idle)]) else s
    case TimeoutStep(t) =>
      u == if t < |s.threads| && s.threads[t].phase == Waiting
           then State(s.bits, Dropped(s.waiting, t), s.threads[t := s.threads[t].(phase := Idle)]) else s
    case ResetStep =>
      && u.bits == 0 && u.waiting == [] && |u.threads| == |s.threads|
      && forall t :: 0 <= t < |s.threads| ==>
           u.threads[t] == if s.threads[t].phase == Waiting then s.threads[t].(phase := Idle) else s.threads[t]
  }

  class EventSet {
    const flag: Discipline
    const threads: array<Thread>
    var bits: bv32
    var waiting: seq<nat>

    ghost predicate ThreadOk(t: nat)
      reads this`waiting, threads
    {
      if t < threads.Length then (t in waiting <==> threads[t].phase == Waiting) else t !in waiting
    }

    ghost predicate Threads()
      reads this`waiting, threads
    {
      Distinct(waiting) && forall t: nat {:trigger ThreadOk(t)} :: ThreadOk(t)
    }

    /** No suspended thread's wish is met. */
    ghost predicate NobodyReady()
      reads this, threads
    {
      forall t :: t in waiting ==> Sensible(WishOf(threads[..], t)) && !Met(WishOf(threads[..], t), bits)
    }

    ghost predicate Valid()
      reads this, threads
    {
      Threads() && NobodyReady()
    }

    /** `rt_event_init`. */
    constructor (flag: Discipline, n: nat)
      ensures Valid() && bits == 0 && waiting == [] && threads.Length == n && this.flag == flag
      ensures forall t :: 0 <= t < n ==> threads[t].phase == Idle
    {
      this.flag := flag;
      threads := new Thread[n](_ => Thread(Idle, Wish(0, 0)));
      bits := 0;
      waiting := [];
    }

    /** Thread `t` is resumed out of place `i` with the bits it is handed. */
    method Resume(t: nat, i: nat, handed: bv32)
      requires Threads() && i < |waiting| && waiting[i] == t
      modifies this`waiting, threads
      ensures Threads() && waiting == old(waiting)[..i] + old(waiting)[i + 1..]
      ensures t < threads.Length
      ensures threads[..] == old(threads[..])[t := Thread(Woken, old(threads[..])[t].wish.(bits := handed))]
    {
      assert t in waiting && ThreadOk(t);
      DistinctWithout(waiting, i);
      waiting := waiting[..i] + waiting[i + 1..];
      threads[t] := Thread(Woken, threads[t].wish.(bits := handed));
      forall u: nat ensures ThreadOk(u) {
        assert old(ThreadOk(u));
      }
    }

    /** Waiter `j` has not been reached. */
    ghost predicate Todo(list: seq<nat>, ts: seq<Thread>, k: int, j: int)
      reads threads
    {
      0 <= k <= j < |list| ==> list[j] < threads.Length == |ts| && threads[list[j]] == ts[list[j]]
    }

    /** Waiter `j` has been resumed with the bits due to it, or left alone. */
    ghost predicate Served(list: seq<nat>, ts: seq<Thread>, e: bv32, j: int)
      reads threads
    {
      0 <= j < |list| ==>
        && list[j] < threads.Length == |ts|
        && threads[list[j]] == if Chosen(list, ts, e, j)
                               then Thread(Woken,
                                           ts[list[j]].wish.(bits := Handed(ts[list[j]].wish, SetAt(list, ts, e, j))))
                               else ts[list[j]]
    }

    /** The walk has dealt with `k` of the waiters. */
    ghost predicate Walking(list: seq<nat>, ts: seq<Thread>, e: bv32, k: nat, i: nat)
      reads this, threads
    {
      && Threads() && Distinct(list) && k <= |list| && |ts| == threads.Length
      && bits == SetAt(list, ts, e, k) && waiting == Kept(list, ts, e, k) + list[k..] && i == |Kept(list, ts, e, k)|
      && (forall j {:trigger Todo(list, ts, k, j)} :: Todo(list, ts, k, j))
      && (forall j {:trigger Served(list, ts, e, j)} :: j < k ==> Served(list, ts, e, j))
      && forall t :: 0 <= t < threads.Length && t !in list ==> threads[t] == ts[t]
    }

    /** One turn of the walk. */
    method Turn(i: nat, ghost k: nat, ghost list: seq<nat>, ghost ts: seq<Thread>, ghost e: bv32) returns (next: nat)
      requires Walking(list, ts, e, k, i) && i < |waiting|
      modifies this, threads
      ensures k < |list| && Walking(list, ts, e, k + 1, next)
    {
      var t := waiting[i];
      assert t == list[k] && t in waiting && t in list && ThreadOk(t) && Todo(list, ts, k, k);
      forall j | 0 <= j < |list| && j != k ensures list[j] != t { SamePlace(list, j, k); }
      ghost var kept := Kept(list, ts, e, k);
      assert waiting[i + 1..] == list[k + 1..] && waiting[..i] == kept;
      var w := threads[t].wish;
      if Met(w, bits) {
        var handed := Handed(w, bits);
        bits := LeftBySend(w, bits);
        Resume(t, i, handed);
        next := i;
      } else {
        assert waiting == (kept + [t]) + list[k + 1..];
        next := i + 1;
      }
      ghost var after := k + 1;
      forall j ensures Todo(list, ts, after, j) {
        assert old(Todo(list, ts, k, j));
      }
      forall j | j < k + 1 ensures Served(list, ts, e, j) {
        assert j < k ==> old(Served(list, ts, e, j));
      }
    }

    /** The walk along the suspended threads. */
    method Walk()
      requires Threads()
      modifies this, threads
      ensures Walking(old(waiting), old(threads[..]), old(bits), |old(waiting)|, |waiting|)
    {
      ghost var list, ts, e := waiting, threads[..], bits;
      var i: nat := 0;
      ghost var k: nat := 0;
      assert list[0..] == list;
      forall j ensures Todo(list, ts, 0, j) {
        assert 0 <= j < |list| ==> list[j] in waiting && ThreadOk(list[j]);
      }
      while i < |waiting|
        invariant Walking(list, ts, e, k, i)
        decreases |list| - k
      {
        i := Turn(i, k, list, ts, e);
        k := k + 1;
      }
    }

    /** `rt_event_send`. */
    method Send(sent: bv32) returns (ok: bool)
      requires Valid()
      modifies this, threads
      ensures Valid() && (ok <==> sent != 0)
      ensures !ok ==> bits == old(bits) && waiting == old(waiting) && threads[..] == old(threads[..])
      ensures ok ==> Walking(old(waiting), old(threads[..]), More(old(bits), sent), |old(waiting)|, |waiting|)
    {
      if sent == 0 {
        return false;
      }
      ghost var list, ts := waiting, threads[..];
      bits := More(bits, sent);
      ghost var e := bits;
      if waiting != [] {
        Walk();
      } else {
        WalkOfNone(e);
      }
      NobodyServed(list, ts, e, |list|);
      forall t | t in waiting ensures WishOf(threads[..], t) == WishOf(ts, t) {
        KeptHas(list, ts, e, |list|);
        var j :| 0 <= j < |list| && list[j] == t && !Chosen(list, ts, e, j);
        assert Served(list, ts, e, j);
      }
      return true;
    }

    lemma WalkOfNone(e: bv32)
      requires Threads() && waiting == [] && bits == e
      ensures Walking([], threads[..], e, 0, 0)
    {
    }

    /** The first region of `rt_event_recv`; the program insists that the option asks for all or for any. */
    method Receive(t: nat, w: Wish, timeout: int, prio: seq<int>) returns (out: Outcome)
      requires Valid() && t < threads.Length && threads[t].phase == Idle
      requires Asks(w, AND) || Asks(w, OR)
      modifies this, threads
      ensures Valid()
      ensures w.bits == 0 ==> out == Invalid
      ensures w.bits != 0 && Met(w, old(bits)) ==>
                out == Got(Received(w, old(bits))) && bits == LeftByReceive(w, old(bits))
      ensures w.bits != 0 && !Met(w, old(bits)) ==>
                bits == old(bits) && out == if timeout == 0 then TimedOut else Blocked
      ensures out != Blocked ==>
                waiting == old(waiting) && (out == Invalid ==> bits == old(bits))
      ensures out.Got? ==> threads[t] == Thread(Idle, Wish(out.bits, w.option))
      ensures out == Invalid || out == TimedOut ==> threads[t] == old(threads[t])
      ensures out == Blocked ==> waiting == Enqueued(old(waiting), t, prio, flag) && threads[t] == Thread(Waiting, w)
      ensures forall u :: 0 <= u < threads.Length && u != t ==> threads[u] == old(threads[u])
    {
      assert ThreadOk(t);
      if w.bits == 0 {
        return Invalid;
      }
      if Met(w, bits) {
        out := Got(Received(w, bits));
        Note(t, Idle, Wish(Received(w, bits), w.option));
        Clear(w);
      } else if timeout == 0 {
        out := TimedOut;
      } else {
        EnqueuedHas(waiting, t, prio, flag);
        waiting := Enqueued(waiting, t, prio, flag);
        threads[t] := Thread(Waiting, w);
        forall u: nat ensures ThreadOk(u) {
          assert old(ThreadOk(u));
        }
        out := Blocked;
      }
    }

    method Note(t: nat, p: Phase, w: Wish)
      requires Valid() && t < threads.Length && t !in waiting && p != Waiting
      modifies threads
      ensures Valid() && threads[..] == old(threads[..])[t := Thread(p, w)]
    {
      threads[t] := Thread(p, w);
      forall u: nat ensures ThreadOk(u) {
        assert old(ThreadOk(u));
      }
    }

    /** The receiving thread clears the bits it asked for, if it said so. */
    method Clear(w: Wish)
      requires Valid()
      modifies this`bits
      ensures Valid() && bits == LeftByReceive(w, old(bits))
    {
      ghost var e := bits;
      ReceiveWithin(w, e);
      bits := LeftByReceive(w, bits);
      forall t | t in waiting ensures !Met(WishOf(threads[..], t), bits) {
        if Met(WishOf(threads[..], t), bits) { MetGrows(WishOf(threads[..], t), bits, e); }
      }
    }

    /** The last region of `rt_event_recv` for a thread that was resumed. */
    method Finish(t: nat) returns (out: Outcome)
      requires Valid() && t < threads.Length && threads[t].phase == Woken
      modifies threads
      ensures Valid() && out == Got(old(threads[t].wish.bits)) && threads[t] == old(threads[t]).(phase := Idle)
      ensures bits == old(bits) && waiting == old(waiting)
      ensures forall u :: 0 <= u < threads.Length && u != t ==> threads[u] == old(threads[u])
    {
      assert ThreadOk(t);
      out := Got(threads[t].wish.bits);
      Note(t, Idle, threads[t].wish);
    }

    /** `rt_thread_timeout` for a suspended thread. */
    method Timeout(t: nat)
      requires Valid() && t < threads.Length && threads[t].phase == Waiting
      modifies this`waiting, threads
      ensures Valid() && bits == old(bits) && waiting == Dropped(old(waiting), t)
      ensures threads[t] == old(threads[t]).(phase := Idle)
      ensures forall u :: 0 <= u < threads.Length && u != t ==> threads[u] == old(threads[u])
    {
      assert ThreadOk(t);
      DroppedHas(waiting, t);
      waiting := Dropped(waiting, t);
      threads[t] := threads[t].(phase := Idle);
      forall u: nat ensures ThreadOk(u) {
        assert old(ThreadOk(u));
      }
    }

    /** `rt_event_control` with the reset command. */
    method Reset()
      requires Valid()
      modifies this, threads
      ensures Valid() && bits == 0 && waiting == []
      ensures forall t :: 0 <= t < threads.Length ==>
                threads[t] == if old(threads[t]).phase == Waiting then old(threads[t]).(phase := Idle)
                              else old(threads[t])
    {
      while waiting != []
        invariant Valid()
        invariant forall t :: 0 <= t < threads.Length ==>
                    threads[t] == old(threads[t]) ||
                    (old(threads[t]).phase == Waiting && threads[t] == old(threads[t]).(phase := Idle))
        decreases |waiting|
      {
        assert waiting[0] in waiting && ThreadOk(waiting[0]);
        DroppedHas(waiting, waiting[0]);
        Timeout(waiting[0]);
      }
      bits := 0;
      forall t: nat | t < threads.Length ensures threads[t].phase != Waiting {
        assert ThreadOk(t);
      }
    }

    predicate Enabled(step: Step)
      reads threads
    {
      match step
      case SendStep(_) => true
      case ReceiveStep(t, w, _, _) => t < threads.Length && threads[t].phase == Idle && (Asks(w, AND) || Asks(w, OR))
      case FinishStep(t) => t < threads.Length && threads[t].phase == Woken
      case TimeoutStep(t) => t < threads.Length && threads[t].phase == Waiting
      case ResetStep => true
    }

    ghost function Now(): State
      reads this`bits, this`waiting, threads
    {
      State(bits, waiting, threads[..])
    }

    method Do(step: Step)
      requires Valid()
      modifies this, threads
      ensures Valid() && Next(flag, step, old(Now()), Now())
    {
      if Enabled(step) {
        match step
        case SendStep(sent) => DoSend(sent);
        case ReceiveStep(t, w, timeout, prio) => var out := Receive(t, w, timeout, prio);
        case FinishStep(t) => var out := Finish(t);
        case TimeoutStep(t) => Timeout(t);
        case ResetStep => Reset();
      }
    }

    method DoSend(sent: bv32)
      requires Valid()
      modifies this, threads
      ensures Valid() && Next(flag, SendStep(sent), old(Now()), Now())
    {
      ghost var s := Now();
      var ok := Send(sent);
      if ok { Walked(s, More(s.bits, sent), |waiting|); }
    }

    /** When the walk is over, every waiter has been dealt with. */
    lemma Walked(s: State, e: bv32, i: nat)
      requires Walking(s.waiting, s.threads, e, |s.waiting|, i)
      ensures Dealt(s, Now(), e)
    {
      forall j ensures DealtWith(s, Now(), e, j) {
        if j < |s.waiting| { assert Served(s.waiting, s.threads, e, j); }
      }
    }

    /** Whatever the program does, no thread stays suspended whose wish the event set meets. */
    method Run(steps: seq<Step>) returns (ghost trace: seq<State>)
      requires Valid()
      modifies this, threads
      ensures Threads()
      ensures forall t :: 0 <= t < threads.Length && threads[t].phase == Waiting ==> !Met(threads[t].wish, bits)
      ensures |trace| == |steps| + 1 && trace[0] == old(Now()) && trace[|steps|] == Now()
      ensures forall i :: 0 <= i < |steps| ==> Next(flag, steps[i], trace[i], trace[i + 1])
    {
      trace := [Now()];
      for i := 0 to |steps|
        invariant Valid() && |trace| == i + 1 && trace[0] == old(Now()) && trace[i] == Now()
        invariant forall j :: 0 <= j < i ==> Next(flag, steps[j], trace[j], trace[j + 1])
      {
        Do(steps[i]);
        trace := trace + [Now()];
      }
      assert forall t: nat :: t < threads.Length && threads[t].phase == Waiting ==> ThreadOk(t);
    }
  }
}

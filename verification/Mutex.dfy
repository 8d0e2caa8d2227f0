/** The mutex of rt-thread/src/ipc.c: ownership, nesting and priority inheritance.

    Smaller numbers are more urgent.  The model has one mutex, and nothing but the mutex
    changes a thread's priority; `base` is the priority a thread has of its own. */
module Mutex {
  import opened Common
  import opened Rings
  import opened WaitList

  const HOLD_MAX: nat := 255
  const VALUE_MAX: nat := 65535

  datatype Outcome = Taken | Full | TimedOut | Blocked | Released | NotOwner

  datatype Step =
    | TakeStep(thread: nat, time: int)
    | ReleaseStep(thread: nat)
    | TimeoutStep(thread: nat)

  /** Who owns the mutex and how often, the priority to restore, the waiting threads and all priorities. */
  datatype State = State(owner: Option<nat>, hold: nat, original: int, waiters: seq<nat>, prio: seq<int>)
  {
    /** The mutex after the last release: the first waiter owns it, or nobody. */
    function Handed(): State {
      if waiters == [] then this.(owner := None, hold := 0, original := 0xff)
      else this.(owner := Some(waiters[0]), hold := 1, original := Rank(prio, waiters[0]), waiters := waiters[1..])
    }

    /** The owner has its priority back. */
    function Restored(): State {
      if owner.Some? && owner.value < |prio| then this.(prio := prio[owner.value := original]) else this
    }

    /** The owner is at least as urgent as thread `t`. */
    function Raised(t: nat): State {
      if owner.Some? && owner.value < |prio|
      then this.(prio := prio[owner.value := Lower(prio[owner.value], Rank(prio, t))]) else this
    }
  }

  /** What each region does. */
  ghost predicate Next(d: Discipline, step: Step, s: State, u: State) {
    match step
    case TakeStep(t, time) =>
      u == if t >= |s.prio| || t in s.waiters then s
           else if s.owner == Some(t) then (if s.hold < HOLD_MAX then s.(hold := s.hold + 1) else s)
           else if s.owner.None? then s.(owner := Some(t), hold := 1, original := s.prio[t])
           else if time == 0 then s
           else s.Raised(t).(waiters := Enqueued(s.waiters, t, s.prio, d))
    case ReleaseStep(t) =>
      u == if t >= |s.prio| || s.owner != Some(t) then s
           else if s.hold > 1 then s.(hold := s.hold - 1) else s.Restored().Handed()
    case TimeoutStep(t) => u == if t in s.waiters then s.(waiters := Dropped(s.waiters, t)) else s
  }

  class Mutex {
    const flag: Discipline
    const prio: array<int>
    var value: nat
    var hold: nat
    var owner: Option<nat>
    var originalPriority: int
    var waiters: seq<nat>
    ghost var base: seq<int>

    ghost predicate Shape()
      reads this`owner, this`waiters, this`base, prio
    {
      && |base| == prio.Length && Distinct(waiters) && (forall t :: t in waiters ==> t < prio.Length)
      && (owner.Some? ==> owner.value < prio.Length && owner.value !in waiters)
    }

    /** Free, unheld and worth one are the same; only an owned mutex is waited for. */
    ghost predicate Counts()
      reads this
    {
      && (owner.None? <==> hold == 0) && value == (if owner.None? then 1 else 0) && hold <= HOLD_MAX
      && (owner.None? ==> waiters == [])
    }

    /** Everyone has the priority of his own but the owner, who may be more urgent. */
    ghost predicate Priorities()
      requires Shape()
      reads this`owner, this`waiters, this`base, this`originalPriority, prio
    {
      && (forall t :: 0 <= t < prio.Length && owner != Some(t) ==> prio[t] == base[t])
      && (owner.Some? ==> originalPriority == base[owner.value] && prio[owner.value] <= base[owner.value])
    }

    /** The owner is no less urgent than any thread that waits for him. */
    ghost predicate Protected()
      reads this`owner, this`waiters, prio
    {
      owner.Some? ==> forall w :: w in waiters ==> Rank(prio[..], owner.value) <= Rank(prio[..], w)
    }

    ghost predicate Valid()
      reads this, prio
    {
      && Shape() && Counts() && Priorities()
      && (flag == Prio ==> Urgent(waiters, prio[..]) && Protected())
    }

    /** `rt_mutex_init`. */
    constructor (flag: Discipline, priorities: seq<int>)
      ensures Valid() && Protected() && owner.None? && this.flag == flag && base == priorities && prio[..] == priorities
      ensures fresh(prio)
    {
      this.flag := flag;
      prio := new int[|priorities|](i requires 0 <= i < |priorities| => priorities[i]);
      value, hold, owner, originalPriority, waiters := 1, 0, None, 0xff, [];
      base := priorities;
    }

    /** The owner inherits the priority of a thread about to wait, if that is more urgent. */
    method Inherit(t: nat)
      requires Valid() && owner.Some? && t < prio.Length && owner != Some(t) && t !in waiters
      modifies prio
      ensures Valid() && prio[..] == old(prio[..])[owner.value := Lower(old(prio[owner.value]), old(prio[t]))]
      ensures old(Protected()) ==> Protected()
    {
      ghost var was := prio[..];
      if prio[t] < prio[owner.value] {
        prio[owner.value] := prio[t];
      }
      assert prio[..] == was[owner.value := Lower(was[owner.value], was[t])];
      SameUrgency(waiters, was, prio[..]);
    }

    /** `rt_mutex_take`. */
    method Take(t: nat, time: int) returns (out: Outcome)
      requires Valid() && t < prio.Length && t !in waiters
      modifies this`value, this`hold, this`owner, this`originalPriority, this`waiters, prio
      ensures Valid()
      ensures out == if old(owner) == Some(t) then (if old(hold) < HOLD_MAX then Taken else Full)
                     else if old(owner).None? then Taken else if time == 0 then TimedOut else Blocked
      ensures owner == if out == Taken then Some(t) else old(owner)
      ensures hold == if out == Taken then old(hold) + 1 else old(hold)
      ensures waiters == if out == Blocked then Enqueued(old(waiters), t, old(prio[..]), flag) else old(waiters)
      ensures originalPriority == if out == Taken && old(owner).None? then old(prio[t]) else old(originalPriority)
      ensures out != Blocked ==> prio[..] == old(prio[..])
      ensures out == Blocked ==> prio[..] == old(prio[..])[owner.value := Lower(old(prio[owner.value]), old(prio[t]))]
      ensures old(Protected()) ==> Protected()
    {
      if owner == Some(t) {
        if hold < HOLD_MAX {
          hold := hold + 1;
          return Taken;
        } else {
          return Full;
        }
      }
      if value > 0 {
        value := value - 1;
        owner := Some(t);
        originalPriority := prio[t];
        if hold < HOLD_MAX {
          hold := hold + 1;
        } else {
          assert false;
        }
        return Taken;
      }
      if time == 0 {
        return TimedOut;
      }
      Inherit(t);
      EnqueuedHas(waiters, t, prio[..], flag);
      if flag == Prio {
        PrioOrder(waiters, t, prio[..]);
      }
      EnqueuedSame(waiters, t, old(prio[..]), prio[..], flag);
      waiters := Enqueued(waiters, t, prio[..], flag);
      return Blocked;
    }

    /** The owner goes back to the priority it had when it acquired the mutex. */
    method Restore()
      requires Shape() && owner.Some? && hold == 0 && Priorities()
      modifies prio
      ensures prio[..] == base
    {
      if originalPriority != prio[owner.value] {
        prio[owner.value] := originalPriority;
      }
    }

    /** The first waiter becomes the owner, at the priority it has, and is resumed. */
    method HandOver()
      requires Shape() && owner.Some? && hold == 0 && value == 0 && waiters != [] && prio[..] == base
      requires flag == Prio ==> Urgent(waiters, prio[..])
      modifies this`hold, this`owner, this`originalPriority, this`waiters
      ensures Valid() && hold == 1 && owner == Some(old(waiters)[0]) && waiters == old(waiters)[1..]
      ensures Protected() <==> HeadLeads(old(waiters))
    {
      ghost var list := waiters;
      var t := waiters[0];
      assert t in waiters;
      DistinctTail(list);
      TailUrgent(list, prio[..]);
      owner := Some(t);
      originalPriority := prio[t];
      if hold < HOLD_MAX {
        hold := hold + 1;
      } else {
        assert false;
      }
      waiters := waiters[1..];
    }

    /** `rt_mutex_release`. */
    method Release(t: nat) returns (out: Outcome)
      requires Valid() && t < prio.Length
      modifies this`value, this`hold, this`owner, this`originalPriority, this`waiters, prio
      ensures Valid()
      ensures out == if old(owner) == Some(t) then Released else NotOwner
      ensures out == NotOwner || old(hold) > 1 ==>
                owner == old(owner) && waiters == old(waiters) && prio[..] == old(prio[..]) &&
                originalPriority == old(originalPriority)
      ensures hold == if out == Released && (old(hold) > 1 || old(waiters) == []) then old(hold) - 1 else old(hold)
      ensures out == Released && old(hold) == 1 ==> prio[..] == base
      ensures out == Released && old(hold) == 1 && old(waiters) == [] ==>
                owner.None? && waiters == [] && originalPriority == 0xff
      ensures out == Released && old(hold) == 1 && old(waiters) != [] ==>
                owner == Some(old(waiters)[0]) && waiters == old(waiters)[1..] &&
                originalPriority == Rank(base, old(waiters)[0]) && (Protected() <==> HeadLeads(old(waiters)))
    {
      if owner != Some(t) {
        return NotOwner;
      }
      hold := hold - 1;
      if hold == 0 {
        Restore();
        SameUrgency(waiters, old(prio[..]), prio[..]);
        if waiters != [] {
          HandOver();
        } else {
          if value < VALUE_MAX {
            value := value + 1;
          } else {
            assert false;
          }
          owner := None;
          originalPriority := 0xff;
        }
      }
      return Released;
    }

    /** `rt_thread_timeout` for a waiting thread; what the owner inherited from it stays. */
    method Timeout(t: nat)
      requires Valid() && t in waiters
      modifies this`waiters
      ensures Valid() && waiters == Dropped(old(waiters), t)
      ensures old(Protected()) ==> Protected()
    {
      DroppedHas(waiters, t);
      ghost var k :| 0 <= k < |waiters| && waiters[k] == t && Dropped(waiters, t) == Without(waiters, k);
      if flag == Prio { WithoutUrgent(waiters, k, prio[..]); }
      waiters := Dropped(waiters, t);
    }

    /** `rt_thread_control` from outside, as by the release of another mutex: for each place of the thread exactly when
        the owner stays protected, and that only a change of the owner's own priority is lost at the release. */
    method ChangeFromOutside(t: nat, p: int)
      requires Shape() && Priorities() && t < prio.Length
      modifies prio, this`base
      ensures Shape() && prio[..] == old(prio[..])[t := p] && base == old(base)[t := p]
      ensures t in waiters && old(Protected()) ==> (Protected() <==> owner.Some? ==> prio[owner.value] <= p)
      ensures owner == Some(t) ==> (Protected() <==> forall w :: w in waiters ==> p <= Rank(prio[..], w))
      ensures t !in waiters && owner != Some(t) ==> (Protected() <==> old(Protected()))
      ensures Priorities() <==> owner != Some(t) || originalPriority == p
    {
      prio[t] := p;
      base := base[t := p];
      if t in waiters && owner.Some? {
        assert Rank(prio[..], t) == p && Rank(prio[..], owner.value) == prio[owner.value];
        assert forall w :: w in waiters && w != t ==> Rank(prio[..], w) == Rank(old(prio[..]), w);
      }
    }

    ghost function Now(): State
      reads this`owner, this`hold, this`originalPriority, this`waiters, prio
    {
      State(owner, hold, originalPriority, waiters, prio[..])
    }

    method Do(step: Step)
      requires Valid()
      modifies this`value, this`hold, this`owner, this`originalPriority, this`waiters, prio
      ensures Valid() && Next(flag, step, old(Now()), Now())
    {
      match step
      case TakeStep(t, time) =>
        if t < prio.Length && t !in waiters { var out := Take(t, time); }
      case ReleaseStep(t) =>
        if t < prio.Length { var out := Release(t); }
      case TimeoutStep(t) =>
        if t in waiters { Timeout(t); }
    }

    /** Any run of takes, releases and timeouts, with its states. */
    method Run(steps: seq<Step>) returns (ghost trace: seq<State>)
      requires Valid()
      modifies this`value, this`hold, this`owner, this`originalPriority, this`waiters, prio
      ensures Valid() && (flag == Prio ==> Protected())
      ensures owner.None? ==> prio[..] == base && waiters == []
      ensures |trace| == |steps| + 1 && trace[0] == old(Now()) && trace[|steps|] == Now()
      ensures forall i :: 0 <= i < |steps| ==> Next(flag, steps[i], trace[i], trace[i + 1])
    {
      trace := [Now()];
      for i := 0 to |steps|
        invariant Valid() && |trace| == i + 1 && trace[0] == old(Now()) && trace[i] == Now()
        invariant forall j :: 0 <= j < i ==> Next(flag, steps[j], trace[j], trace[j + 1])
      {
        Do(steps[i]);
        trace := trace + [Now()];
      }
    }

    /** No waiter is more urgent than the first. */
    ghost predicate HeadLeads(list: seq<nat>)
      reads this`base
    {
      list != [] ==> forall w :: w in list[1..] ==> Rank(base, list[0]) <= Rank(base, w)
    }
  }

  lemma TailUrgent(list: seq<nat>, p: seq<int>)
    requires list != []
    ensures Urgent(list, p) ==> Urgent(list[1..], p) && forall w :: w in list[1..] ==> Rank(p, list[0]) <= Rank(p, w)
  {
    if Urgent(list, p) {
      var tail := list[1..];
      forall i, j ensures NotAfter(tail, p, i, j) {
        if i >= 0 { assert NotAfter(list, p, i + 1, j + 1); }
      }
      forall i | 0 <= i < |tail| ensures Rank(p, list[0]) <= Rank(p, tail[i]) {
        assert NotAfter(list, p, 0, i + 1);
      }
    }
  }

  lemma WithoutUrgent(list: seq<nat>, k: nat, p: seq<int>)
    requires k < |list| && Urgent(list, p)
    ensures Urgent(Without(list, k), p)
  {
    var r := Without(list, k);
    forall i, j ensures NotAfter(r, p, i, j) {
      assert NotAfter(list, p, if i < k then i else i + 1, if j < k then j else j + 1);
    }
  }

  function Lower(a: int, b: int): int { if b < a then b else a }

  lemma SameUrgency(list: seq<nat>, p: seq<int>, q: seq<int>)
    requires forall t :: t in list ==> Rank(p, t) == Rank(q, t)
    ensures Urgent(list, p) <==> Urgent(list, q)
  {
    if Urgent(list, p) {
      forall i, j ensures NotAfter(list, q, i, j) {
        assert NotAfter(list, p, i, j);
        if 0 <= i < j < |list| { assert list[i] in list && list[j] in list; }
      }
    }
    if Urgent(list, q) {
      forall i, j ensures NotAfter(list, p, i, j) {
        assert NotAfter(list, q, i, j);
        if 0 <= i < j < |list| { assert list[i] in list && list[j] in list; }
      }
    }
  }

  /** The place in the list does not depend on the priorities of threads outside it. */
  lemma EnqueuedSame(list: seq<nat>, t: nat, p: seq<int>, q: seq<int>, d: Discipline)
    requires (forall u :: u in list ==> Rank(p, u) == Rank(q, u)) && Rank(p, t) == Rank(q, t)
    ensures Enqueued(list, t, p, d) == Enqueued(list, t, q, d)
  {
    SpotSame(list, p, q, Rank(p, t));
  }

  lemma {:induction false} SpotSame(list: seq<nat>, p: seq<int>, q: seq<int>, r: int)
    requires forall u :: u in list ==> Rank(p, u) == Rank(q, u)
    ensures Spot(list, p, r) == Spot(list, q, r)
  {
    if list != [] {
      assert list[0] in list;
      SpotSame(list[1..], p, q, r);
    }
  }

  /** In first-come order a hand-over leaves a more urgent waiter behind a less urgent owner, who does not inherit from
      it. */
  method FifoInversion() returns (m: Mutex)
    ensures m.Valid() && m.flag == Fifo && m.owner == Some(1) && m.waiters == [2] && m.prio.Length == 3
    ensures m.prio[1] == 20 && m.prio[2] == 5 && !m.Protected()
  {
    m := new Mutex(Fifo, [10, 20, 5]);
    var out := m.Take(0, 0);
    out := m.Take(1, -1);
    out := m.Take(2, -1);
    assert m.waiters == [1, 2];
    out := m.Release(0);
    assert m.prio[1] == m.prio[..][1] && m.prio[2] == m.prio[..][2] && 2 in m.waiters;
  }
}

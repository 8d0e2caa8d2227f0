/** The counting semaphore of rt-thread/src/ipc.c.

    A release hands a unit straight to the first waiting thread, if there is one; that
    thread's take has then succeeded, although it may run only later. */
module Semaphore {
  import opened Rings
  import opened WaitList

  const VALUE_MAX: nat := 0xffff

  datatype Outcome = Taken | TimedOut | Blocked | Released | Full

  /** One atomic region; `prio` gives the priorities of all threads at that moment. */
  datatype Step =
    | TakeStep(thread: nat, time: int, prio: seq<int>)
    | ReleaseStep
    | TimeoutStep(thread: nat)

  /** The value and the waiting threads, in their order. */
  datatype State = State(value: nat, waiters: seq<nat>)

  /** What each region does: a take needs a unit, or waits unless its time is 0; a release serves the first waiter, or
      adds a unit below the maximum; a timeout ends one wait. */
  ghost predicate Next(d: Discipline, step: Step, s: State, u: State) {
    match step
    case TakeStep(t, time, prio) =>
      u == if t in s.waiters then s
           else if s.value > 0 then s.(value := s.value - 1)
           else if time == 0 then s else s.(waiters := Enqueued(s.waiters, t, prio, d))
    case ReleaseStep =>
      u == if s.waiters != [] then s.(waiters := s.waiters[1..])
           else if s.value < VALUE_MAX then s.(value := s.value + 1) else s
    case TimeoutStep(t) => u == if t in s.waiters then s.(waiters := Dropped(s.waiters, t)) else s
  }

  class Semaphore {
    const flag: Discipline
    var value: nat
    var waiters: seq<nat>
    ghost var initial: nat
    ghost var releases: nat
    ghost var takes: nat

    /** No unit is lost or made up, and nobody waits while there is one to take. */
    ghost predicate Valid()
      reads this
    {
      && value <= VALUE_MAX && Distinct(waiters)
      && initial + releases == value + takes
      && (value > 0 ==> waiters == [])
    }

    /** `rt_sem_init`. */
    constructor (value: nat, flag: Discipline)
      requires value < 0x1_0000
      ensures Valid() && this.value == initial == value && this.flag == flag && waiters == [] && releases == takes == 0
    {
      this.value, initial := value, value;
      this.flag := flag;
      waiters, releases, takes := [], 0, 0;
    }

    /** The first region of `rt_sem_take`; `rt_sem_trytake` is the call with time 0. */
    method Take(t: nat, time: int, prio: seq<int>) returns (out: Outcome)
      requires Valid() && t !in waiters
      modifies this`value, this`waiters, this`takes
      ensures Valid()
      ensures out == if old(value) > 0 then Taken else if time == 0 then TimedOut else Blocked
      ensures value == if out == Taken then old(value) - 1 else old(value)
      ensures takes == if out == Taken then old(takes) + 1 else old(takes)
      ensures waiters == if out == Blocked then Enqueued(old(waiters), t, prio, flag) else old(waiters)
    {
      if value > 0 {
        value := value - 1;
        takes := takes + 1;
        return Taken;
      }
      if time == 0 {
        return TimedOut;
      }
      EnqueuedHas(waiters, t, prio, flag);
      waiters := Enqueued(waiters, t, prio, flag);
      return Blocked;
    }

    /** `rt_sem_release`. */
    method Release() returns (out: Outcome)
      requires Valid()
      modifies this`value, this`waiters, this`releases, this`takes
      ensures Valid()
      ensures out == if old(waiters) == [] && old(value) == VALUE_MAX then Full else Released
      ensures waiters == if old(waiters) == [] then [] else old(waiters)[1..]
      ensures value == if old(waiters) == [] && out == Released then old(value) + 1 else old(value)
      ensures takes == if old(waiters) == [] then old(takes) else old(takes) + 1
      ensures releases == if out == Released then old(releases) + 1 else old(releases)
    {
      if waiters != [] {
        DistinctTail(waiters);
        waiters := waiters[1..];
        takes := takes + 1;
      } else if value < VALUE_MAX {
        value := value + 1;
      } else {
        return Full;
      }
      releases := releases + 1;
      return Released;
    }

    /** `rt_thread_timeout` for a waiting thread. */
    method Timeout(t: nat)
      requires Valid() && t in waiters
      modifies this`waiters
      ensures Valid() && waiters == Dropped(old(waiters), t)
    {
      DroppedHas(waiters, t);
      waiters := Dropped(waiters, t);
    }

    /** `rt_sem_control` with the reset command: everybody's wait fails, and the counting starts afresh. */
    method Reset(v: nat)
      requires Valid()
      modifies this
      ensures Valid() && value == initial == v % 0x1_0000 && waiters == [] && releases == takes == 0
    {
      while waiters != []
        invariant Valid()
        decreases |waiters|
      {
        DistinctTail(waiters);
        waiters := waiters[1..];
      }
      value := v % 0x1_0000;
      initial, releases, takes := value, 0, 0;
    }

    ghost function Now(): State
      reads this`value, this`waiters
    {
      State(value, waiters)
    }

    method Do(step: Step)
      requires Valid()
      modifies this`value, this`waiters, this`releases, this`takes
      ensures Valid() && releases >= old(releases) && takes >= old(takes) && Next(flag, step, old(Now()), Now())
    {
      match step
      case TakeStep(t, time, prio) =>
        if t !in waiters { var out := Take(t, time, prio); }
      case ReleaseStep => var out := Release();
      case TimeoutStep(t) =>
        if t in waiters { Timeout(t); }
    }

    /** Any run of takes, releases and timeouts, with its states: what came in is there or was taken. */
    method Run(steps: seq<Step>) returns (ghost trace: seq<State>)
      requires Valid()
      modifies this`value, this`waiters, this`releases, this`takes
      ensures Valid() && |trace| == |steps| + 1 && trace[0] == old(Now()) && trace[|steps|] == Now()
      ensures forall i :: 0 <= i < |steps| ==> Next(flag, steps[i], trace[i], trace[i + 1])
      ensures (releases - old(releases)) - (takes - old(takes)) == value - old(value)
      ensures waiters != [] ==> takes == initial + releases
    {
      trace := [Now()];
      for i := 0 to |steps|
        invariant Valid() && |trace| == i + 1 && trace[0] == old(Now()) && trace[i] == Now()
        invariant forall j :: 0 <= j < i ==> Next(flag, steps[j], trace[j], trace[j + 1])
      {
        Do(steps[i]);
        trace := trace + [Now()];
      }
    }
  }
}

/** The scheduler of rt-thread/src/scheduler.c for one processor, and the thread states of
    rt-thread/src/thread.c that it relies on.  Smaller numbers are more urgent. */
module Scheduler {
  import opened Common
  import opened ReadyMap
  import opened Rings
  import opened WaitList

  const TICKS: nat := 0x1_0000_0000

  datatype Stat = Init | Ready | Running | Suspended | Closed

  datatype Thread = Thread(stat: Stat, yielded: bool, prio: nat, initPrio: nat, remaining: nat, slice: nat)
  {
    predicate Able() { stat == Ready || stat == Running }

    /** The thread may be `other` after a scheduling. */
    predicate Becomes(other: Thread) {
      if Able() then other.Able() && this.(stat := other.stat, yielded := other.yielded) == other else other == this
    }
  }

  /** What the program may do; `schedule` says whether the caller asks for a scheduling afterwards, as the kernel's
      services do. */
  datatype Op =
    | StartupOp(thread: nat)
    | SuspendOp(thread: nat, schedule: bool)
    | ResumeOp(thread: nat, schedule: bool)
    | PriorityOp(thread: nat, prio: nat)
    | YieldOp
    | TickOp
    | ExitOp
    | CloseOp(thread: nat)
    | LockOp
    | UnlockOp

  /** No thread list. */
  const NOWHERE: int := -1

  /** The lists after thread `t` went to the end of list `p`. */
  ghost function Joined(qs: seq<seq<nat>>, p: nat, t: nat): seq<seq<nat>> {
    if p < |qs| then qs[p := qs[p] + [t]] else qs
  }

  /** The lists after thread `t` left list `p`. */
  ghost function Parted(qs: seq<seq<nat>>, p: nat, t: nat): seq<seq<nat>> {
    if p < |qs| then qs[p := Dropped(qs[p], t)] else qs
  }

  class Scheduler {
    const max: nat
    const bitmap: Bitmap
    const queues: array<seq<nat>>
    const threads: array<Thread>
    var current: Option<nat>
    var lockNest: nat
    ghost var place: seq<int>

    ghost predicate Sized() {
      && 0 < max == queues.Length && (max <= if bitmap.wide then 256 else 32)
      && queues as object != threads && bitmap.table as object != queues && bitmap.table as object != threads
    }

    /** The list of priority `p` holds the threads that are placed there, and the bitmap knows whether there are any. */
    ghost predicate QueueOk(p: nat)
      reads this`place, queues, bitmap
    {
      p < queues.Length ==>
        && Distinct(queues[p]) && (queues[p] != [] <==> p in bitmap.ready)
        && forall t :: t in queues[p] <==> 0 <= t < |place| && place[t] == p
    }

    ghost predicate Lists()
      reads this`place, queues, bitmap, bitmap.table
    {
      && Sized() && bitmap.Valid() && |place| == threads.Length
      && (forall p :: p in bitmap.ready ==> p < max)
      && forall p: nat {:trigger QueueOk(p)} :: QueueOk(p)
    }

    /** A thread is on the list of its own priority if it is ready, and on no list otherwise. */
    ghost predicate ThreadOk(t: nat)
      reads this`place, this`current, threads
    {
      t < threads.Length == |place| ==>
        && threads[t].prio < max && threads[t].initPrio < max
        && place[t] == (if threads[t].stat == Ready then threads[t].prio else NOWHERE)
        && (threads[t].stat == Running ==> current == Some(t))
        && (current == Some(t) ==> threads[t].stat != Ready)
    }

    ghost predicate Threads()
      reads this`place, this`current, threads
    {
      (current.Some? ==> current.value < threads.Length) && forall t: nat {:trigger ThreadOk(t)} :: ThreadOk(t)
    }

    ghost predicate Valid()
      reads this`place, this`current, queues, threads, bitmap, bitmap.table
    {
      Lists() && Threads()
    }

    /** The running thread is at least as urgent as every ready one. */
    ghost predicate MostUrgentRuns()
      reads this`current, threads
    {
      && current.Some? && current.value < threads.Length && threads[current.value].stat == Running
      && forall t :: 0 <= t < threads.Length && threads[t].stat == Ready ==>
           threads[current.value].prio <= threads[t].prio
    }

    /** The most urgent thread runs, unless no thread at all can run. */
    ghost predicate Fair()
      reads this`current, threads
    {
      MostUrgentRuns() || forall t :: 0 <= t < threads.Length ==> !threads[t].Able()
    }

    /** `rt_system_scheduler_init`, with all threads just initialized. */
    constructor (max: nat, priorities: seq<nat>, slices: seq<nat>)
      requires 0 < max <= 256 && |priorities| == |slices| && forall p :: p in priorities ==> p < max
      ensures Valid() && this.max == max && current.None? && lockNest == 0 && bitmap.ready == {}
      ensures bitmap.wide <==> max > 32
      ensures fresh(queues) && fresh(threads) && fresh(bitmap) && fresh(bitmap.table) && threads.Length == |priorities|
      ensures forall t :: 0 <= t < |priorities| ==>
                threads[t] == Thread(Init, false, priorities[t], priorities[t], slices[t], slices[t])
    {
      this.max := max;
      bitmap := new Bitmap(max > 32);
      queues := new seq<nat>[max](_ => []);
      threads := new Thread[|priorities|](i requires 0 <= i < |priorities| == |slices| =>
        Thread(Init, false, priorities[i], priorities[i], slices[i], slices[i]));
      current := None;
      lockNest := 0;
      place := seq(|priorities|, _ => NOWHERE);
      new;
      forall t: nat ensures ThreadOk(t) {
        assert t < |priorities| ==> priorities[t] in priorities;
      }
    }

    // ----- the ready lists -----

    /** The list part of `rt_schedule_insert_thread`. */
    method Enqueue(t: nat, p: nat)
      requires Lists() && t < threads.Length && p < max && place[t] == NOWHERE
      modifies this`place, queues, bitmap, bitmap.table
      ensures Lists() && place == old(place)[t := p] && queues[..] == Joined(old(queues[..]), p, t)
    {
      assert QueueOk(p);
      EnqueuedHas(queues[p], t, [], Fifo);
      assert Enqueued(queues[p], t, [], Fifo) == queues[p] + [t];
      queues[p] := queues[p] + [t];
      bitmap.Mark(p);
      place := place[t := p];
      forall q: nat ensures QueueOk(q) {
        assert old(QueueOk(q));
      }
    }

    /** `rt_schedule_remove_thread`. */
    method Dequeue(t: nat, p: nat)
      requires Lists() && t < threads.Length && p < max && (place[t] == NOWHERE || place[t] == p)
      modifies this`place, queues, bitmap, bitmap.table
      ensures Lists() && place == old(place)[t := NOWHERE]
      ensures queues[..] == if old(place[t]) == p then Parted(old(queues[..]), p, t) else old(queues[..])
    {
      assert QueueOk(p);
      if t in queues[p] {
        DroppedHas(queues[p], t);
        queues[p] := Dropped(queues[p], t);
      }
      if queues[p] == [] {
        bitmap.Unmark(p);
      }
      place := place[t := NOWHERE];
      forall q: nat ensures QueueOk(q) {
        assert old(QueueOk(q));
      }
    }

    // ----- threads -----

    /** `rt_schedule_insert_thread`: the current thread goes on running, any other one becomes ready. */
    method Insert(t: nat)
      requires Valid() && t < threads.Length && threads[t].stat != Ready && threads[t].stat != Running
      modifies this`place, queues, threads, bitmap, bitmap.table
      ensures Valid()
      ensures threads[..] ==
                old(threads[..])[t := old(threads[t]).(stat := if current == Some(t) then Running else Ready)]
      ensures queues[..] == if current == Some(t) then old(queues[..])
                            else Joined(old(queues[..]), old(threads[t]).prio, t)
    {
      assert ThreadOk(t);
      if current == Some(t) {
        threads[t] := threads[t].(stat := Running);
      } else {
        threads[t] := threads[t].(stat := Ready);
        Enqueue(t, threads[t].prio);
      }
      forall u: nat ensures ThreadOk(u) {
        assert old(ThreadOk(u));
      }
      forall q: nat ensures QueueOk(q) {
        assert QueueOk(q) || old(QueueOk(q));
      }
    }

    /** `rt_thread_suspend`; a running thread may only suspend itself. */
    method Suspend(t: nat) returns (ok: bool)
      requires Valid() && t < threads.Length
      modifies this`place, queues, threads, bitmap, bitmap.table
      ensures Valid() && (ok <==> old(threads[t]).stat == Ready || old(threads[t]).stat == Running)
      ensures threads[..] == if ok then old(threads[..])[t := old(threads[t]).(stat := Suspended)] else old(threads[..])
      ensures !ok || old(threads[t]).stat == Running ==> queues[..] == old(queues[..])
      ensures old(threads[t]).stat == Ready ==> queues[..] == Parted(old(queues[..]), old(threads[t]).prio, t)
    {
      assert ThreadOk(t);
      if threads[t].stat != Ready && threads[t].stat != Running {
        return false;
      }
      Dequeue(t, threads[t].prio);
      threads[t] := threads[t].(stat := Suspended);
      forall u: nat ensures ThreadOk(u) {
        assert old(ThreadOk(u));
      }
      forall q: nat ensures QueueOk(q) {
        assert QueueOk(q);
      }
      return true;
    }

    /** `rt_thread_resume`. */
    method Resume(t: nat) returns (ok: bool)
      requires Valid() && t < threads.Length
      modifies this`place, queues, threads, bitmap, bitmap.table
      ensures Valid() && (ok <==> old(threads[t]).stat == Suspended)
      ensures !ok ==> threads[..] == old(threads[..]) && queues[..] == old(queues[..])
      ensures ok ==>
                threads[..] ==
                  old(threads[..])[t := old(threads[t]).(stat := if current == Some(t) then Running else Ready)]
      ensures ok ==>
                queues[..] == if current == Some(t) then old(queues[..])
                else Joined(old(queues[..]), old(threads[t]).prio, t)
    {
      if threads[t].stat != Suspended {
        return false;
      }
      Insert(t);
      return true;
    }

    /** `rt_thread_control` with a new priority. */
    method ChangePriority(t: nat, p: nat)
      requires Valid() && t < threads.Length && p < max
      modifies this`place, queues, threads, bitmap, bitmap.table
      ensures Valid() && threads[..] == old(threads[..])[t := old(threads[t]).(prio := p)]
      ensures old(threads[t]).stat != Ready ==> queues[..] == old(queues[..])
      ensures old(threads[t]).stat == Ready ==>
                queues[..] == Joined(Parted(old(queues[..]), old(threads[t]).prio, t), p, t)
    {
      assert ThreadOk(t);
      if threads[t].stat == Ready {
        Dequeue(t, threads[t].prio);
        threads[t] := threads[t].(prio := p);
        Enqueue(t, p);
      } else {
        threads[t] := threads[t].(prio := p);
      }
      forall u: nat ensures ThreadOk(u) {
        assert old(ThreadOk(u));
      }
      forall q: nat ensures QueueOk(q) {
        assert QueueOk(q) || old(QueueOk(q));
      }
    }

    // ----- the choice -----

    /** `p` is the most urgent priority that has a ready thread. */
    ghost predicate Foremost(p: nat)
      reads queues
    {
      p < queues.Length && queues[p] != [] && forall q :: 0 <= q < p ==> queues[q] == []
    }

    ghost predicate NobodyReady()
      reads queues
    {
      forall q :: 0 <= q < queues.Length ==> queues[q] == []
    }

    /** The current thread keeps the processor although threads of priority `p` are ready. */
    ghost predicate Stays(p: nat)
      requires current.Some? && current.value < threads.Length
      reads this`current, threads
    {
      var c := threads[current.value];
      c.stat == Running && (c.prio < p || (c.prio == p && !c.yielded))
    }

    /** `_get_highest_priority_thread`. */
    method Highest() returns (p: nat)
      requires Lists() && bitmap.ready != {}
      ensures Foremost(p)
    {
      p := bitmap.First();
      forall q: nat | q <= p && q < queues.Length ensures queues[q] != [] <==> q == p {
        assert QueueOk(q);
      }
    }

    /** A thread on the list of priority `p` is ready and has that priority. */
    lemma Listed(t: nat, p: nat)
      requires Valid() && p < queues.Length && t in queues[p]
      ensures t < threads.Length && threads[t].stat == Ready && threads[t].prio == p && place[t] == p
    {
      assert QueueOk(p) && ThreadOk(t);
    }

    /** No ready thread is more urgent than the foremost list. */
    lemma ForemostLeads(t: nat, p: nat)
      requires Valid() && Foremost(p) && t < threads.Length && threads[t].stat == Ready
      ensures p <= threads[t].prio
    {
      assert ThreadOk(t) && QueueOk(threads[t].prio);
      assert t in queues[threads[t].prio];
    }

    /** The switch of `rt_schedule`: the old thread, if it was running, joins its list, the new one leaves its own. */
    method SwitchTo(to: nat, p: nat)
      requires Valid() && current.Some? && Foremost(p) && to == queues[p][0]
      requires threads[current.value].stat == Running ==> threads[current.value].prio >= p
      modifies this`place, this`current, queues, threads, bitmap, bitmap.table
      ensures Valid() && current == Some(to) && MostUrgentRuns() && to < threads.Length
      ensures queues[..] == Handed(old(queues[..]), old(threads[..]), old(current), p)
      ensures threads[..] == Switched(old(threads[..]), old(current), to)
    {
      var from := current.value;
      ghost var ts := threads[..];
      assert to in queues[p];
      Listed(to, p);
      assert ThreadOk(from) && ThreadOk(to);
      forall t: nat | t < threads.Length && threads[t].stat == Ready
        ensures p <= threads[t].prio
      {
        ForemostLeads(t, p);
      }
      current := Some(to);
      if threads[from].stat == Running {
        Enqueue(from, threads[from].prio);
        threads[from] := threads[from].(stat := Ready);
      }
      Dequeue(to, threads[to].prio);
      threads[to] := threads[to].(stat := Running);
      forall u: nat ensures ThreadOk(u) {
        assert old(ThreadOk(u));
      }
      forall q: nat ensures QueueOk(q) {
        assert QueueOk(q);
      }
    }

    /** The current thread stays exactly if no ready thread is more urgent, or as urgent when it has yielded. */
    lemma StaysIff(p: nat)
      requires Valid() && current.Some? && Foremost(p)
      ensures Stays(p) <==>
        && threads[current.value].stat == Running
        && forall t :: 0 <= t < threads.Length && threads[t].stat == Ready ==>
             if threads[current.value].yielded then threads[current.value].prio < threads[t].prio
             else threads[current.value].prio <= threads[t].prio
    {
      var first := queues[p][0];
      assert first in queues[p];
      Listed(first, p);
      forall t: nat | t < threads.Length && threads[t].stat == Ready ensures p <= threads[t].prio {
        ForemostLeads(t, p);
      }
    }

    /** A scheduling only moves threads between ready and running. */
    ghost predicate Rearranged(ts: seq<Thread>)
      reads threads
    {
      Rearranges(ts, threads[..])
    }

    /** `rt_schedule` when threads of priority `p` are the most urgent ready ones. */
    method Decide(p: nat)
      requires Valid() && current.Some? && Foremost(p)
      modifies this`place, this`current, queues, threads, bitmap, bitmap.table
      ensures Valid() && current.Some? && Rearranged(old(threads[..])) && MostUrgentRuns()
      ensures if old(Stays(p))
                then current == old(current) && queues[..] == old(queues[..]) &&
                     threads[..] == old(Calmed(threads[..], current))
              else Relieved(old(queues[..]), old(Calmed(threads[..], current)), old(current), p)
    {
      var to := queues[p][0];
      var c := current.value;
      assert ThreadOk(c) && to in queues[p];
      Listed(to, p);
      var stays := false;
      if threads[c].stat == Running {
        stays := threads[c].prio < p || (threads[c].prio == p && !threads[c].yielded);
        Calm(c);
      }
      if !stays {
        SwitchTo(to, p);
        SwitchedBecome(old(threads[..]), c, to);
      } else {
        forall t: nat | t < threads.Length && threads[t].stat == Ready
          ensures p <= threads[t].prio
        {
          ForemostLeads(t, p);
        }
        Keep(c);
      }
    }

    /** `rt_schedule`. */
    method Schedule()
      requires Valid() && current.Some?
      modifies this`place, this`current, queues, threads, bitmap, bitmap.table
      ensures Valid() && current.Some? && Rearranged(old(threads[..]))
      ensures lockNest > 0 || old(NobodyReady()) ==>
                current == old(current) && queues[..] == old(queues[..]) && threads[..] == old(threads[..])
      ensures lockNest == 0 && !old(NobodyReady()) ==> MostUrgentRuns()
      ensures lockNest == 0 ==> Fair()
      ensures lockNest == 0 ==> forall p: nat :: old(Foremost(p)) ==>
                if old(Stays(p))
                  then current == old(current) && queues[..] == old(queues[..]) &&
                       threads[..] == old(Calmed(threads[..], current))
                else Relieved(old(queues[..]), old(Calmed(threads[..], current)), old(current), p)
    {
      if lockNest == 0 {
        var any := bitmap.Any();
        AnyReady(any);
        if any {
          var p := Highest();
          OneForemost(p);
          Decide(p);
        } else {
          NoneReady();
        }
      }
    }

    lemma NoneReady()
      requires Valid() && NobodyReady() && current.Some?
      ensures Fair()
    {
      assert ThreadOk(current.value);
      forall t: nat | t < threads.Length
        ensures threads[t].stat != Ready && (threads[t].stat == Running ==> current == Some(t))
      {
        assert ThreadOk(t) && QueueOk(threads[t].prio);
      }
    }

    lemma AnyReady(any: bool)
      requires Valid() && (any <==> bitmap.ready != {})
      ensures any <==> !NobodyReady()
    {
      forall q: nat | !any && q < queues.Length ensures queues[q] == [] {
        assert QueueOk(q);
      }
      if any {
        var p :| p in bitmap.ready;
        assert QueueOk(p) && queues[p] != [];
      }
    }

    lemma OneForemost(p: nat)
      requires Foremost(p)
      ensures forall q: nat :: Foremost(q) <==> q == p
    {
    }

    /** The current thread goes on: it is taken off a list it is not on, and marked running again. */
    method Keep(c: nat)
      requires Valid() && current == Some(c) && c < threads.Length && threads[c].stat == Running
      modifies this`place, queues, threads, bitmap, bitmap.table
      ensures Valid() && queues[..] == old(queues[..]) && threads[..] == old(threads[..])
    {
      assert ThreadOk(c);
      Dequeue(c, threads[c].prio);
      threads[c] := threads[c].(stat := Running);
      forall u: nat ensures ThreadOk(u) {
        assert old(ThreadOk(u));
      }
      forall q: nat ensures QueueOk(q) {
        assert QueueOk(q);
      }
    }

    /** The yield mark of the running thread is cleared. */
    method Calm(c: nat)
      requires Valid() && current == Some(c) && c < threads.Length && threads[c].stat == Running
      modifies threads
      ensures Valid() && threads[..] == Calmed(old(threads[..]), current)
    {
      threads[c] := threads[c].(yielded := false);
      forall u: nat ensures ThreadOk(u) {
        assert old(ThreadOk(u));
      }
      forall q: nat ensures QueueOk(q) {
        assert old(QueueOk(q));
      }
    }

    /** Thread `c` was relieved by the first thread of list `p`. */
    ghost predicate Relieved(qs: seq<seq<nat>>, ts: seq<Thread>, c: Option<nat>, p: nat)
      requires p < |qs| && qs[p] != []
      reads this`current, queues, threads
    {
      current == Some(qs[p][0]) && queues[..] == Handed(qs, ts, c, p) && threads[..] == Switched(ts, c, qs[p][0])
    }

    // ----- what threads do -----

    /** `rt_system_scheduler_start`. */
    method Start()
      requires Valid() && current.None? && !NobodyReady()
      modifies this`place, this`current, queues, threads, bitmap, bitmap.table
      ensures Valid() && MostUrgentRuns()
      ensures forall p: nat :: old(Foremost(p)) ==> Relieved(old(queues[..]), old(threads[..]), None, p)
    {
      AnyReady(bitmap.ready != {});
      var p := Highest();
      var to := queues[p][0];
      assert to in queues[p];
      Listed(to, p);
      forall t: nat | t < threads.Length && threads[t].stat == Ready
        ensures p <= threads[t].prio
      {
        ForemostLeads(t, p);
      }
      current := Some(to);
      Dequeue(to, p);
      threads[to] := threads[to].(stat := Running);
      forall u: nat ensures ThreadOk(u) {
        assert old(ThreadOk(u));
      }
      forall q: nat ensures QueueOk(q) {
        assert QueueOk(q);
      }
    }

    /** The part of `rt_thread_startup` before the scheduling. */
    method Launch(t: nat)
      requires Valid() && t < threads.Length && threads[t].stat == Init
      modifies this`place, queues, threads, bitmap, bitmap.table
      ensures Valid()
      ensures var thread := old(threads[t]).(prio := old(threads[t]).initPrio);
        && threads[..] == old(threads[..])[t := thread.(stat := if current == Some(t) then Running else Ready)]
        && queues[..] == if current == Some(t) then old(queues[..]) else Joined(old(queues[..]), thread.prio, t)
    {
      assert ThreadOk(t);
      threads[t] := threads[t].(prio := threads[t].initPrio, stat := Suspended);
      forall u: nat ensures ThreadOk(u) {
        assert old(ThreadOk(u));
      }
      forall q: nat ensures QueueOk(q) {
        assert old(QueueOk(q));
      }
      ghost var ts := old(threads[..])[t := threads[t]];
      assert threads[..] == ts;
      var ok := Resume(t);
    }

    /** `rt_thread_startup`. */
    method Startup(t: nat)
      requires Valid() && t < threads.Length && threads[t].stat == Init
      modifies this`place, this`current, queues, threads, bitmap, bitmap.table
      ensures Valid() && (current.Some? <==> old(current).Some?)
      ensures var thread := old(threads[t]).(prio := old(threads[t]).initPrio);
              var launched := thread.(stat := if old(current) == Some(t) then Running else Ready);
              if old(current).None? then threads[..] == old(threads[..])[t := launched]
              else Rearranged(old(threads[..])[t := launched])
      ensures old(current).Some? && lockNest == 0 && old(current) != Some(t) ==> MostUrgentRuns()
      ensures current.Some? && lockNest == 0 ==> Fair()
    {
      assert ThreadOk(t);
      Launch(t);
      if current.Some? {
        if current != Some(t) {
          assert ThreadOk(t);
          assert QueueOk(threads[t].prio);
          assert t in queues[threads[t].prio];
        }
        Schedule();
      }
    }

    /** Marks the current thread as one that gives way to its equals. */
    method MarkYield(remaining: nat)
      requires Valid() && current.Some?
      modifies threads
      ensures Valid() && current.value < threads.Length
      ensures var c := current.value;
              threads[..] == old(threads[..])[c := old(threads[c]).(remaining := remaining, yielded := true)]
    {
      var c := current.value;
      threads[c] := threads[c].(remaining := remaining, yielded := true);
      forall u: nat ensures ThreadOk(u) {
        assert old(ThreadOk(u));
      }
      forall q: nat ensures QueueOk(q) {
        assert old(QueueOk(q));
      }
    }

    /** `rt_thread_yield`, and what `rt_tick_increase` does when a slice is used up. */
    method Yield()
      requires Valid() && current.Some?
      modifies this`place, this`current, queues, threads, bitmap, bitmap.table
      ensures Valid() && current.Some?
      ensures lockNest == 0 && !old(NobodyReady()) ==> MostUrgentRuns()
      ensures lockNest == 0 ==> Fair()
      ensures var c := old(current).value;
              Rearranged(old(threads[..])[c := Spent(old(threads[c]))])
      ensures var c := old(current).value; lockNest > 0 || old(NobodyReady()) ==>
                Unmoved(old(queues[..]), old(threads[..]), c)
      ensures lockNest == 0 && old(MostUrgentRuns()) ==>
                var c := old(current).value; var p := old(threads[c]).prio;
                old(Foremost(p)) ==> GaveWay(old(queues[..]), old(threads[..]), c, p)
    {
      var c := current.value;
      ghost var p := threads[c].prio;
      if Foremost(p) {
        HeadToTail(queues[..], p, c);
        assert queues[p][0] in queues[p];
        Listed(queues[p][0], p);
      }
      ghost var front := Foremost(p) && MostUrgentRuns();
      MarkYield(threads[c].slice);
      assert front ==> Foremost(p) && !Stays(p);
      Schedule();
    }

    /** Nothing changed but that thread `c` is marked as having yielded. */
    ghost predicate Unmoved(qs: seq<seq<nat>>, ts: seq<Thread>, c: nat)
      reads this`current, queues, threads
    {
      && current == Some(c) && queues[..] == qs && c < |ts|
      && threads[..] == ts[c := Spent(ts[c])]
    }

    /** Thread `c` went to the end of list `p` with a full slice, and the first of the list runs. */
    ghost predicate GaveWay(qs: seq<seq<nat>>, ts: seq<Thread>, c: nat, p: nat)
      requires p < |qs| && qs[p] != []
      reads this`current, queues, threads
    {
      var to := qs[p][0];
      && current == Some(to) && queues[..] == qs[p := qs[p][1..] + [c]]
      && to < |ts| && c < |ts| && c != to && ts[to].prio == p
      && threads[..] == ts[c := ts[c].(stat := Ready, yielded := false, remaining := ts[c].slice)]
                          [to := ts[to].(stat := Running)]
    }

    /** One yield of a thread that has equals. */
    method PassOn(p: nat)
      requires Valid() && lockNest == 0 && MostUrgentRuns() && Foremost(p) && threads[current.value].prio == p
      modifies this`place, this`current, queues, threads, bitmap, bitmap.table
      ensures Valid() && MostUrgentRuns() && Foremost(p) && threads[current.value].prio == p
      ensures current == Some(old(queues[p])[0])
      ensures queues[..] == old(queues[..])[p := old(queues[p])[1..] + [old(current).value]]
    {
      Yield();
    }

    /** As many yields as there are threads of the foremost priority give each of them one turn and restore their
        order. */
    method YieldRound(p: nat) returns (ran: seq<nat>)
      requires Valid() && lockNest == 0 && MostUrgentRuns() && Foremost(p) && threads[current.value].prio == p
      modifies this`place, this`current, queues, threads, bitmap, bitmap.table
      ensures Valid() && MostUrgentRuns() && current == old(current) && queues[..] == old(queues[..])
      ensures ran == old(queues[p]) + [old(current).value]
    {
      ghost var qs := queues[..];
      ghost var ring := [current.value] + queues[p];
      var n := |queues[p]| + 1;
      ran := [];
      assert Round(ring, 0) == ring && ring[1..] == queues[p];
      assert queues[..] == qs[p := Round(ring, 0)[1..]];
      for i := 0 to n
        invariant Valid() && lockNest == 0 && MostUrgentRuns() && Foremost(p) && threads[current.value].prio == p
        invariant current == Some(Round(ring, i)[0]) && queues[..] == qs[p := Round(ring, i)[1..]]
        invariant ran == (ring + ring)[1..i + 1]
      {
        RoundAt(ring, i);
        PassOn(p);
        ran := ran + [current.value];
        assert queues[p] == Round(ring, i + 1)[1..];
        Traced(ring, i + 1);
      }
      TracedWhole(ring);
    }

    /** A yield to nobody is remembered: the next thread of the same priority to become ready takes over at once. */
    method StaleYield(t: nat)
      requires Valid() && lockNest == 0 && NobodyReady() && MostUrgentRuns()
      requires t < threads.Length && threads[t].stat == Suspended && threads[t].prio == threads[current.value].prio
      modifies this`place, this`current, queues, threads, bitmap, bitmap.table
      ensures Valid() && current == Some(t)
    {
      assert ThreadOk(t);
      Yield();
      var ok := Resume(t);
      ghost var p := threads[t].prio;
      assert QueueOk(p) && queues[p] == [t];
      assert Foremost(p);
      Schedule();
    }

    /** `rt_thread_detach`. */
    method Close(t: nat)
      requires Valid() && t < threads.Length
      modifies this`place, queues, threads, bitmap, bitmap.table
      ensures Valid() && threads[..] == old(threads[..])[t := old(threads[t]).(stat := Closed)]
      ensures queues[..] == if old(threads[t]).stat == Ready then Parted(old(queues[..]), old(threads[t]).prio, t)
                            else old(queues[..])
    {
      assert ThreadOk(t);
      if threads[t].stat == Closed {
        return;
      }
      if threads[t].stat != Init {
        Dequeue(t, threads[t].prio);
      }
      threads[t] := threads[t].(stat := Closed);
      forall u: nat ensures ThreadOk(u) {
        assert old(ThreadOk(u));
      }
      forall q: nat ensures QueueOk(q) {
        assert QueueOk(q) || old(QueueOk(q));
      }
    }

    /** `rt_thread_exit`: the current thread ends. */
    method Exit()
      requires Valid() && current.Some?
      modifies this`place, this`current, queues, threads, bitmap, bitmap.table
      ensures Valid() && current.Some?
      ensures lockNest == 0 && !old(NobodyReady()) ==>
                MostUrgentRuns() && current != old(current) && threads[old(current).value].stat == Closed
      ensures var c := old(current).value; Rearranged(old(threads[..])[c := old(threads[c]).(stat := Closed)])
      ensures lockNest == 0 ==> forall p: nat :: old(Foremost(p)) ==> current == Some(old(queues[p])[0])
      ensures lockNest == 0 ==> Fair()
    {
      var c := current.value;
      assert ThreadOk(c);
      Close(c);
      ghost var ready := !NobodyReady();
      forall p: nat | Foremost(p) ensures queues[p][0] != c {
        assert queues[p][0] in queues[p];
        Listed(queues[p][0], p);
      }
      if ready { SomeForemost(); }
      Schedule();
    }

    lemma SomeForemost()
      requires Valid() && !NobodyReady()
      ensures exists p: nat :: Foremost(p)
    {
      var q: nat :| q < queues.Length && queues[q] != [];
      FirstNotEmpty(q);
    }

    lemma {:induction false} FirstNotEmpty(q: nat)
      requires q < queues.Length && queues[q] != []
      ensures exists p: nat :: Foremost(p)
      decreases q
    {
      if p: nat :| p < q && queues[p] != [] {
        FirstNotEmpty(p);
      } else {
        assert Foremost(q);
      }
    }

    /** `rt_enter_critical`. */
    method EnterCritical()
      requires Valid()
      modifies this`lockNest
      ensures Valid() && lockNest == old(lockNest) + 1
    {
      lockNest := lockNest + 1;
    }

    /** `rt_exit_critical`. */
    method ExitCritical()
      requires Valid()
      modifies this`place, this`current, this`lockNest, queues, threads, bitmap, bitmap.table
      ensures Valid() && lockNest == (if old(lockNest) > 0 then old(lockNest) - 1 else 0)
      ensures lockNest == 0 && old(current).Some? && !old(NobodyReady()) ==> MostUrgentRuns()
      ensures lockNest == 0 && current.Some? ==> Fair()
      ensures lockNest > 0 ==> current == old(current) && threads[..] == old(threads[..])
      ensures Rearranged(old(threads[..]))
      ensures current.Some? <==> old(current).Some?
    {
      if lockNest <= 1 {
        lockNest := 0;
        if current.Some? {
          Schedule();
        }
      } else {
        lockNest := lockNest - 1;
      }
    }

    /** The time slice in `rt_tick_increase`: one tick less, counted in 32 bits; when the slice is used up, it is
        refilled and the current thread gives way to its equals. */
    method TickIncrease()
      requires Valid() && current.Some? && threads[current.value].remaining < TICKS
      modifies this`place, this`current, queues, threads, bitmap, bitmap.table
      ensures Valid() && current.Some?
      ensures var c := old(current).value; old(threads[c]).remaining != 1 ==>
                && current == old(current) && queues[..] == old(queues[..])
                && threads[..] == old(threads[..])[c := OneTickLess(old(threads[c]))]
      ensures var c := old(current).value; old(threads[c]).remaining == 1 && (lockNest > 0 || old(NobodyReady())) ==>
                Unmoved(old(queues[..]), old(threads[..]), c)
      ensures var c := old(current).value; var p := old(threads[c]).prio;
              old(threads[c]).remaining == 1 && lockNest == 0 && old(MostUrgentRuns()) && old(Foremost(p)) ==>
                GaveWay(old(queues[..]), old(threads[..]), c, p)
      ensures var c := old(current).value; old(threads[c]).remaining == 1 ==>
                Rearranged(old(threads[..])[c := Spent(old(threads[c]))])
      ensures old(threads[current.value]).remaining == 1 && lockNest == 0 && !old(NobodyReady()) ==> MostUrgentRuns()
      ensures old(threads[current.value]).remaining == 1 && lockNest == 0 ==> Fair()
    {
      var c := current.value;
      SetRemaining(c, (threads[c].remaining + TICKS - 1) % TICKS);
      if threads[c].remaining == 0 {
        Yield();
      }
    }

    /** A thread with `n` ticks left, and equals ready, runs for `n` ticks and gives way at the last of them; `ran` is
        the thread running after each tick. */
    method UseSlice(n: nat) returns (ran: seq<nat>)
      requires Valid() && lockNest == 0 && MostUrgentRuns() && Foremost(threads[current.value].prio)
      requires 0 < n == threads[current.value].remaining < TICKS
      modifies this`place, this`current, queues, threads, bitmap, bitmap.table
      ensures Valid() && MostUrgentRuns() && |ran| == n
      ensures forall i :: 0 <= i < n - 1 ==> ran[i] == old(current).value
      ensures var c := old(current).value; var p := old(threads[c]).prio;
              ran[n - 1] == old(queues[p])[0] && GaveWay(old(queues[..]), old(threads[..]), c, p)
    {
      var c := current.value;
      ghost var ts, qs, p := threads[..], queues[..], threads[c].prio;
      ran := [];
      for i := 0 to n - 1
        invariant Valid() && lockNest == 0 && MostUrgentRuns() && Foremost(p) && current == Some(c) && queues[..] == qs
        invariant c < |ts| && threads[..] == ts[c := ts[c].(remaining := n - i)]
        invariant |ran| == i && forall j :: 0 <= j < i ==> ran[j] == c
      {
        TickIncrease();
        ran := ran + [current.value];
      }
      TickIncrease();
      ran := ran + [current.value];
    }

    method SetRemaining(c: nat, ticks: nat)
      requires Valid() && c < threads.Length
      modifies threads
      ensures Valid() && threads[..] == old(threads[..])[c := old(threads[c]).(remaining := ticks)]
    {
      threads[c] := threads[c].(remaining := ticks);
      forall u: nat ensures ThreadOk(u) {
        assert old(ThreadOk(u));
      }
      forall q: nat ensures QueueOk(q) {
        assert old(QueueOk(q));
      }
    }

    /** In every reachable state the bitmap, the lists and the thread states agree, and each operation does what it
        should; `trace` holds the states. */
    method Run(ops: seq<Op>) returns (ghost trace: seq<State>)
      requires Valid() && current.Some? && Counted()
      modifies this`place, this`current, this`lockNest, queues, threads, bitmap, bitmap.table
      ensures Valid() && current.Some? && Counted() && |trace| == |ops| + 1
      ensures trace[0] == old(Now()) && trace[|ops|] == Now()
      ensures forall i :: 0 <= i < |ops| ==> Right(ops[i], max, trace[i], trace[i + 1])
    {
      trace := [Now()];
      for i := 0 to |ops|
        invariant Valid() && current.Some? && Counted() && |trace| == i + 1
        invariant trace[0] == old(Now()) && trace[i] == Now()
        invariant forall j :: 0 <= j < i ==> Right(ops[j], max, trace[j], trace[j + 1])
      {
        Do(ops[i]);
        trace := trace + [Now()];
      }
    }

    /** Ticks are counted in 32 bits. */
    ghost predicate Counted()
      reads threads
    {
      forall t :: 0 <= t < threads.Length ==> threads[t].remaining < TICKS && threads[t].slice < TICKS
    }

    ghost function Now(): State
      reads this`current, this`lockNest, threads
    {
      State(threads[..], current, lockNest)
    }

    method Do(op: Op)
      requires Valid() && current.Some? && Counted()
      modifies this`place, this`current, this`lockNest, queues, threads, bitmap, bitmap.table
      ensures Valid() && current.Some? && Counted()
      ensures Right(op, max, old(Now()), Now())
    {
      match op
      case StartupOp(_) => DoStartup(op);
      case SuspendOp(_, _) => DoSuspend(op);
      case ResumeOp(_, _) => DoResume(op);
      case YieldOp => DoCurrent(op);
      case TickOp => DoCurrent(op);
      case ExitOp => DoCurrent(op);
      case _ => DoOther(op);
    }

    method DoStartup(op: Op)
      requires op.StartupOp?
      requires Valid() && current.Some? && Counted()
      modifies this`place, this`current, this`lockNest, queues, threads, bitmap, bitmap.table
      ensures Valid() && current.Some? && Counted()
      ensures Right(op, max, old(Now()), Now())
    {
      var t := op.thread;
      if t < threads.Length && threads[t].stat == Init { Startup(t); }
    }

    method DoSuspend(op: Op)
      requires op.SuspendOp?
      requires Valid() && current.Some? && Counted()
      modifies this`place, this`current, this`lockNest, queues, threads, bitmap, bitmap.table
      ensures Valid() && current.Some? && Counted()
      ensures Right(op, max, old(Now()), Now())
    {
      if op.thread < threads.Length {
        var ok := Suspend(op.thread);
      }
      if op.schedule {
        Schedule();
      }
    }

    method DoResume(op: Op)
      requires op.ResumeOp?
      requires Valid() && current.Some? && Counted()
      modifies this`place, this`current, this`lockNest, queues, threads, bitmap, bitmap.table
      ensures Valid() && current.Some? && Counted()
      ensures Right(op, max, old(Now()), Now())
    {
      if op.thread < threads.Length {
        var ok := Resume(op.thread);
      }
      if op.schedule {
        Schedule();
      }
    }

    method DoCurrent(op: Op)
      requires op.YieldOp? || op.TickOp? || op.ExitOp?
      requires Valid() && current.Some? && Counted()
      modifies this`place, this`current, this`lockNest, queues, threads, bitmap, bitmap.table
      ensures Valid() && current.Some? && Counted()
      ensures Right(op, max, old(Now()), Now())
    {
      match op
      case YieldOp => Yield();
      case TickOp => TickIncrease();
      case ExitOp => Exit();
    }

    method DoOther(op: Op)
      requires op.PriorityOp? || op.CloseOp? || op.LockOp? || op.UnlockOp?
      requires Valid() && current.Some? && Counted()
      modifies this`place, this`current, this`lockNest, queues, threads, bitmap, bitmap.table
      ensures Valid() && current.Some? && Counted()
      ensures Right(op, max, old(Now()), Now())
    {
      match op
      case PriorityOp(t, p) =>
        if t < threads.Length && p < max { ChangePriority(t, p); }
      case CloseOp(t) =>
        if t < threads.Length { Close(t); }
      case LockOp => EnterCritical();
      case UnlockOp => ExitCritical();
    }
  }

  /** What an operation sees and changes, the order of the lists apart. */
  datatype State = State(threads: seq<Thread>, current: Option<nat>, nest: nat)

  /** The same threads can run, and nothing else changed about any thread but its yield mark. */
  ghost predicate Rearranges(ts: seq<Thread>, us: seq<Thread>) {
    |us| == |ts| && forall t :: 0 <= t < |ts| ==> ts[t].Becomes(us[t])
  }

  /** A thread that has a full slice again and gives way to its equals. */
  function Spent(thread: Thread): Thread {
    thread.(remaining := thread.slice, yielded := true)
  }

  /** The operation is one that ends with a call of `rt_schedule`. */
  ghost predicate Schedules(op: Op, s: State) {
    match op
    case StartupOp(t) => t < |s.threads| && s.threads[t].stat == Init
    case SuspendOp(_, schedule) => schedule
    case ResumeOp(_, schedule) => schedule
    case TickOp => s.current.Some? && s.current.value < |s.threads| && s.threads[s.current.value].remaining == 1
    case YieldOp => true
    case ExitOp => true
    case UnlockOp => s.nest <= 1
    case _ => false
  }

  /** The thread that runs is at least as urgent as every ready one, or no thread at all can run. */
  ghost predicate Just(s: State) {
    || (&& s.current.Some? && s.current.value < |s.threads| && s.threads[s.current.value].stat == Running
        && forall t :: 0 <= t < |s.threads| && s.threads[t].stat == Ready ==>
             s.threads[s.current.value].prio <= s.threads[t].prio)
    || forall t :: 0 <= t < |s.threads| ==> !s.threads[t].Able()
  }

  /** What the operation does besides rearranging the threads that can run. */
  ghost predicate Done(op: Op, max: nat, s: State, u: State) {
    var ts, us := s.threads, u.threads;
    && s.current.Some? && s.current.value < |ts| && u.current.Some?
    && u.nest == (if op.LockOp? then s.nest + 1 else if op.UnlockOp? && s.nest > 0 then s.nest - 1 else s.nest)
    && var c := s.current.value;
       match op
       case StartupOp(t) =>
         Rearranges(if t < |ts| && ts[t].stat == Init
                    then ts[t := ts[t].(prio := ts[t].initPrio, stat := if c == t then Running else Ready)] else ts, us)
       case SuspendOp(t, _) =>
         Rearranges(if t < |ts| && ts[t].Able() then ts[t := ts[t].(stat := Suspended)] else ts, us)
       case ResumeOp(t, _) =>
         Rearranges(if t < |ts| && ts[t].stat == Suspended
                    then ts[t := ts[t].(stat := if c == t then Running else Ready)] else ts, us)
       case PriorityOp(t, p) => us == if t < |ts| && p < max then ts[t := ts[t].(prio := p)] else ts
       case YieldOp => Rearranges(ts[c := Spent(ts[c])], us)
       case TickOp =>
         if ts[c].remaining == 1 then Rearranges(ts[c := Spent(ts[c])], us) else us == ts[c := OneTickLess(ts[c])]
       case ExitOp => Rearranges(ts[c := ts[c].(stat := Closed)], us)
       case CloseOp(t) => us == if t < |ts| then ts[t := ts[t].(stat := Closed)] else ts
       case LockOp => us == ts
       case UnlockOp => Rearranges(ts, us)
  }

  /** What the operation does, and that the most urgent thread runs after every call of `rt_schedule` that is not
      locked out. */
  ghost predicate Right(op: Op, max: nat, s: State, u: State) {
    Done(op, max, s, u) && (Schedules(op, s) && u.nest == 0 ==> Just(u))
  }

  /** A thread after a tick that does not use up its slice; the counter has 32 bits. */
  function OneTickLess(thread: Thread): (r: Thread)
    ensures thread.remaining < TICKS ==> r.remaining < TICKS && (r.remaining + 1) % TICKS == thread.remaining
  {
    thread.(remaining := if thread.remaining == 0 then TICKS - 1 else thread.remaining - 1)
  }

  /** The ring of threads after `i` turns. */
  ghost function Round(ring: seq<nat>, i: nat): (r: seq<nat>)
    requires i <= |ring|
    ensures |r| == |ring|
  {
    ring[i..] + ring[..i]
  }

  lemma Traced(ring: seq<nat>, i: nat)
    requires 0 < i <= |ring|
    ensures (ring + ring)[1..i + 1] == (ring + ring)[1..i] + [Round(ring, i)[0]]
  {
    assert Round(ring, i)[0] == (ring + ring)[i];
  }

  lemma TracedWhole(ring: seq<nat>)
    requires ring != []
    ensures (ring + ring)[1..|ring| + 1] == ring[1..] + [ring[0]] && Round(ring, |ring|) == ring
  {
  }

  lemma RoundAt(ring: seq<nat>, i: nat)
    requires i < |ring|
    ensures Round(ring, i)[0] == ring[i] && Round(ring, i + 1) == Round(ring, i)[1..] + [ring[i]]
    ensures i + 1 < |ring| ==> Round(ring, i)[1] == ring[i + 1]
  {
  }

  lemma HeadToTail(qs: seq<seq<nat>>, p: nat, c: nat)
    requires p < |qs| && qs[p] != []
    ensures Parted(Joined(qs, p, c), p, qs[p][0]) == qs[p := qs[p][1..] + [c]]
  {
    assert (qs[p] + [c])[1..] == qs[p][1..] + [c];
  }

  /** The threads with the yield mark of a running current thread cleared. */
  ghost function Calmed(ts: seq<Thread>, c: Option<nat>): seq<Thread> {
    if c.Some? && c.value < |ts| && ts[c.value].stat == Running then ts[c.value := ts[c.value].(yielded := false)]
    else ts
  }

  /** The lists after the current thread, if it was running, went to the end of its list and the first of list `p` was
      taken. */
  ghost function Handed(qs: seq<seq<nat>>, ts: seq<Thread>, c: Option<nat>, p: nat): seq<seq<nat>>
    requires p < |qs| && qs[p] != []
  {
    var joined := if c.Some? && c.value < |ts| && ts[c.value].stat == Running then Joined(qs, ts[c.value].prio, c.value)
                  else qs;
    Parted(joined, p, qs[p][0])
  }

  /** A switch rearranges the threads that can run. */
  lemma SwitchedBecome(ts: seq<Thread>, c: nat, to: nat)
    requires c < |ts| && to < |ts| && ts[to].stat == Ready
    ensures var after := Switched(Calmed(ts, Some(c)), Some(c), to);
      |after| == |ts| && forall t :: 0 <= t < |ts| ==> ts[t].Becomes(after[t])
  {
  }

  ghost function Switched(ts: seq<Thread>, c: Option<nat>, to: nat): seq<Thread> {
    var stood := if c.Some? && c.value < |ts| && ts[c.value].stat == Running
      then ts[c.value := ts[c.value].(stat := Ready)] else ts;
    if to < |ts| then stood[to := stood[to].(stat := Running)] else stood
  }
}

/** The mailbox of rt-thread/src/ipc.c.

    Every region that runs with interrupts disabled is one method.  A call of
    `rt_mb_send_wait` or `rt_mb_recv` is one such region when it does not block; when it
    blocks, it goes on with another one after each time it is resumed.  Between two of its
    regions any other regions may run, in any order. */
module Mailbox {
  import opened Rings
  import opened WaitList

  const ENTRY_MAX: nat := 0xffff

  /** Where a thread stands: outside, suspended, or resumed without error and about to look again. */
  datatype Phase = Idle | RecvWait | RecvWoken | SendWait(mail: int) | SendWoken(mail: int)

  datatype Outcome = Sent | Got(mail: int) | Blocked | Full | TimedOut

  /** One atomic region; `prio` gives the priorities of all threads at that moment. */
  datatype Step =
    | SendStep(thread: nat, mail: int, timeout: int, prio: seq<int>)
    | ReceiveStep(thread: nat, timeout: int, prio: seq<int>)
    | TimeoutStep(thread: nat)
    | ResetStep

  function Resumed(p: Phase): Phase {
    match p
    case RecvWait => RecvWoken
    case SendWait(mail) => SendWoken(mail)
    case _ => p
  }

  // ----- the ring buffer -----

  /** The cell `i` places after `from`, round a pool of `size` cells. */
  function Slot(from: nat, i: nat, size: nat): int {
    if from + i >= size then from + i - size else from + i
  }

  /** The mails in the pool, oldest first. */
  ghost function Cells(pool: seq<int>, from: nat, n: nat): seq<int>
    requires n <= |pool| && (n > 0 ==> from < |pool|)
  {
    seq(n, i requires 0 <= i < n => pool[Slot(from, i, |pool|)])
  }

  lemma PutCell(pool: seq<int>, from: nat, n: nat, v: int)
    requires n < |pool| && from < |pool|
    ensures Cells(pool[Slot(from, n, |pool|) := v], from, n + 1) == Cells(pool, from, n) + [v]
  {
  }

  lemma TakeCell(pool: seq<int>, from: nat, n: nat)
    requires 0 < n <= |pool| && from < |pool|
    ensures Cells(pool, from, n) == [pool[from]] + Cells(pool, Slot(from, 1, |pool|), n - 1)
  {
  }

  // ----- what each region does -----

  datatype State = State(mails: seq<int>, receivers: seq<nat>, senders: seq<nat>, phase: seq<Phase>)
  {
    predicate Enabled(step: Step) {
      match step
      case SendStep(t, mail, _, _) => t < |phase| && (phase[t] == Idle || phase[t] == SendWoken(mail))
      case ReceiveStep(t, _, _) => t < |phase| && (phase[t] == Idle || phase[t] == RecvWoken)
      case TimeoutStep(t) => t < |phase| && (phase[t] == RecvWait || phase[t].SendWait?)
      case ResetStep => true
    }
  }

  /** The phases after the first thread of the list, if there is one, was resumed. */
  ghost function Served(phase: seq<Phase>, list: seq<nat>): seq<Phase> {
    if list != [] && list[0] < |phase| then phase[list[0] := Resumed(phase[list[0]])] else phase
  }

  ghost function Rest(list: seq<nat>): seq<nat> {
    if list == [] then [] else list[1..]
  }

  /** A mail is put last and a receiver resumed if there is room, and taken from the front and a sender resumed if there
      is one; otherwise the call fails or its thread waits. */
  ghost predicate Next(size: nat, d: Discipline, step: Step, s: State, u: State) {
    if !s.Enabled(step) then u == s
    else match step
         case SendStep(t, mail, timeout, prio) =>
           u == if |s.mails| < size
                then State(s.mails + [mail], Rest(s.receivers), s.senders, Served(s.phase[t := Idle], s.receivers))
                else if timeout == 0 then s.(phase := s.phase[t := Idle])
                else s.(senders := Enqueued(s.senders, t, prio, d), phase := s.phase[t := SendWait(mail)])
         case ReceiveStep(t, timeout, prio) =>
           u == if s.mails != []
                then State(s.mails[1..], s.receivers, Rest(s.senders), Served(s.phase[t := Idle], s.senders))
                else if timeout == 0 then s.(phase := s.phase[t := Idle])
                else s.(receivers := Enqueued(s.receivers, t, prio, d), phase := s.phase[t := RecvWait])
         case TimeoutStep(t) =>
           u == if s.phase[t] == RecvWait then s.(receivers := Dropped(s.receivers, t), phase := s.phase[t := Idle])
                else s.(senders := Dropped(s.senders, t), phase := s.phase[t := Idle])
         case ResetStep =>
           && u.mails == [] && u.receivers == [] && u.senders == [] && |u.phase| == |s.phase|
           && forall t :: 0 <= t < |s.phase| ==>
                u.phase[t] == if s.phase[t] == RecvWait || s.phase[t].SendWait? then Idle else s.phase[t]
  }

  class Mailbox {
    const size: nat
    const flag: Discipline
    const pool: array<int>
    const phase: array<Phase>
    var entry: nat
    var inOffset: nat
    var outOffset: nat
    var receivers: seq<nat>
    var senders: seq<nat>
    ghost var wokenReceivers: set<nat>
    ghost var wokenSenders: set<nat>
    ghost var sent: seq<int>
    ghost var received: seq<int>

    ghost predicate PhaseOk(t: nat)
      reads this`receivers, this`senders, this`wokenReceivers, this`wokenSenders, phase
    {
      if t < phase.Length then
        && (t in receivers <==> phase[t] == RecvWait)
        && (t in wokenReceivers <==> phase[t] == RecvWoken)
        && (t in senders <==> phase[t].SendWait?)
        && (t in wokenSenders <==> phase[t].SendWoken?)
      else t !in receivers && t !in senders && t !in wokenReceivers && t !in wokenSenders
    }

    ghost predicate Buffer()
      reads this`entry, this`inOffset, this`outOffset, pool
    {
      && pool.Length == size <= ENTRY_MAX && entry <= size
      && (size > 0 ==> inOffset < size && outOffset < size && inOffset == Slot(outOffset, entry, size))
    }

    /** The mails in the box, oldest first. */
    ghost function Contents(): seq<int>
      requires Buffer()
      reads this`entry, this`inOffset, this`outOffset, pool
    {
      Cells(pool[..], outOffset, entry)
    }

    /** No wakeup is lost: whoever is suspended, others have been woken for all there is to take. */
    ghost predicate NoneLost()
      reads this`receivers, this`senders, this`wokenReceivers, this`wokenSenders, this`entry
    {
      && (receivers != [] ==> entry <= |wokenReceivers|)
      && (senders != [] ==> size - entry <= |wokenSenders|)
    }

    ghost predicate Valid()
      reads this, pool, phase
    {
      && Buffer() && Distinct(receivers) && Distinct(senders) && NoneLost()
      && (forall t: nat {:trigger PhaseOk(t)} :: PhaseOk(t))
      && sent == received + Contents()
    }

    /** `rt_mb_init`; `size` is kept in 16 bits. */
    constructor (size: nat, flag: Discipline, threads: nat)
      ensures Valid() && Contents() == [] && this.size == size % 0x1_0000 && phase.Length == threads
      ensures sent == [] && receivers == [] && senders == [] && this.flag == flag
      ensures forall t :: 0 <= t < threads ==> phase[t] == Idle
    {
      this.size := size % 0x1_0000;
      this.flag := flag;
      pool := new int[size % 0x1_0000];
      phase := new Phase[threads](_ => Idle);
      entry, inOffset, outOffset := 0, 0, 0;
      receivers, senders := [], [];
      wokenReceivers, wokenSenders := {}, {};
      sent, received := [], [];
    }

    // ----- suspending and resuming -----

    method SuspendReceiver(t: nat, prio: seq<int>)
      requires Valid() && t < phase.Length && (phase[t] == Idle || phase[t] == RecvWoken) && entry == 0
      modifies this`receivers, this`wokenReceivers, phase
      ensures Valid() && receivers == Enqueued(old(receivers), t, prio, flag) && phase[t] == RecvWait
      ensures forall u :: 0 <= u < phase.Length && u != t ==> phase[u] == old(phase[u])
    {
      assert PhaseOk(t);
      EnqueuedHas(receivers, t, prio, flag);
      receivers := Enqueued(receivers, t, prio, flag);
      wokenReceivers := wokenReceivers - {t};
      phase[t] := RecvWait;
      forall u: nat ensures PhaseOk(u) {
        assert old(PhaseOk(u));
      }
    }

    method SuspendSender(t: nat, mail: int, prio: seq<int>)
      requires Valid() && t < phase.Length && (phase[t] == Idle || phase[t].SendWoken?) && entry == size
      modifies this`senders, this`wokenSenders, phase
      ensures Valid() && senders == Enqueued(old(senders), t, prio, flag) && phase[t] == SendWait(mail)
      ensures forall u :: 0 <= u < phase.Length && u != t ==> phase[u] == old(phase[u])
    {
      assert PhaseOk(t);
      EnqueuedHas(senders, t, prio, flag);
      senders := Enqueued(senders, t, prio, flag);
      wokenSenders := wokenSenders - {t};
      phase[t] := SendWait(mail);
      forall u: nat ensures PhaseOk(u) {
        assert old(PhaseOk(u));
      }
    }

    /** Thread `t` leaves the call it was woken in, or never blocked in. */
    method Leave(t: nat)
      requires t < phase.Length && (phase[t] == Idle || phase[t] == RecvWoken || phase[t].SendWoken?)
      requires forall u: nat {:trigger PhaseOk(u)} :: PhaseOk(u)
      modifies this`wokenReceivers, this`wokenSenders, phase
      ensures forall u: nat {:trigger PhaseOk(u)} :: PhaseOk(u)
      ensures phase[t] == Idle && forall u :: 0 <= u < phase.Length && u != t ==> phase[u] == old(phase[u])
      ensures wokenReceivers == old(wokenReceivers) - {t} && wokenSenders == old(wokenSenders) - {t}
      ensures |wokenReceivers| == old(|wokenReceivers|) - if old(phase[t]) == RecvWoken then 1 else 0
      ensures |wokenSenders| == old(|wokenSenders|) - if old(phase[t]).SendWoken? then 1 else 0
    {
      assert PhaseOk(t);
      assert old(phase[t]) != RecvWoken ==> wokenReceivers - {t} == wokenReceivers;
      assert !old(phase[t]).SendWoken? ==> wokenSenders - {t} == wokenSenders;
      wokenReceivers := wokenReceivers - {t};
      wokenSenders := wokenSenders - {t};
      phase[t] := Idle;
      forall u: nat ensures PhaseOk(u) {
        assert old(PhaseOk(u));
      }
    }

    /** `rt_ipc_list_resume` on the receivers. */
    method WakeReceiver()
      requires receivers != [] && Distinct(receivers) && forall u: nat {:trigger PhaseOk(u)} :: PhaseOk(u)
      modifies this`receivers, this`wokenReceivers, phase
      ensures (forall u: nat {:trigger PhaseOk(u)} :: PhaseOk(u)) && Distinct(receivers)
      ensures receivers == old(receivers)[1..] && |wokenReceivers| == old(|wokenReceivers|) + 1
      ensures forall u :: 0 <= u < phase.Length ==>
                phase[u] == if u == old(receivers)[0] then RecvWoken else old(phase[u])
    {
      ghost var list := receivers;
      var t := receivers[0];
      assert t in receivers && PhaseOk(t);
      DistinctTail(list);
      receivers := receivers[1..];
      wokenReceivers := wokenReceivers + {t};
      phase[t] := RecvWoken;
      forall u: nat ensures PhaseOk(u) {
        assert old(PhaseOk(u));
      }
    }

    /** `rt_ipc_list_resume` on the senders. */
    method WakeSender()
      requires senders != [] && Distinct(senders) && forall u: nat {:trigger PhaseOk(u)} :: PhaseOk(u)
      modifies this`senders, this`wokenSenders, phase
      ensures (forall u: nat {:trigger PhaseOk(u)} :: PhaseOk(u)) && Distinct(senders)
      ensures senders == old(senders)[1..] && |wokenSenders| == old(|wokenSenders|) + 1
      ensures forall u :: 0 <= u < phase.Length ==>
                phase[u] == if u == old(senders)[0] then Resumed(old(phase[u])) else old(phase[u])
    {
      ghost var list := senders;
      var t := senders[0];
      assert t in senders && PhaseOk(t);
      DistinctTail(list);
      senders := senders[1..];
      wokenSenders := wokenSenders + {t};
      phase[t] := Resumed(phase[t]);
      forall u: nat ensures PhaseOk(u) {
        assert old(PhaseOk(u));
      }
    }

    // ----- the buffer -----

    method Put(mail: int)
      requires Buffer() && entry < size
      modifies this`entry, this`inOffset, pool
      ensures Buffer() && entry == old(entry) + 1 && Contents() == old(Contents()) + [mail]
    {
      PutCell(pool[..], outOffset, entry, mail);
      pool[inOffset] := mail;
      assert pool[..] == old(pool[..])[inOffset := mail];
      inOffset := inOffset + 1;
      if inOffset >= size {
        inOffset := 0;
      }
      if entry < ENTRY_MAX {
        entry := entry + 1;
      } else {
        assert false;
      }
    }

    method Fetch() returns (value: int)
      requires Buffer() && entry > 0
      modifies this`entry, this`outOffset
      ensures Buffer() && entry == old(entry) - 1 && old(Contents()) == [value] + Contents()
    {
      TakeCell(pool[..], outOffset, entry);
      value := pool[outOffset];
      outOffset := outOffset + 1;
      if outOffset >= size {
        outOffset := 0;
      }
      if entry > 0 {
        entry := entry - 1;
      }
    }

    /** The end of a sending call: a receiver, if one is suspended, is resumed. */
    method LeaveSending(t: nat)
      requires t < phase.Length && (phase[t] == Idle || phase[t].SendWoken?) && Distinct(receivers) && Distinct(senders)
      requires forall u: nat {:trigger PhaseOk(u)} :: PhaseOk(u)
      modifies this`receivers, this`wokenReceivers, this`wokenSenders, phase
      ensures (forall u: nat {:trigger PhaseOk(u)} :: PhaseOk(u)) && Distinct(receivers)
      ensures receivers == if old(receivers) == [] then [] else old(receivers)[1..]
      ensures |wokenReceivers| == old(|wokenReceivers|) + if old(receivers) == [] then 0 else 1
      ensures |wokenSenders| >= old(|wokenSenders|) - 1
      ensures phase[t] == Idle
      ensures forall u :: 0 <= u < phase.Length && u != t ==>
                phase[u] == if old(receivers) != [] && u == old(receivers)[0] then RecvWoken else old(phase[u])
    {
      assert PhaseOk(t);
      Leave(t);
      if receivers != [] {
        assert receivers[0] in receivers;
        WakeReceiver();
      }
    }

    /** The end of a receiving call: a sender, if one is suspended, is resumed. */
    method LeaveReceiving(t: nat)
      requires t < phase.Length
      requires (phase[t] == Idle || phase[t] == RecvWoken) && Distinct(receivers) && Distinct(senders)
      requires forall u: nat {:trigger PhaseOk(u)} :: PhaseOk(u)
      modifies this`senders, this`wokenReceivers, this`wokenSenders, phase
      ensures (forall u: nat {:trigger PhaseOk(u)} :: PhaseOk(u)) && Distinct(senders)
      ensures senders == if old(senders) == [] then [] else old(senders)[1..]
      ensures |wokenSenders| == old(|wokenSenders|) + if old(senders) == [] then 0 else 1
      ensures |wokenReceivers| >= old(|wokenReceivers|) - 1
      ensures phase[t] == Idle
      ensures forall u :: 0 <= u < phase.Length && u != t ==>
                phase[u] == if old(senders) != [] && u == old(senders)[0] then Resumed(old(phase[u])) else old(phase[u])
    {
      assert PhaseOk(t);
      Leave(t);
      if senders != [] {
        assert senders[0] in senders;
        WakeSender();
      }
    }

    // ----- the regions -----

    /** One region of `rt_mb_send_wait`: the first, or one after thread `t` was resumed. */
    method Send(t: nat, mail: int, timeout: int, prio: seq<int>) returns (out: Outcome)
      requires Valid() && t < phase.Length && (phase[t] == Idle || phase[t] == SendWoken(mail))
      modifies this`entry, this`inOffset, this`receivers, this`senders, this`wokenReceivers, this`wokenSenders,
               this`sent, pool, phase
      ensures Valid()
      ensures out == if old(entry) < size then Sent else if timeout == 0 then Full else Blocked
      ensures out == Sent ==>
                Contents() == old(Contents()) + [mail] && sent == old(sent) + [mail] && senders == old(senders)
      ensures out == Sent ==> receivers == if old(receivers) == [] then [] else old(receivers)[1..]
      ensures out != Sent ==> Contents() == old(Contents()) && sent == old(sent) && receivers == old(receivers)
      ensures out == Full ==> senders == old(senders)
      ensures out == Blocked ==> senders == Enqueued(old(senders), t, prio, flag)
      ensures phase[t] == if out == Blocked then SendWait(mail) else Idle
      ensures forall u :: 0 <= u < phase.Length && u != t ==>
                phase[u] == if out == Sent && old(receivers) != [] && u == old(receivers)[0] then RecvWoken
                else old(phase[u])
    {
      if entry == size {
        if timeout == 0 {
          Leave(t);
          return Full;
        }
        SuspendSender(t, mail, prio);
        return Blocked;
      }
      Put(mail);
      sent := sent + [mail];
      assert received + old(Contents()) + [mail] == received + (old(Contents()) + [mail]);
      LeaveSending(t);
      return Sent;
    }

    /** One region of `rt_mb_recv`: the first, or one after thread `t` was resumed. */
    method Receive(t: nat, timeout: int, prio: seq<int>) returns (out: Outcome)
      requires Valid() && t < phase.Length && (phase[t] == Idle || phase[t] == RecvWoken)
      modifies this`entry, this`outOffset, this`receivers, this`senders, this`wokenReceivers, this`wokenSenders,
               this`received, phase
      ensures Valid()
      ensures out == if old(entry) > 0 then Got(old(Contents())[0]) else if timeout == 0 then TimedOut else Blocked
      ensures out.Got? ==>
                Contents() == old(Contents())[1..] && received == old(received) + [out.mail] &&
                receivers == old(receivers)
      ensures out.Got? ==> senders == if old(senders) == [] then [] else old(senders)[1..]
      ensures !out.Got? ==> Contents() == old(Contents()) && received == old(received) && senders == old(senders)
      ensures out == TimedOut ==> receivers == old(receivers)
      ensures out == Blocked ==> receivers == Enqueued(old(receivers), t, prio, flag)
      ensures phase[t] == if out == Blocked then RecvWait else Idle
      ensures forall u :: 0 <= u < phase.Length && u != t ==>
                phase[u] == if out.Got? && old(senders) != [] && u == old(senders)[0] then Resumed(old(phase[u]))
                else old(phase[u])
    {
      if entry == 0 {
        if timeout == 0 {
          Leave(t);
          return TimedOut;
        }
        SuspendReceiver(t, prio);
        return Blocked;
      }
      var value := Fetch();
      received := received + [value];
      assert old(received) + ([value] + Contents()) == received + Contents();
      LeaveReceiving(t);
      return Got(value);
    }

    /** `rt_thread_timeout` for a thread suspended on the mailbox; its call returns an error. */
    method Timeout(t: nat)
      requires Valid() && t < phase.Length && (phase[t] == RecvWait || phase[t].SendWait?)
      modifies this`receivers, this`senders, phase
      ensures Valid() && phase[t] == Idle
      ensures receivers == if old(phase[t]) == RecvWait then Dropped(old(receivers), t) else old(receivers)
      ensures senders == if old(phase[t]) == RecvWait then old(senders) else Dropped(old(senders), t)
      ensures forall u :: 0 <= u < phase.Length && u != t ==> phase[u] == old(phase[u])
    {
      assert PhaseOk(t);
      if phase[t] == RecvWait {
        DroppedHas(receivers, t);
        receivers := Dropped(receivers, t);
      } else {
        DroppedHas(senders, t);
        senders := Dropped(senders, t);
      }
      phase[t] := Idle;
      forall u: nat ensures PhaseOk(u) {
        assert old(PhaseOk(u));
      }
    }

    /** `rt_ipc_list_resume_all` on the receivers. */
    method ReleaseReceivers()
      requires Valid()
      modifies this`receivers, this`senders, phase
      ensures Valid() && receivers == [] && senders == old(senders)
      ensures forall u :: 0 <= u < phase.Length ==> phase[u] == if u in old(receivers) then Idle else old(phase[u])
    {
      while receivers != []
        invariant Valid() && senders == old(senders) && forall u :: u in receivers ==> u in old(receivers)
        invariant forall u :: 0 <= u < phase.Length && u in receivers ==> phase[u] == old(phase[u])
        invariant forall u :: 0 <= u < phase.Length && u !in receivers ==>
                    phase[u] == if u in old(receivers) then Idle else old(phase[u])
        decreases |receivers|
      {
        assert receivers[0] in receivers && PhaseOk(receivers[0]);
        DistinctTail(receivers);
        Timeout(receivers[0]);
      }
    }

    /** `rt_ipc_list_resume_all` on the senders. */
    method ReleaseSenders()
      requires Valid()
      modifies this`receivers, this`senders, phase
      ensures Valid() && senders == [] && receivers == old(receivers)
      ensures forall u :: 0 <= u < phase.Length ==> phase[u] == if u in old(senders) then Idle else old(phase[u])
    {
      while senders != []
        invariant Valid() && receivers == old(receivers) && forall u :: u in senders ==> u in old(senders)
        invariant forall u :: 0 <= u < phase.Length && u in senders ==> phase[u] == old(phase[u])
        invariant forall u :: 0 <= u < phase.Length && u !in senders ==>
                    phase[u] == if u in old(senders) then Idle else old(phase[u])
        decreases |senders|
      {
        assert senders[0] in senders && PhaseOk(senders[0]);
        DistinctTail(senders);
        Timeout(senders[0]);
      }
    }

    /** `rt_mb_control` with the reset command: the mails in the box are discarded. */
    method Reset()
      requires Valid()
      modifies this`entry, this`inOffset, this`outOffset, this`receivers, this`senders, this`sent, phase
      ensures Valid() && Contents() == [] && sent == received && receivers == [] && senders == []
      ensures forall u :: 0 <= u < phase.Length ==>
                phase[u] == if old(phase[u]) == RecvWait || old(phase[u]).SendWait? then Idle else old(phase[u])
    {
      forall u: nat | u < phase.Length
        ensures (u in receivers <==> phase[u] == RecvWait) && (u in senders <==> phase[u].SendWait?)
      {
        assert PhaseOk(u);
      }
      ReleaseReceivers();
      ReleaseSenders();
      entry, inOffset, outOffset := 0, 0, 0;
      sent := received;
      forall u: nat ensures PhaseOk(u) {
        assert old(PhaseOk(u));
      }
    }

    // ----- runs -----

    /** No thread is ever stuck: there is a step it can take. */
    lemma NeverStuck(t: nat)
      requires Valid() && t < phase.Length
      ensures exists step: Step :: !step.ResetStep? && step.thread == t && Now().Enabled(step)
    {
      var step := match phase[t]
        case Idle => SendStep(t, 0, 0, [])
        case RecvWait => TimeoutStep(t)
        case SendWait(_) => TimeoutStep(t)
        case RecvWoken => ReceiveStep(t, 0, [])
        case SendWoken(mail) => SendStep(t, mail, 0, []);
      assert Now().Enabled(step);
    }

    /** When nobody is on the way to look again, receivers wait only for an empty box and senders only for a full
        one. */
    lemma Quiescent()
      requires Valid() && wokenReceivers == {} && wokenSenders == {}
      ensures receivers != [] ==> Contents() == []
      ensures senders != [] ==> |Contents()| == size
      ensures size > 0 ==> receivers == [] || senders == []
    {
    }

    ghost function Now(): State
      requires Buffer()
      reads this`entry, this`inOffset, this`outOffset, this`receivers, this`senders, pool, phase
    {
      State(Contents(), receivers, senders, phase[..])
    }

    method Do(step: Step)
      requires Valid()
      modifies this, pool, phase
      ensures Valid() && old(received) <= received && Next(size, flag, step, old(Now()), Now())
      ensures step != ResetStep ==> old(sent) <= sent
    {
      match step
      case SendStep(t, mail, timeout, prio) =>
        if t < phase.Length && (phase[t] == Idle || phase[t] == SendWoken(mail)) { DoSend(t, mail, timeout, prio); }
      case ReceiveStep(t, timeout, prio) =>
        if t < phase.Length && (phase[t] == Idle || phase[t] == RecvWoken) { DoReceive(t, timeout, prio); }
      case TimeoutStep(t) =>
        if t < phase.Length && (phase[t] == RecvWait || phase[t].SendWait?) { Timeout(t); }
      case ResetStep => Reset();
    }

    method DoSend(t: nat, mail: int, timeout: int, prio: seq<int>)
      requires Valid() && Now().Enabled(SendStep(t, mail, timeout, prio))
      modifies this, pool, phase
      ensures Valid() && old(received) <= received && old(sent) <= sent
      ensures Next(size, flag, SendStep(t, mail, timeout, prio), old(Now()), Now())
    {
      assert PhaseOk(t) && (receivers != [] ==> receivers[0] in receivers && PhaseOk(receivers[0]));
      var out := Send(t, mail, timeout, prio);
    }

    method DoReceive(t: nat, timeout: int, prio: seq<int>)
      requires Valid() && Now().Enabled(ReceiveStep(t, timeout, prio))
      modifies this, pool, phase
      ensures Valid() && old(received) <= received && old(sent) <= sent
      ensures Next(size, flag, ReceiveStep(t, timeout, prio), old(Now()), Now())
    {
      assert PhaseOk(t) && (senders != [] ==> senders[0] in senders && PhaseOk(senders[0]));
      var out := Receive(t, timeout, prio);
    }

    /** Any interleaving of regions, with its states: the mails received are the mails sent, in the order in which they
        were sent. */
    method Run(steps: seq<Step>) returns (ghost trace: seq<State>)
      requires Valid()
      modifies this, pool, phase
      ensures Valid() && old(received) <= received <= sent && |sent| - |received| == |Contents()| <= size
      ensures ResetStep !in steps ==> old(sent) <= sent
      ensures wokenReceivers == {} && wokenSenders == {} && receivers != [] ==> received == sent
      ensures |trace| == |steps| + 1 && trace[0] == old(Now()) && trace[|steps|] == Now()
      ensures forall i :: 0 <= i < |steps| ==> Next(size, flag, steps[i], trace[i], trace[i + 1])
    {
      trace := [Now()];
      for i := 0 to |steps|
        invariant Valid() && old(received) <= received
        invariant ResetStep !in steps ==> old(sent) <= sent
        invariant |trace| == i + 1 && trace[0] == old(Now()) && trace[i] == Now()
        invariant forall j :: 0 <= j < i ==> Next(size, flag, steps[j], trace[j], trace[j + 1])
      {
        assert steps[i] in steps;
        Do(steps[i]);
        trace := trace + [Now()];
      }
    }
  }
}

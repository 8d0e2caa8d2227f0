/** The message queue of rt-thread/src/ipc.c.

    Messages live in the nodes of a pool.  A sender takes a node off the free list, fills it
    with interrupts enabled, and links it to the queue; a receiver unlinks a node, reads it
    with interrupts enabled, and gives it back.  One method is one region with interrupts
    disabled, or the copying of one byte, so any other regions may run in between. */
module MessageQueue {
  import opened Chains
  import opened Common
  import opened Rings
  import opened WaitList

  const ENTRY_MAX: nat := 0xffff

  /** Where a thread stands. */
  datatype Phase =
    | Idle
    | RecvWait(want: nat)
    | RecvWoken(want: nat)
    | SendWait(mail: seq<bv8>)
    | SendWoken(mail: seq<bv8>)
    | Filling(node: nat, mail: seq<bv8>, done: nat, urgent: bool)
    | Draining(node: nat, want: nat, got: seq<bv8>)
  {
    predicate Holds() { Filling? || Draining? }

    predicate Waits() { RecvWait? || SendWait? }
  }

  /** Who has a node: nobody, the queue, or a thread that fills or reads it. */
  datatype Owner = Free | Queued | Held(thread: nat)

  datatype Outcome = Rejected | Full | TimedOut | Blocked | Holding

  /** One atomic step; `prio` gives the priorities of all threads at that moment. */
  datatype Step =
    | SendStep(thread: nat, mail: seq<bv8>, timeout: int, prio: seq<int>)
    | UrgentStep(thread: nat, mail: seq<bv8>)
    | CopyInStep(thread: nat)
    | FinishSendStep(thread: nat)
    | ReceiveStep(thread: nat, want: nat, timeout: int, prio: seq<int>)
    | CopyOutStep(thread: nat)
    | FinishReceiveStep(thread: nat)
    | TimeoutStep(thread: nat)
    | ResetStep
  {
    predicate Sends() {
      SendStep? || UrgentStep? || CopyInStep? || FinishSendStep?
    }
  }

  function Resumed(p: Phase): Phase {
    match p
    case RecvWait(want) => RecvWoken(want)
    case SendWait(mail) => SendWoken(mail)
    case _ => p
  }

  ghost function Texts(queue: seq<nat>, content: seq<seq<bv8>>): seq<seq<bv8>> {
    seq(|queue|, i requires 0 <= i < |queue| => if queue[i] < |content| then content[queue[i]] else [])
  }

  /** The size of a message, aligned and kept in 16 bits. */
  function SlotSize(msgSize: nat): (r: nat)
    ensures r <= ENTRY_MAX
  {
    AlignUp(msgSize) % 0x1_0000
  }

  /** How many nodes fit into the pool, each with a link of four bytes; kept in 16 bits. */
  function SlotCount(poolSize: nat, msgSize: nat): (r: nat)
    ensures r <= ENTRY_MAX
  {
    poolSize / (msgSize + 4) % 0x1_0000
  }

  /** The nodes fit into the pool, and no further one would, unless 16 bits are too few to count them. */
  lemma SlotsFit(poolSize: nat, msgSize: nat)
    ensures SlotCount(poolSize, msgSize) * (msgSize + 4) <= poolSize
    ensures poolSize < (SlotCount(poolSize, msgSize) + 1) * (msgSize + 4) <==> poolSize < 0x1_0000 * (msgSize + 4)
  {
    var n, slot := poolSize / (msgSize + 4), msgSize + 4;
    var r := poolSize % slot;
    assert poolSize == n * slot + r;
    SlotsLess(n, 0x1_0000, slot, r);
    if n < 0x1_0000 {
      assert n * slot + slot == (n + 1) * slot;
    } else {
      var count := n % 0x1_0000;
      SlotsLess(count, n, slot, 0);
      SlotsMore(count + 1, n, slot);
    }
  }

  lemma SlotsLess(n: nat, m: nat, slot: nat, r: nat)
    requires r < slot
    ensures n * slot + r < m * slot <==> n < m
  {
    if n < m {
      SlotsMore(n + 1, m, slot);
      assert (n + 1) * slot == n * slot + slot;
    } else {
      SlotsMore(m, n, slot);
    }
  }

  lemma SlotsMore(n: nat, m: nat, slot: nat)
    requires n <= m
    ensures n * slot <= m * slot
  {
  }

  /** A message of up to 65532 bytes fits into a node, with less than a word to spare, and longer ones may not. */
  lemma SlotHolds(msgSize: nat)
    ensures msgSize <= 65532 ==> msgSize <= SlotSize(msgSize) < msgSize + 4
    ensures SlotSize(msgSize) >= msgSize <==> msgSize <= 65532
    ensures SlotSize(msgSize) % 4 == 0
  {
    AlignUpFacts(msgSize);
  }

  // ----- what happened -----

  /** A thread links a message it sent, takes the first message to read, or has read it; or the queue is reset. */
  datatype Event = Linked(thread: nat, mail: seq<bv8>, urgent: bool) | Taken(thread: nat)
    | Delivered(thread: nat, got: seq<bv8>) | Cleared

  /** The messages in the queue, those taken so far, and for each thread the last one it took. */
  datatype History = History(queued: seq<seq<bv8>>, received: seq<seq<bv8>>, hands: seq<seq<bv8>>)

  ghost function After(h: History, e: Option<Event>): History {
    match e
    case Some(Linked(_, mail, urgent)) => h.(queued := if urgent then [mail] + h.queued else h.queued + [mail])
    case Some(Taken(t)) =>
      if h.queued == [] || t >= |h.hands| then h
      else History(h.queued[1..], h.received + [h.queued[0]], h.hands[t := h.queued[0]])
    case Some(Cleared) => h.(queued := [])
    case _ => h
  }

  ghost function Replay(h: History, log: seq<Event>): History {
    if log == [] then h else After(Replay(h, log[..|log| - 1]), Some(log[|log| - 1]))
  }

  /** The bytes delivered are those of the message the thread took, as many as there are and it asked for. */
  ghost predicate True(h: History, e: Option<Event>) {
    e.Some? && e.value.Delivered? ==>
      var t, got := e.value.thread, e.value.got;
      t < |h.hands| && var k := Least(|h.hands[t]|, |got|); got[..k] == h.hands[t][..k]
  }

  ghost predicate Faithful(h: History, log: seq<Event>) {
    forall i :: 0 <= i < |log| ==> True(Replay(h, log[..i]), Some(log[i]))
  }

  /** The messages linked, in the order of linking. */
  ghost function Mails(log: seq<Event>): seq<seq<bv8>> {
    if log == [] then []
    else
      var rest, last := Mails(log[..|log| - 1]), log[|log| - 1];
      if last.Linked? then rest + [last.mail] else rest
  }

  /** Without urgent messages and resets, messages are received in the order in which they are linked. */
  lemma {:induction false} InOrder(h: History, log: seq<Event>)
    requires forall e :: e in log ==> !(e.Linked? && e.urgent) && !e.Cleared?
    ensures var g := Replay(h, log); g.received + g.queued == h.received + h.queued + Mails(log)
  {
    if log != [] {
      var front, last := log[..|log| - 1], log[|log| - 1];
      assert last in log && forall e :: e in front ==> e in log;
      InOrder(h, front);
      var f, g := Replay(h, front), Replay(h, log);
      if last.Linked? {
        assert g.received + g.queued == (f.received + f.queued) + [last.mail];
      } else if last.Taken? && f.queued != [] {
        assert f.received + f.queued == (f.received + [f.queued[0]]) + f.queued[1..];
      }
    }
  }

  /** Without resets, whatever is linked, urgent or not, is received once or still queued. */
  lemma {:induction false} NothingLost(h: History, log: seq<Event>)
    requires forall e :: e in log ==> !e.Cleared?
    ensures var g := Replay(h, log);
      multiset(g.received) + multiset(g.queued) == multiset(h.received) + multiset(h.queued) + multiset(Mails(log))
  {
    if log != [] {
      var front, last := log[..|log| - 1], log[|log| - 1];
      assert last in log && forall e :: e in front ==> e in log;
      NothingLost(h, front);
      NoneLostBy(Replay(h, front), last);
    }
  }

  lemma NoneLostBy(h: History, e: Event)
    requires !e.Cleared?
    ensures var g := After(h, Some(e));
      && multiset(g.received) + multiset(g.queued) ==
         multiset(h.received) + multiset(h.queued) + (if e.Linked? then multiset{e.mail} else multiset{})
  {
    if e.Taken? && h.queued != [] {
      assert h.queued == [h.queued[0]] + h.queued[1..];
    }
  }

  /** The message a thread is on the way of sending, and whether it is urgent. */
  function Carries(p: Phase): Option<(seq<bv8>, bool)> {
    match p
    case SendWait(mail) => Some((mail, false))
    case SendWoken(mail) => Some((mail, false))
    case Filling(_, mail, _, urgent) => Some((mail, urgent))
    case _ => None
  }

  /** The step is a call by which thread `t` begins to send, or goes on sending, the message. */
  predicate Asks(step: Step, t: nat, mail: seq<bv8>, urgent: bool) {
    if urgent then step == UrgentStep(t, mail) else step.SendStep? && step.thread == t && step.mail == mail
  }

  /** What threads carry, they carried before, or the step has just asked them to. */
  ghost predicate Carried(step: Step, before: seq<Phase>, after: seq<Phase>) {
    && |before| == |after|
    && forall u :: 0 <= u < |after| && Carries(after[u]).Some? ==>
         || Carries(after[u]) == Carries(before[u])
         || Asks(step, u, Carries(after[u]).value.0, Carries(after[u]).value.1)
  }

  /** Thread `t` was sending the message at the beginning, or one of the steps asked it to. */
  ghost predicate Begun(steps: seq<Step>, was: seq<Phase>, t: nat, mail: seq<bv8>, urgent: bool) {
    (t < |was| && Carries(was[t]) == Some((mail, urgent))) || exists s :: s in steps && Asks(s, t, mail, urgent)
  }

  /** What every link in the log, and every thread on its way to one, goes back to. */
  ghost predicate AllBegun(steps: seq<Step>, was: seq<Phase>, phases: seq<Phase>, log: seq<Event>) {
    && (forall e :: e in log && e.Linked? ==> Begun(steps, was, e.thread, e.mail, e.urgent))
    && (forall u :: 0 <= u < |phases| && Carries(phases[u]).Some? ==>
          Begun(steps, was, u, Carries(phases[u]).value.0, Carries(phases[u]).value.1))
  }

  /** The event is a link of what the thread carried, or none. */
  ghost predicate LinksCarried(step: Step, before: seq<Phase>, e: Option<Event>) {
    e.Some? && e.value.Linked? ==>
      e.value.thread < |before| && Carries(before[e.value.thread]) == Some((e.value.mail, e.value.urgent))
  }

  lemma StillBegun(step: Step, steps: seq<Step>, was: seq<Phase>, before: seq<Phase>, after: seq<Phase>,
                   log: seq<Event>, e: Option<Event>)
    requires AllBegun(steps, was, before, log) && step in steps && Carried(step, before, after)
    requires LinksCarried(step, before, e)
    ensures AllBegun(steps, was, after, if e.Some? then log + [e.value] else log)
  {
    forall u | 0 <= u < |after| && Carries(after[u]).Some?
      ensures Begun(steps, was, u, Carries(after[u]).value.0, Carries(after[u]).value.1)
    {
    }
  }

  // ----- what each step does -----

  /** The messages, the threads, the free nodes and the two lists of waiting threads. */
  datatype State = State(history: History, phases: seq<Phase>, spare: seq<nat>, receivers: seq<nat>, senders: seq<nat>)

  predicate Enabled(msgSize: nat, step: Step, ps: seq<Phase>) {
    step.ResetStep? || (step.thread < |ps| &&
      var p := ps[step.thread];
      match step
      case SendStep(_, mail, _, _) => p == Idle || p == SendWoken(mail)
      case UrgentStep(_, _) => p == Idle
      case CopyInStep(_) => p.Filling? && p.done < |p.mail|
      case FinishSendStep(_) => p.Filling? && p.done == |p.mail|
      case ReceiveStep(_, want, _, _) => p == Idle || p == RecvWoken(want)
      case CopyOutStep(_) => p.Draining? && |p.got| < Least(p.want, msgSize)
      case FinishReceiveStep(_) => p.Draining? && |p.got| == Least(p.want, msgSize)
      case TimeoutStep(_) => p.Waits())
  }

  /** What the step did, as an event. */
  ghost predicate Fits(msgSize: nat, step: Step, s: State, e: Option<Event>)
    requires Enabled(msgSize, step, s.phases)
  {
    match step
    case FinishSendStep(t) => e == Some(Linked(t, s.phases[t].mail, s.phases[t].urgent))
    case ReceiveStep(t, _, _, _) => e == if s.history.queued != [] then Some(Taken(t)) else None
    case FinishReceiveStep(t) =>
      e.Some? && e.value.Delivered? && e.value.thread == t && |e.value.got| == Least(s.phases[t].want, msgSize)
    case ResetStep => e == Some(Cleared)
    case _ => e == None
  }

  ghost function Woken(ps: seq<Phase>, list: seq<nat>): seq<Phase> {
    if list != [] && list[0] < |ps| then ps[list[0] := Resumed(ps[list[0]])] else ps
  }

  ghost function Rest(list: seq<nat>): seq<nat> {
    if list == [] then [] else list[1..]
  }

  /** A node is taken for a message that is not too long, or the call fails or waits. */
  ghost predicate Sending(msgSize: nat, d: Discipline, step: Step, s: State, u: State)
    requires Enabled(msgSize, step, s.phases) && step.Sends()
  {
    var ps, t := s.phases, step.thread;
    match step
    case SendStep(_, mail, timeout, prio) =>
      u == if |mail| > msgSize then s.(phases := ps[t := Idle])
           else if s.spare != [] then s.(phases := ps[t := Filling(s.spare[0], mail, 0, false)], spare := s.spare[1..])
           else if timeout == 0 then s.(phases := ps[t := Idle])
           else s.(phases := ps[t := SendWait(mail)], senders := Enqueued(s.senders, t, prio, d))
    case UrgentStep(_, mail) =>
      u == if |mail| <= msgSize && s.spare != []
           then s.(phases := ps[t := Filling(s.spare[0], mail, 0, true)], spare := s.spare[1..]) else s
    case CopyInStep(_) => u == s.(phases := ps[t := ps[t].(done := ps[t].done + 1)])
    case FinishSendStep(_) =>
      u.phases == Woken(ps[t := Idle], s.receivers) && u.receivers == Rest(s.receivers) &&
      u.senders == s.senders && u.spare == s.spare
  }

  /** The first message is taken, or the call fails or waits; and its node is free again when it has been read. */
  ghost predicate Receiving(msgSize: nat, d: Discipline, step: Step, s: State, u: State)
    requires Enabled(msgSize, step, s.phases) && !step.Sends() && !step.ResetStep?
  {
    var ps, t := s.phases, step.thread;
    && u.spare == (if step.FinishReceiveStep? then [ps[t].node] + s.spare else s.spare)
    && match step
       case ReceiveStep(_, want, timeout, prio) =>
         && u.senders == s.senders
         && if s.history.queued != []
            then t < |u.phases| && u.phases[t].Draining? && u.receivers == s.receivers &&
                 u.phases == ps[t := Draining(u.phases[t].node, want, [])]
            else if timeout == 0 then u.phases == ps[t := Idle] && u.receivers == s.receivers
            else u.phases == ps[t := RecvWait(want)] && u.receivers == Enqueued(s.receivers, t, prio, d)
       case CopyOutStep(_) =>
         && t < |u.phases| && u.phases[t].Draining? && |u.phases[t].got| == |ps[t].got| + 1
         && u.phases == ps[t := ps[t].(got := u.phases[t].got)] && u.receivers == s.receivers && u.senders == s.senders
       case FinishReceiveStep(_) =>
         u.phases == Woken(ps[t := Idle], s.senders) && u.senders == Rest(s.senders) && u.receivers == s.receivers
       case TimeoutStep(_) =>
         && u.phases == ps[t := Idle]
         && u.receivers == (if ps[t].RecvWait? then Dropped(s.receivers, t) else s.receivers)
         && u.senders == (if ps[t].RecvWait? then s.senders else Dropped(s.senders, t))
  }

  ghost predicate Next(msgSize: nat, d: Discipline, step: Step, s: State, e: Option<Event>, u: State) {
    if !Enabled(msgSize, step, s.phases) then e == None && u == s
    else
      && Fits(msgSize, step, s, e) && u.history == After(s.history, e) && True(s.history, e)
      && if step.ResetStep? then
           && u.receivers == [] && u.senders == [] && |u.phases| == |s.phases|
           && forall t :: 0 <= t < |s.phases| ==> u.phases[t] == if s.phases[t].Waits() then Idle else s.phases[t]
         else if step.Sends() then Sending(msgSize, d, step, s, u)
         else Receiving(msgSize, d, step, s, u)
  }

  /** What happened, without the steps in which nothing did. */
  ghost function Happened(es: seq<Option<Event>>): seq<Event> {
    if es == [] then []
    else
      var rest, last := Happened(es[..|es| - 1]), es[|es| - 1];
      if last.Some? then rest + [last.value] else rest
  }

  class Queue {
    const msgSize: nat
    const maxMsgs: nat
    const flag: Discipline
    const next: array<int>
    const data: array<seq<bv8>>
    const phase: array<Phase>
    var free: int
    var head: int
    var tail: int
    var entry: nat
    var receivers: seq<nat>
    var senders: seq<nat>
    ghost var wokenReceivers: set<nat>
    ghost var wokenSenders: set<nat>
    ghost var freeList: seq<nat>
    ghost var queue: seq<nat>
    ghost var owner: seq<Owner>
    ghost var content: seq<seq<bv8>>
    ghost var received: seq<seq<bv8>>
    ghost var taken: seq<seq<bv8>>

    // ----- the nodes -----

    ghost predicate Sized() {
      && next.Length == data.Length == maxMsgs <= ENTRY_MAX
      && data as object != next && data as object != phase && next as object != phase
    }

    ghost predicate OwnerOk(m: nat)
      reads this`freeList, this`queue, this`owner, phase
    {
      m < maxMsgs == |owner| ==>
        && (m in freeList <==> owner[m] == Free)
        && (m in queue <==> owner[m] == Queued)
        && (owner[m].Held? ==>
            owner[m].thread < phase.Length && phase[owner[m].thread].Holds() && phase[owner[m].thread].node == m)
    }

    ghost predicate HoldOk(t: nat)
      reads this`owner, phase, next
    {
      t < phase.Length && phase[t].Holds() ==>
        && phase[t].node < maxMsgs == next.Length && |owner| == maxMsgs && owner[phase[t].node] == Held(t)
        && (phase[t].Filling? && !phase[t].urgent ==> next[phase[t].node] == NULL)
    }

    /** Free list, queue, and the nodes that threads are filling or reading, partition the pool. */
    ghost predicate Partition()
      reads this`freeList, this`queue, this`owner, phase, next
    {
      && |owner| == maxMsgs
      && (forall u :: u in freeList ==> u < maxMsgs) && (forall u :: u in queue ==> u < maxMsgs)
      && (forall m: nat {:trigger OwnerOk(m)} :: OwnerOk(m))
      && (forall t: nat {:trigger HoldOk(t)} :: HoldOk(t))
    }

    ghost predicate Ends()
      reads this`free, this`head, this`tail, this`freeList, this`queue, next
    {
      && Sized() && Chain(next[..], freeList) && free == First(freeList)
      && Chain(next[..], queue) && head == First(queue) && tail == Last(queue)
    }

    ghost predicate Lists()
      reads this`free, this`head, this`tail, this`entry, this`freeList, this`queue, next
    {
      Ends() && entry == |queue|
    }

    // ----- the bytes -----

    ghost predicate Loaded(m: nat)
      reads this`content, data
    {
      m < data.Length == |content| && |content[m]| <= msgSize && |data[m]| == msgSize &&
      content[m] == data[m][..|content[m]|]
    }

    ghost predicate DataOk(m: nat)
      reads this`content, this`queue, data
    {
      m < data.Length ==> |data[m]| == msgSize && (m in queue ==> Loaded(m))
    }

    ghost predicate WorkOk(t: nat)
      reads this`content, this`taken, phase, data
    {
      t < phase.Length == |taken| && phase[t].Holds() && phase[t].node < data.Length ==>
        var m := phase[t].node;
        match phase[t]
        case Filling(_, mail, done, _) =>
          |data[m]| == msgSize && done <= |mail| <= msgSize && data[m][..done] == mail[..done]
        case Draining(_, want, got) =>
          Loaded(m) && content[m] == taken[t] && |got| <= Least(want, msgSize) && got == data[m][..|got|]
        case _ => true
    }

    /** The messages in the queue, next one first. */
    ghost function Messages(): seq<seq<bv8>>
      reads this`queue, this`content
    {
      Texts(queue, content)
    }

    // ----- the threads -----

    ghost predicate PhaseOk(t: nat)
      reads this`receivers, this`senders, this`wokenReceivers, this`wokenSenders, phase
    {
      if t < phase.Length then
        && (t in receivers <==> phase[t].RecvWait?)
        && (t in wokenReceivers <==> phase[t].RecvWoken?)
        && (t in senders <==> phase[t].SendWait?)
        && (t in wokenSenders <==> phase[t].SendWoken?)
        && (phase[t].SendWait? || phase[t].SendWoken? ==> |phase[t].mail| <= msgSize)
      else t !in receivers && t !in senders && t !in wokenReceivers && t !in wokenSenders
    }

    ghost predicate Threads()
      reads this`receivers, this`senders, this`wokenReceivers, this`wokenSenders, phase
    {
      Distinct(receivers) && Distinct(senders) && forall t: nat {:trigger PhaseOk(t)} :: PhaseOk(t)
    }

    /** No wakeup is lost: whoever is suspended, others have been woken for all there is to take. */
    ghost predicate NoneLost()
      reads this`receivers, this`senders, this`wokenReceivers, this`wokenSenders, this`entry, this`freeList
    {
      && (receivers != [] ==> entry <= |wokenReceivers|)
      && (senders != [] ==> |freeList| <= |wokenSenders|)
    }

    /** Everything but the promise about wakeups. */
    ghost predicate Core()
      reads this, next, data, phase
    {
      && Lists() && Partition() && Threads()
      && |content| == maxMsgs && |taken| == phase.Length
      && (forall m: nat {:trigger DataOk(m)} :: DataOk(m))
      && (forall t: nat {:trigger WorkOk(t)} :: WorkOk(t))
    }

    ghost predicate Valid()
      reads this, next, data, phase
    {
      Core() && NoneLost()
    }

    /** `rt_mq_init`. */
    constructor (msgSize: nat, poolSize: nat, flag: Discipline, threads: nat)
      ensures Valid() && Messages() == [] && received == [] && receivers == [] && senders == []
      ensures this.msgSize == SlotSize(msgSize) && maxMsgs == SlotCount(poolSize, this.msgSize)
      ensures |freeList| == maxMsgs && phase.Length == threads && this.flag == flag
      ensures forall t :: 0 <= t < threads ==> phase[t] == Idle
    {
      var msg := SlotSize(msgSize);
      var max := SlotCount(poolSize, msg);
      this.msgSize := msg;
      maxMsgs := max;
      this.flag := flag;
      next := new int[max];
      data := new seq<bv8>[max](_ => seq(msg, _ => 0));
      phase := new Phase[threads](_ => Idle);
      free, head, tail, entry := NULL, NULL, NULL, 0;
      receivers, senders, wokenReceivers, wokenSenders := [], [], {}, {};
      freeList, queue := [], [];
      owner := seq(max, _ => Free);
      content := seq(max, _ => []);
      received := [];
      taken := seq(threads, _ => []);
      new;
      FillFree();
      NothingBegun();
    }

    /** All nodes free and all threads outside make a valid queue. */
    lemma NothingBegun()
      requires Lists() && queue == [] && forall u: nat :: u in freeList <==> u < maxMsgs
      requires |owner| == |content| == maxMsgs && forall m :: 0 <= m < maxMsgs ==> owner[m] == Free
      requires |taken| == phase.Length && forall t :: 0 <= t < phase.Length ==> phase[t] == Idle
      requires forall m :: 0 <= m < data.Length ==> |data[m]| == msgSize
      requires receivers == [] && senders == [] && wokenReceivers == {} && wokenSenders == {}
      ensures Valid()
    {
      forall u: nat ensures OwnerOk(u) && DataOk(u) {
      }
      forall t: nat ensures HoldOk(t) && WorkOk(t) && PhaseOk(t) {
      }
    }

    /** All nodes go on the free list, one in front of the other. */
    method FillFree()
      requires Lists() && freeList == [] && queue == []
      modifies this`free, this`freeList, next
      ensures Lists() && |freeList| == maxMsgs && forall u: nat :: u in freeList <==> u < maxMsgs
    {
      for k := 0 to maxMsgs
        invariant Lists() && |freeList| == k && forall u: nat :: u in freeList <==> u < k
      {
        PushFree(k);
      }
    }

    // ----- edits of the two lists -----

    method PopFree() returns (m: nat)
      requires Lists() && freeList != []
      modifies this`free, this`freeList
      ensures Lists() && m == old(freeList)[0] && freeList == old(freeList)[1..]
      ensures forall u :: u in freeList <==> u in old(freeList) && u != m
    {
      Popped(next[..], freeList);
      m := free;
      free := next[m];
      freeList := freeList[1..];
    }

    method PushFree(m: nat)
      requires Lists() && m < maxMsgs && m !in freeList && m !in queue
      modifies this`free, this`freeList, next
      ensures Lists() && freeList == [m] + old(freeList)
      ensures forall u :: u in freeList <==> u in old(freeList) || u == m
      ensures forall u :: 0 <= u < next.Length && u != m ==> next[u] == old(next[u])
    {
      Pushed(next[..], freeList, m);
      next[m] := free;
      assert next[..] == old(next[..])[m := First(freeList)];
      Spared(old(next[..]), next[..], queue);
      free := m;
      freeList := [m] + freeList;
    }

    /** A message goes behind the last one. */
    method Append(m: nat)
      requires Lists() && m < maxMsgs && m !in freeList && m !in queue && next[m] == NULL
      requires forall u :: u in queue ==> u < maxMsgs
      requires forall u :: u in freeList ==> u !in queue
      modifies this`head, this`tail, this`queue, this`entry, next
      ensures Lists() && queue == old(queue) + [m]
      ensures forall u :: u in queue <==> u in old(queue) || u == m
      ensures forall u :: 0 <= u < next.Length && u !in queue ==> next[u] == old(next[u])
    {
      FewerThan(queue, m, maxMsgs);
      assert queue != [] ==> queue[|queue| - 1] in queue;
      if tail != NULL {
        next[tail] := m;
      }
      ghost var was := old(next[..]);
      assert next[..] == if queue == [] then was else was[Last(queue) := m];
      Appended(was, next[..], queue, m);
      Spared(was, next[..], freeList);
      tail := m;
      if head == NULL {
        head := m;
      }
      queue := queue + [m];
      Count();
    }

    /** An urgent message goes in front of the first one. */
    method Prepend(m: nat)
      requires Lists() && m < maxMsgs && m !in freeList && m !in queue
      requires forall u :: u in queue ==> u < maxMsgs
      modifies this`head, this`tail, this`queue, this`entry, next
      ensures Lists() && queue == [m] + old(queue)
      ensures forall u :: u in queue <==> u in old(queue) || u == m
      ensures forall u :: 0 <= u < next.Length && u != m ==> next[u] == old(next[u])
    {
      FewerThan(queue, m, maxMsgs);
      Pushed(next[..], queue, m);
      next[m] := head;
      assert next[..] == old(next[..])[m := First(queue)];
      Spared(old(next[..]), next[..], freeList);
      head := m;
      if tail == NULL {
        tail := m;
      }
      queue := [m] + queue;
      Count();
    }

    method Count()
      requires entry < ENTRY_MAX
      modifies this`entry
      ensures entry == old(entry) + 1
    {
      if entry < ENTRY_MAX {
        entry := entry + 1;
      } else {
        assert false;
      }
    }

    method PopQueue() returns (m: nat)
      requires Lists() && queue != []
      modifies this`head, this`tail, this`queue, this`entry
      ensures Lists() && m == old(queue)[0] && queue == old(queue)[1..]
      ensures forall u :: u in queue <==> u in old(queue) && u != m
    {
      Popped(next[..], queue);
      m := head;
      head := next[m];
      assert Differ(queue, 0, |queue| - 1);
      if tail == m {
        tail := NULL;
      }
      if entry > 0 {
        entry := entry - 1;
      }
      queue := queue[1..];
    }

    // ----- suspending and resuming -----

    /** Thread `t` moves between places in which it holds no node. */
    ghost predicate Outside(t: nat)
      reads phase
    {
      t < phase.Length && !phase[t].Holds()
    }

    method SuspendReceiver(t: nat, want: nat, prio: seq<int>)
      requires Valid() && Outside(t) && (phase[t] == Idle || phase[t].RecvWoken?) && entry == 0
      modifies this`receivers, this`wokenReceivers, phase
      ensures Valid() && receivers == Enqueued(old(receivers), t, prio, flag) && phase[t] == RecvWait(want)
      ensures forall u :: 0 <= u < phase.Length && u != t ==> phase[u] == old(phase[u])
    {
      assert PhaseOk(t);
      EnqueuedHas(receivers, t, prio, flag);
      receivers := Enqueued(receivers, t, prio, flag);
      wokenReceivers := wokenReceivers - {t};
      phase[t] := RecvWait(want);
      forall u: nat ensures PhaseOk(u) && HoldOk(u) {
        assert old(PhaseOk(u)) && old(HoldOk(u));
      }
      forall u: nat ensures OwnerOk(u) && WorkOk(u) {
        assert old(OwnerOk(u)) && old(WorkOk(u));
      }
    }

    method SuspendSender(t: nat, mail: seq<bv8>, prio: seq<int>)
      requires Valid() && Outside(t) && (phase[t] == Idle || phase[t].SendWoken?) && freeList == [] && |mail| <= msgSize
      modifies this`senders, this`wokenSenders, phase
      ensures Valid() && senders == Enqueued(old(senders), t, prio, flag) && phase[t] == SendWait(mail)
      ensures forall u :: 0 <= u < phase.Length && u != t ==> phase[u] == old(phase[u])
    {
      assert PhaseOk(t);
      EnqueuedHas(senders, t, prio, flag);
      senders := Enqueued(senders, t, prio, flag);
      wokenSenders := wokenSenders - {t};
      phase[t] := SendWait(mail);
      forall u: nat ensures PhaseOk(u) && HoldOk(u) {
        assert old(PhaseOk(u)) && old(HoldOk(u));
      }
      forall u: nat ensures OwnerOk(u) && WorkOk(u) {
        assert old(OwnerOk(u)) && old(WorkOk(u));
      }
    }

    /** Thread `t` runs again, if it was woken. */
    method Enter(t: nat)
      requires Core() && Outside(t) && (phase[t] == Idle || phase[t].SendWoken? || phase[t].RecvWoken?)
      modifies this`wokenReceivers, this`wokenSenders, phase
      ensures Core() && phase[t] == Idle
      ensures |wokenReceivers| == |old(wokenReceivers)| - if old(phase[t]).RecvWoken? then 1 else 0
      ensures |wokenSenders| == |old(wokenSenders)| - if old(phase[t]).SendWoken? then 1 else 0
      ensures forall u :: 0 <= u < phase.Length && u != t ==> phase[u] == old(phase[u])
    {
      assert PhaseOk(t);
      if phase[t].RecvWoken? {
        wokenReceivers := wokenReceivers - {t};
      } else if phase[t].SendWoken? {
        wokenSenders := wokenSenders - {t};
      }
      phase[t] := Idle;
      forall u: nat ensures PhaseOk(u) && HoldOk(u) {
        assert old(PhaseOk(u)) && old(HoldOk(u));
      }
      forall u: nat ensures OwnerOk(u) && WorkOk(u) {
        assert old(OwnerOk(u)) && old(WorkOk(u));
      }
    }

    /** Thread `t` gives up a call that blocked, or never began. */
    method GiveUp(t: nat)
      requires Valid() && Outside(t) && (phase[t] == Idle || phase[t].SendWoken? || phase[t].RecvWoken?)
      requires (phase[t].SendWoken? ==> freeList == []) && (phase[t].RecvWoken? ==> entry == 0)
      modifies this`wokenReceivers, this`wokenSenders, phase
      ensures Valid() && phase[t] == Idle
      ensures forall u :: 0 <= u < phase.Length && u != t ==> phase[u] == old(phase[u])
    {
      Enter(t);
    }

    /** Node `m` changes hands and thread `t` moves on; the lists have been edited already. */
    method Transfer(t: nat, m: nat, p: Phase, ghost o: Owner)
      requires t < phase.Length && m < maxMsgs == |owner| && next.Length == maxMsgs && phase as object != next
      requires (forall u :: u in freeList ==> u < maxMsgs) && (forall u :: u in queue ==> u < maxMsgs)
      requires forall u: nat {:trigger OwnerOk(u)} :: u != m ==> OwnerOk(u)
      requires forall u: nat {:trigger HoldOk(u)} :: u != t ==> HoldOk(u)
      requires (m in freeList <==> o == Free) && (m in queue <==> o == Queued)
      requires o.Held? <==> p.Holds()
      requires p.Holds() ==> o == Held(t) && p.node == m && (p.Filling? && !p.urgent ==> next[m] == NULL)
      requires owner[m].Held? ==> owner[m] == Held(t)
      requires phase[t].Holds() ==> phase[t].node == m
      requires Threads() && (phase[t] == Idle || phase[t].Holds()) && (p == Idle || p.Holds())
      modifies this`owner, phase
      ensures Partition() && Threads() && phase[t] == p && owner == old(owner)[m := o]
      ensures forall u :: 0 <= u < phase.Length && u != t ==> phase[u] == old(phase[u])
    {
      owner := owner[m := o];
      phase[t] := p;
      forall u: nat ensures OwnerOk(u) {
        assert u != m ==> old(OwnerOk(u));
      }
      forall u: nat ensures HoldOk(u) {
        assert u != t ==> old(HoldOk(u));
      }
      forall u: nat ensures PhaseOk(u) {
        assert old(PhaseOk(u));
      }
    }

    // ----- sending -----

    /** A node leaves the free list.  The write to its link happens with interrupts enabled, but nobody else uses the
        node. */
    method TakeFree(urgent: bool) returns (m: nat)
      requires Lists() && freeList != [] && forall u :: u in freeList ==> u !in queue
      modifies this`free, this`freeList, next
      ensures Lists() && m == old(freeList)[0] && freeList == old(freeList)[1..]
      ensures (!urgent ==> m < next.Length && next[m] == NULL)
      ensures forall u :: u in freeList <==> u in old(freeList) && u != m
      ensures forall u :: 0 <= u < next.Length && u != m ==> next[u] == old(next[u])
    {
      assert freeList[0] in freeList;
      Popped(next[..], freeList);
      m := PopFree();
      ghost var was := next[..];
      if !urgent {
        next[m] := NULL;
      }
      Spared(was, next[..], freeList);
      Spared(was, next[..], queue);
    }

    /** Take a free node to fill. */
    method Grab(t: nat, mail: seq<bv8>, urgent: bool)
      requires Valid() && Outside(t) && (phase[t] == Idle || phase[t].SendWoken?) && |mail| <= msgSize && freeList != []
      modifies this`free, this`freeList, this`owner, this`wokenReceivers, this`wokenSenders, next, phase
      ensures Valid() && phase[t] == Filling(old(freeList)[0], mail, 0, urgent) && freeList == old(freeList)[1..]
      ensures forall u :: 0 <= u < phase.Length && u != t ==> phase[u] == old(phase[u])
    {
      Enter(t);
      GrabIdle(t, mail, urgent);
    }

    method GrabIdle(t: nat, mail: seq<bv8>, urgent: bool)
      requires Core() && t < phase.Length && phase[t] == Idle && |mail| <= msgSize && freeList != []
      modifies this`free, this`freeList, this`owner, next, phase
      ensures Core() && phase[t] == Filling(old(freeList)[0], mail, 0, urgent) && freeList == old(freeList)[1..]
      ensures forall u :: 0 <= u < phase.Length && u != t ==> phase[u] == old(phase[u])
    {
      assert freeList[0] in freeList && OwnerOk(freeList[0]) && DataOk(freeList[0]);
      assert forall u: nat :: u in freeList ==> OwnerOk(u);
      var m := TakeFree(urgent);
      forall u: nat | u != m ensures OwnerOk(u) {
        assert old(OwnerOk(u));
      }
      forall u: nat | u != t ensures HoldOk(u) {
        assert old(HoldOk(u));
      }
      Transfer(t, m, Filling(m, mail, 0, urgent), Held(t));
      forall u: nat ensures WorkOk(u) {
        assert old(WorkOk(u));
      }
    }

    /** One byte of `rt_memcpy` into the node thread `t` is filling. */
    method CopyIn(t: nat)
      requires Valid() && t < phase.Length && phase[t].Filling? && phase[t].done < |phase[t].mail|
      modifies data, phase
      ensures Valid() && phase[t] == old(phase[t]).(done := old(phase[t]).done + 1)
      ensures forall u :: 0 <= u < phase.Length && u != t ==> phase[u] == old(phase[u])
    {
      assert PhaseOk(t) && HoldOk(t) && WorkOk(t) && OwnerOk(phase[t].node);
      var m, k := phase[t].node, phase[t].done;
      ghost var was := data[m];
      data[m] := data[m][k := phase[t].mail[k]];
      assert data[m][..k + 1] == was[..k] + [phase[t].mail[k]];
      phase[t] := phase[t].(done := k + 1);
      forall u: nat ensures PhaseOk(u) && OwnerOk(u) && DataOk(u) {
        assert old(PhaseOk(u)) && old(OwnerOk(u)) && old(DataOk(u));
      }
      forall u: nat ensures HoldOk(u) && WorkOk(u) {
        assert old(HoldOk(u)) && old(WorkOk(u));
      }
    }

    /** `rt_ipc_list_resume` on the receivers. */
    method WakeReceiver()
      requires Core() && receivers != []
      modifies this`receivers, this`wokenReceivers, phase
      ensures Core() && receivers == old(receivers)[1..] && |wokenReceivers| == old(|wokenReceivers|) + 1
      ensures forall u :: 0 <= u < phase.Length ==>
                phase[u] == if u == old(receivers)[0] then Resumed(old(phase[u])) else old(phase[u])
      ensures old(receivers)[0] < phase.Length && old(phase[..])[old(receivers)[0]].RecvWait?
    {
      ghost var list := receivers;
      var t := receivers[0];
      assert t in receivers && PhaseOk(t);
      DistinctTail(list);
      receivers := receivers[1..];
      wokenReceivers := wokenReceivers + {t};
      phase[t] := Resumed(phase[t]);
      forall u: nat ensures PhaseOk(u) && HoldOk(u) {
        assert old(PhaseOk(u)) && old(HoldOk(u));
      }
      forall u: nat ensures OwnerOk(u) && WorkOk(u) {
        assert old(OwnerOk(u)) && old(WorkOk(u));
      }
    }

    /** `rt_ipc_list_resume` on the senders. */
    method WakeSender()
      requires Core() && senders != []
      modifies this`senders, this`wokenSenders, phase
      ensures Core() && senders == old(senders)[1..] && |wokenSenders| == old(|wokenSenders|) + 1
      ensures forall u :: 0 <= u < phase.Length ==>
                phase[u] == if u == old(senders)[0] then Resumed(old(phase[u])) else old(phase[u])
      ensures old(senders)[0] < phase.Length && old(phase[..])[old(senders)[0]].SendWait?
    {
      ghost var list := senders;
      var t := senders[0];
      assert t in senders && PhaseOk(t);
      DistinctTail(list);
      senders := senders[1..];
      wokenSenders := wokenSenders + {t};
      phase[t] := Resumed(phase[t]);
      forall u: nat ensures PhaseOk(u) && HoldOk(u) {
        assert old(PhaseOk(u)) && old(HoldOk(u));
      }
      forall u: nat ensures OwnerOk(u) && WorkOk(u) {
        assert old(OwnerOk(u)) && old(WorkOk(u));
      }
    }

    /** Node `m` joins the queue with the message `mail`. */
    method Link(m: nat, urgent: bool, ghost mail: seq<bv8>)
      requires Lists() && m < maxMsgs == |content| && m !in freeList && m !in queue && (!urgent ==> next[m] == NULL)
      requires (forall u :: u in queue ==> u < maxMsgs) && forall u :: u in freeList ==> u !in queue
      modifies this`head, this`tail, this`queue, this`entry, this`content, next
      ensures Lists() && entry == old(entry) + 1 && content == old(content)[m := mail]
      ensures Messages() == if urgent then [mail] + old(Messages()) else old(Messages()) + [mail]
      ensures forall u :: u in queue <==> u in old(queue) || u == m
      ensures forall u :: 0 <= u < next.Length && u !in queue ==> next[u] == old(next[u])
    {
      content := content[m := mail];
      forall i | 0 <= i < |queue| ensures queue[i] != m {
        assert queue[i] in queue;
      }
      assert Messages() == old(Messages());
      if urgent {
        Prepend(m);
      } else {
        Append(m);
      }
    }

    /** Thread `t` links the node it has filled. */
    method Attach(t: nat)
      requires Valid() && t < phase.Length && phase[t].Filling? && phase[t].done == |phase[t].mail|
      modifies this`head, this`tail, this`queue, this`entry, this`owner, this`content, next, phase
      ensures Core() && phase[t] == Idle && entry == old(entry) + 1
      ensures var mail := old(phase[t]).mail; Messages() == if old(phase[t]).urgent then [mail] + old(Messages())
                                                            else old(Messages()) + [mail]
      ensures forall u :: 0 <= u < phase.Length && u != t ==> phase[u] == old(phase[u])
    {
      assert PhaseOk(t) && HoldOk(t) && WorkOk(t) && OwnerOk(phase[t].node);
      assert forall u: nat :: u in freeList ==> OwnerOk(u);
      var m, urgent := phase[t].node, phase[t].urgent;
      Link(m, urgent, phase[t].mail);
      forall u: nat | u != m ensures OwnerOk(u) {
        assert old(OwnerOk(u));
      }
      forall u: nat | u != t ensures HoldOk(u) {
        assert old(HoldOk(u)) && old(OwnerOk(if u < phase.Length && phase[u].Holds() then phase[u].node else 0));
      }
      Transfer(t, m, Idle, Queued);
      forall u: nat ensures WorkOk(u) {
        assert old(WorkOk(u)) && old(HoldOk(u));
        assert u < phase.Length && phase[u].Holds() ==> u != t && phase[u].node != m;
      }
      forall u: nat ensures DataOk(u) {
        assert old(DataOk(u));
      }
    }

    /** The last region of a send: the message is linked, and a receiver, if one is suspended, is resumed. */
    method FinishSend(t: nat)
      requires Valid() && t < phase.Length && phase[t].Filling? && phase[t].done == |phase[t].mail|
      modifies this`head, this`tail, this`queue, this`entry, this`owner, this`content, this`receivers,
               this`wokenReceivers, next, phase
      ensures Valid() && phase[t] == Idle
      ensures var mail := old(phase[t]).mail; Messages() == if old(phase[t]).urgent then [mail] + old(Messages())
                                                            else old(Messages()) + [mail]
      ensures receivers == if old(receivers) == [] then [] else old(receivers)[1..]
      ensures forall u :: 0 <= u < phase.Length && u != t ==>
                phase[u] == if old(receivers) != [] && u == old(receivers)[0] then Resumed(old(phase[u]))
                else old(phase[u])
    {
      assert PhaseOk(t);
      Attach(t);
      ServeOne(old(entry));
    }

    /** The first receiver, if there is one, is resumed for the message that has just been linked. */
    method ServeOne(ghost n: nat)
      requires Core() && entry == n + 1 && (receivers != [] ==> n <= |wokenReceivers|)
      requires senders != [] ==> |freeList| <= |wokenSenders|
      modifies this`receivers, this`wokenReceivers, phase
      ensures Valid() && receivers == if old(receivers) == [] then [] else old(receivers)[1..]
      ensures forall u :: 0 <= u < phase.Length ==>
                phase[u] == if old(receivers) != [] && u == old(receivers)[0] then Resumed(old(phase[u]))
                else old(phase[u])
    {
      if receivers != [] {
        assert receivers[0] in receivers;
        WakeReceiver();
      }
    }

    // ----- receiving -----

    /** Thread `t`, which holds no node, is to read the message `mail`. */
    ghost method Record(t: nat, mail: seq<bv8>)
      requires Valid() && Outside(t)
      modifies this`taken, this`received
      ensures Valid() && taken == old(taken)[t := mail] && received == old(received) + [mail]
    {
      taken := taken[t := mail];
      received := received + [mail];
      forall u: nat ensures WorkOk(u) {
        assert old(WorkOk(u));
      }
    }

    /** Take the first message's node to read. */
    method Detach(t: nat, want: nat)
      requires Valid() && Outside(t) && (phase[t] == Idle || phase[t].RecvWoken?) && queue != []
      modifies this`head, this`tail, this`queue, this`entry, this`owner, this`taken, this`received, phase
      modifies this`wokenReceivers, this`wokenSenders
      ensures Valid() && phase[t] == Draining(old(queue)[0], want, [])
      ensures old(Messages()) == [taken[t]] + Messages() && received == old(received) + [taken[t]]
      ensures taken == old(taken)[t := taken[t]]
      ensures forall u :: 0 <= u < phase.Length && u != t ==> phase[u] == old(phase[u])
    {
      assert PhaseOk(t) && queue[0] in queue && OwnerOk(queue[0]) && DataOk(queue[0]);
      Record(t, content[queue[0]]);
      TakeFirst(t, want);
      assert old(Messages()) == [taken[t]] + Messages();
    }

    method TakeFirst(t: nat, want: nat)
      requires Valid() && Outside(t) && (phase[t] == Idle || phase[t].RecvWoken?) && queue != [] && queue[0] < maxMsgs
      requires taken[t] == content[queue[0]]
      modifies this`head, this`tail, this`queue, this`entry, this`owner, this`wokenReceivers, this`wokenSenders, phase
      ensures Valid() && phase[t] == Draining(old(queue)[0], want, []) && queue == old(queue)[1..]
      ensures forall u :: 0 <= u < phase.Length && u != t ==> phase[u] == old(phase[u])
    {
      Enter(t);
      TakeIdle(t, want);
    }

    method TakeIdle(t: nat, want: nat)
      requires Core() && t < phase.Length && phase[t] == Idle && queue != [] && queue[0] < maxMsgs
      requires taken[t] == content[queue[0]]
      modifies this`head, this`tail, this`queue, this`entry, this`owner, phase
      ensures Core() && phase[t] == Draining(old(queue)[0], want, []) && queue == old(queue)[1..]
      ensures forall u :: 0 <= u < phase.Length && u != t ==> phase[u] == old(phase[u])
    {
      assert queue[0] in queue && OwnerOk(queue[0]) && DataOk(queue[0]);
      var m := PopQueue();
      forall u: nat | u != m ensures OwnerOk(u) {
        assert old(OwnerOk(u));
      }
      forall u: nat | u != t ensures HoldOk(u) {
        assert old(HoldOk(u));
      }
      Transfer(t, m, Draining(m, want, []), Held(t));
      forall u: nat ensures DataOk(u) {
        assert old(DataOk(u));
      }
      forall u: nat ensures WorkOk(u) {
        assert old(WorkOk(u));
      }
    }

    /** One byte of `rt_memcpy` out of the node thread `t` is reading. */
    method CopyOut(t: nat)
      requires Valid() && t < phase.Length && phase[t].Draining? && |phase[t].got| < Least(phase[t].want, msgSize)
      modifies phase
      ensures Valid() && phase[t].Draining? && |phase[t].got| == |old(phase[t].got)| + 1
      ensures phase[t] == old(phase[t]).(got := phase[t].got)
      ensures forall u :: 0 <= u < phase.Length && u != t ==> phase[u] == old(phase[u])
    {
      assert PhaseOk(t) && HoldOk(t) && WorkOk(t);
      var m, k := phase[t].node, |phase[t].got|;
      assert data[m][..k + 1] == data[m][..k] + [data[m][k]];
      phase[t] := phase[t].(got := phase[t].got + [data[m][k]]);
      forall u: nat ensures PhaseOk(u) && HoldOk(u) {
        assert old(PhaseOk(u)) && old(HoldOk(u));
      }
      forall u: nat ensures OwnerOk(u) && WorkOk(u) {
        assert old(OwnerOk(u)) && old(WorkOk(u));
      }
    }

    /** Thread `t` gives the node it has read back to the free list. */
    method GiveBack(t: nat)
      requires Valid() && t < phase.Length && phase[t].Draining?
      modifies this`free, this`freeList, this`owner, next, phase
      ensures Core() && phase[t] == Idle && freeList == [old(phase[t]).node] + old(freeList)
      ensures forall u :: 0 <= u < phase.Length && u != t ==> phase[u] == old(phase[u])
    {
      assert PhaseOk(t) && HoldOk(t) && WorkOk(t) && OwnerOk(phase[t].node);
      var m := phase[t].node;
      PushFree(m);
      forall u: nat | u != m ensures OwnerOk(u) {
        assert old(OwnerOk(u));
      }
      forall u: nat | u != t ensures HoldOk(u) {
        assert old(HoldOk(u));
      }
      Transfer(t, m, Idle, Free);
      forall u: nat ensures WorkOk(u) {
        assert old(WorkOk(u));
      }
    }

    /** The last region of `rt_mq_recv`; the caller's buffer has the message's bytes, as many as it asked for. */
    method FinishReceive(t: nat) returns (got: seq<bv8>)
      requires Valid() && t < phase.Length && phase[t].Draining? && |phase[t].got| == Least(phase[t].want, msgSize)
      modifies this`free, this`freeList, this`owner, this`senders, this`wokenSenders, next, phase
      ensures Valid() && phase[t] == Idle
      ensures |got| == Least(old(phase[t]).want, msgSize) && t < |taken| && |taken[t]| <= msgSize
      ensures var k := Least(|taken[t]|, |got|); got[..k] == taken[t][..k]
      ensures freeList == [old(phase[t]).node] + old(freeList)
      ensures senders == if old(senders) == [] then [] else old(senders)[1..]
      ensures forall u :: 0 <= u < phase.Length && u != t ==>
                phase[u] == if old(senders) != [] && u == old(senders)[0] then Resumed(old(phase[u])) else old(phase[u])
    {
      assert PhaseOk(t) && HoldOk(t) && WorkOk(t);
      got := phase[t].got;
      GiveBack(t);
      if senders != [] {
        assert senders[0] in senders;
        WakeSender();
      }
    }

    // ----- the regions -----

    /** The first region of `rt_mq_send_wait`, or one after thread `t` was resumed. */
    method Send(t: nat, mail: seq<bv8>, timeout: int, prio: seq<int>) returns (out: Outcome)
      requires Valid() && t < phase.Length && (phase[t] == Idle || phase[t] == SendWoken(mail))
      modifies this`free, this`freeList, this`owner, this`senders, this`wokenSenders, this`wokenReceivers, next, phase
      ensures Valid()
      ensures out == if |mail| > msgSize then Rejected
                     else if old(freeList) != [] then Holding else if timeout == 0 then Full else Blocked
      ensures phase[t] == match out
                          case Holding => Filling(old(freeList)[0], mail, 0, false)
                          case Blocked => SendWait(mail)
                          case _ => Idle
      ensures freeList == if out == Holding then old(freeList)[1..] else old(freeList)
      ensures senders == if out == Blocked then Enqueued(old(senders), t, prio, flag) else old(senders)
      ensures forall u :: 0 <= u < phase.Length && u != t ==> phase[u] == old(phase[u])
    {
      assert PhaseOk(t);
      if |mail| > msgSize {
        return Rejected;
      }
      if free == NULL {
        if timeout == 0 {
          GiveUp(t);
          return Full;
        }
        SuspendSender(t, mail, prio);
        return Blocked;
      }
      Grab(t, mail, false);
      return Holding;
    }

    /** The first region of `rt_mq_urgent`. */
    method Urgent(t: nat, mail: seq<bv8>) returns (out: Outcome)
      requires Valid() && t < phase.Length && phase[t] == Idle
      modifies this`free, this`freeList, this`owner, this`wokenReceivers, this`wokenSenders, next, phase
      ensures Valid()
      ensures out == if |mail| > msgSize then Rejected else if old(freeList) != [] then Holding else Full
      ensures phase[t] == if out == Holding then Filling(old(freeList)[0], mail, 0, true) else Idle
      ensures freeList == if out == Holding then old(freeList)[1..] else old(freeList)
      ensures forall u :: 0 <= u < phase.Length && u != t ==> phase[u] == old(phase[u])
    {
      if |mail| > msgSize {
        return Rejected;
      }
      if free == NULL {
        return Full;
      }
      Grab(t, mail, true);
      return Holding;
    }

    /** The first region of `rt_mq_recv`, or one after thread `t` was resumed. */
    method Receive(t: nat, want: nat, timeout: int, prio: seq<int>) returns (out: Outcome)
      requires Valid() && t < phase.Length && (phase[t] == Idle || phase[t] == RecvWoken(want))
      modifies this`head, this`tail, this`queue, this`entry, this`owner, this`taken, this`received, phase
      modifies this`receivers, this`wokenReceivers, this`wokenSenders
      ensures Valid()
      ensures out == if old(Messages()) != [] then Holding else if timeout == 0 then TimedOut else Blocked
      ensures out == Holding ==> phase[t] == Draining(old(queue)[0], want, [])
      ensures out != Holding ==> phase[t] == if out == Blocked then RecvWait(want) else Idle
      ensures out == Holding ==> old(Messages()) == [taken[t]] + Messages() && received == old(received) + [taken[t]]
      ensures out == Holding ==> taken == old(taken)[t := taken[t]]
      ensures out != Holding ==> Messages() == old(Messages()) && received == old(received) && taken == old(taken)
      ensures receivers == if out == Blocked then Enqueued(old(receivers), t, prio, flag) else old(receivers)
      ensures forall u :: 0 <= u < phase.Length && u != t ==> phase[u] == old(phase[u])
    {
      if entry == 0 {
        if timeout == 0 {
          GiveUp(t);
          return TimedOut;
        }
        SuspendReceiver(t, want, prio);
        return Blocked;
      }
      Detach(t, want);
      return Holding;
    }

    /** `rt_thread_timeout` for a thread suspended on the queue; its call returns an error. */
    method Timeout(t: nat)
      requires Valid() && t < phase.Length && phase[t].Waits()
      modifies this`receivers, this`senders, phase
      ensures Valid() && phase[t] == Idle
      ensures receivers == if old(phase[t]).RecvWait? then Dropped(old(receivers), t) else old(receivers)
      ensures senders == if old(phase[t]).RecvWait? then old(senders) else Dropped(old(senders), t)
      ensures forall u :: 0 <= u < phase.Length && u != t ==> phase[u] == old(phase[u])
    {
      assert PhaseOk(t);
      if phase[t].RecvWait? {
        DroppedHas(receivers, t);
        receivers := Dropped(receivers, t);
      } else {
        DroppedHas(senders, t);
        senders := Dropped(senders, t);
      }
      phase[t] := Idle;
      forall u: nat ensures PhaseOk(u) && HoldOk(u) {
        assert old(PhaseOk(u)) && old(HoldOk(u));
      }
      forall u: nat ensures OwnerOk(u) && WorkOk(u) {
        assert old(OwnerOk(u)) && old(WorkOk(u));
      }
    }

    /** `rt_ipc_list_resume_all` on both lists. */
    method ReleaseAll()
      requires Valid()
      modifies this`receivers, this`senders, phase
      ensures Valid() && receivers == [] && senders == []
      ensures forall u :: 0 <= u < phase.Length ==> phase[u] == if old(phase[u]).Waits() then Idle else old(phase[u])
    {
      while receivers != []
        invariant Valid()
        invariant forall u :: 0 <= u < phase.Length ==>
                    phase[u] == old(phase[u]) || (phase[u] == Idle && old(phase[u]).Waits())
        decreases |receivers|
      {
        assert receivers[0] in receivers && PhaseOk(receivers[0]);
        Timeout(receivers[0]);
      }
      while senders != []
        invariant Valid() && receivers == []
        invariant forall u :: 0 <= u < phase.Length ==>
                    phase[u] == old(phase[u]) || (phase[u] == Idle && old(phase[u]).Waits())
        decreases |senders|
      {
        assert senders[0] in senders && PhaseOk(senders[0]);
        Timeout(senders[0]);
      }
      forall u: nat | u < phase.Length ensures !phase[u].Waits() {
        assert PhaseOk(u);
      }
    }

    /** The first queued message is discarded. */
    method Discard()
      requires Ends() && Partition() && queue != []
      modifies this`free, this`head, this`tail, this`freeList, this`queue, this`owner, next
      ensures Ends() && Partition() && queue == old(queue)[1..]
      ensures forall u :: u in queue ==> u in old(queue)
    {
      assert queue[0] in queue && OwnerOk(queue[0]) && Differ(queue, 0, |queue| - 1);
      Popped(next[..], queue);
      var m := head;
      head := next[m];
      if tail == m {
        tail := NULL;
      }
      queue := queue[1..];
      Pushed(next[..], freeList, m);
      ghost var was := next[..];
      next[m] := free;
      assert next[..] == was[m := First(freeList)];
      Spared(was, next[..], queue);
      free := m;
      freeList := [m] + freeList;
      owner := owner[m := Free];
      forall u: nat ensures OwnerOk(u) {
        assert old(OwnerOk(u));
      }
      forall u: nat ensures HoldOk(u) {
        assert old(HoldOk(u));
      }
    }

    /** `rt_mq_control` with the reset command: the queued messages are discarded, the ones being copied are not. */
    method Reset()
      requires Valid()
      modifies this`free, this`head, this`tail, this`entry, this`freeList, this`queue, this`owner, this`receivers,
               this`senders, next, phase
      ensures Valid() && Messages() == [] && receivers == [] && senders == []
      ensures forall u :: 0 <= u < phase.Length ==> phase[u] == if old(phase[u]).Waits() then Idle else old(phase[u])
    {
      ReleaseAll();
      DiscardAll();
    }

    method DiscardAll()
      requires Valid() && receivers == [] && senders == []
      modifies this`free, this`head, this`tail, this`entry, this`freeList, this`queue, this`owner, next
      ensures Valid() && queue == []
    {
      while head != NULL
        invariant Ends() && Partition() && forall u :: u in queue ==> u in old(queue)
        decreases |queue|
      {
        Discard();
      }
      entry := 0;
      forall u: nat ensures PhaseOk(u) && WorkOk(u) && DataOk(u) {
        assert old(PhaseOk(u)) && old(WorkOk(u)) && old(DataOk(u));
      }
    }

    // ----- runs -----

    /** No thread is ever stuck: there is a step it can take. */
    lemma NeverStuck(t: nat)
      requires Valid() && t < phase.Length
      ensures exists step: Step :: !step.ResetStep? && step.thread == t && Enabled(msgSize, step, phase[..])
    {
      var step := match phase[t]
        case Idle => SendStep(t, [], 0, [])
        case RecvWait(_) => TimeoutStep(t)
        case SendWait(_) => TimeoutStep(t)
        case RecvWoken(want) => ReceiveStep(t, want, 0, [])
        case SendWoken(mail) => SendStep(t, mail, 0, [])
        case Filling(_, mail, done, _) => if done < |mail| then CopyInStep(t) else FinishSendStep(t)
        case Draining(_, want, got) => if |got| < Least(want, msgSize) then CopyOutStep(t) else FinishReceiveStep(t);
      assert HoldOk(t) && WorkOk(t) && Enabled(msgSize, step, phase[..]);
    }

    /** When every call has ended or is suspended, receivers wait only for an empty queue and senders only for a full
        one. */
    lemma Quiescent()
      requires Valid() && forall t :: 0 <= t < phase.Length ==> phase[t] == Idle || phase[t].Waits()
      ensures receivers != [] ==> Messages() == []
      ensures senders != [] ==> |Messages()| == maxMsgs
      ensures |freeList| + |Messages()| == maxMsgs
    {
      forall t: nat ensures t !in wokenReceivers && t !in wokenSenders {
        assert PhaseOk(t);
      }
      assert wokenReceivers == {} && wokenSenders == {};
      var both := freeList + queue;
      assert forall m: nat :: m in freeList || m in queue ==> OwnerOk(m);
      forall i, j ensures Differ(both, i, j) {
        assert Differ(freeList, i, j) && Differ(queue, i - |freeList|, j - |freeList|);
        if 0 <= i < |freeList| <= j < |both| { assert both[i] in freeList && both[j] in queue; }
      }
      forall m | 0 <= m < maxMsgs ensures m in both {
        assert OwnerOk(m);
      }
      AtMost(both, maxMsgs);
      AtLeast(both, maxMsgs);
    }

    ghost function Current(): History
      reads this`queue, this`content, this`received, this`taken
    {
      History(Messages(), received, taken)
    }

    ghost function Now(): State
      reads this`queue, this`content, this`received, this`taken, this`freeList, this`receivers, this`senders, phase
    {
      State(Current(), phase[..], freeList, receivers, senders)
    }

    /** The first of a list of waiting threads waits. */
    lemma FirstWaits(list: seq<nat>)
      requires Valid() && (list == receivers || list == senders) && list != []
      ensures list[0] < phase.Length && phase[list[0]].Waits()
    {
      assert list[0] in list && PhaseOk(list[0]);
    }

    method DoSend(step: Step) returns (ghost e: Option<Event>)
      requires Valid() && Enabled(msgSize, step, phase[..]) && step.SendStep?
      modifies this, next, data, phase
      ensures Valid() && Next(msgSize, flag, step, old(Now()), e, Now())
    {
      e := None;
      var t := step.thread;
      ghost var s := Now();
      var out := Send(t, step.mail, step.timeout, step.prio);
      ghost var u := Now();
      assert u.phases == s.phases[t := phase[t]] && u.history == s.history;
      assert Sending(msgSize, flag, step, s, u);
    }

    method DoCopyIn(step: Step) returns (ghost e: Option<Event>)
      requires Valid() && Enabled(msgSize, step, phase[..]) && (step.UrgentStep? || step.CopyInStep?)
      modifies this, next, data, phase
      ensures Valid() && Next(msgSize, flag, step, old(Now()), e, Now())
    {
      e := None;
      match step
      case UrgentStep(t, mail) => var out := Urgent(t, mail);
      case CopyInStep(t) => CopyIn(t);
    }

    method DoFinishSend(step: Step) returns (ghost e: Option<Event>)
      requires Valid() && Enabled(msgSize, step, phase[..]) && step.FinishSendStep?
      modifies this, next, data, phase
      ensures Valid() && Next(msgSize, flag, step, old(Now()), e, Now())
    {
      var t := step.thread;
      e := Some(Linked(t, phase[t].mail, phase[t].urgent));
      if receivers != [] { FirstWaits(receivers); }
      ghost var s := Now();
      FinishSend(t);
      ghost var u := Now();
      assert u.phases == Woken(s.phases[t := Idle], s.receivers);
      assert Sending(msgSize, flag, step, s, u) && u.history == After(s.history, e);
    }

    method DoReceive(step: Step) returns (ghost e: Option<Event>)
      requires Valid() && Enabled(msgSize, step, phase[..]) && step.ReceiveStep?
      modifies this, next, data, phase
      ensures Valid() && Next(msgSize, flag, step, old(Now()), e, Now())
    {
      e := None;
      ghost var before := Messages();
      var out := Receive(step.thread, step.want, step.timeout, step.prio);
      if out == Holding {
        e := Some(Taken(step.thread));
        assert before[0] == taken[step.thread] && before[1..] == Messages();
      }
    }

    method DoCopyOut(step: Step) returns (ghost e: Option<Event>)
      requires Valid() && Enabled(msgSize, step, phase[..]) && (step.CopyOutStep? || step.TimeoutStep?)
      modifies this, next, data, phase
      ensures Valid() && Next(msgSize, flag, step, old(Now()), e, Now())
    {
      e := None;
      match step
      case CopyOutStep(t) => CopyOut(t);
      case TimeoutStep(t) => Timeout(t);
    }

    method DoFinishReceive(step: Step) returns (ghost e: Option<Event>)
      requires Valid() && Enabled(msgSize, step, phase[..]) && step.FinishReceiveStep?
      modifies this, next, data, phase
      ensures Valid() && Next(msgSize, flag, step, old(Now()), e, Now())
    {
      var t := step.thread;
      if senders != [] { FirstWaits(senders); }
      var got := FinishReceive(t);
      e := Some(Delivered(t, got));
    }

    method Do(step: Step) returns (ghost e: Option<Event>)
      requires Valid()
      modifies this, next, data, phase
      ensures Valid() && Next(msgSize, flag, step, old(Now()), e, Now())
    {
      if !Enabled(msgSize, step, phase[..]) {
        return None;
      }
      match step
      case SendStep(_, _, _, _) => e := DoSend(step);
      case UrgentStep(_, _) => e := DoCopyIn(step);
      case CopyInStep(_) => e := DoCopyIn(step);
      case FinishSendStep(_) => e := DoFinishSend(step);
      case ReceiveStep(_, _, _, _) => e := DoReceive(step);
      case CopyOutStep(_) => e := DoCopyOut(step);
      case TimeoutStep(_) => e := DoCopyOut(step);
      case FinishReceiveStep(_) => e := DoFinishReceive(step);
      case ResetStep =>
        Reset();
        e := Some(Cleared);
    }

    /** Nobody is on the way of sending an urgent message. */
    ghost predicate Calm()
      reads phase
    {
      forall t :: 0 <= t < phase.Length && Carries(phase[t]).Some? ==> !Carries(phase[t]).value.1
    }

    /** Any interleaving of steps, with its states and what happened.  The messages received and queued are the replay
        of what happened, urgent messages in front of what was queued; every message linked was sent by that thread;
        and the bytes delivered are those of the message taken.  See `InOrder` and `NothingLost` for what follows. */
    method Run(steps: seq<Step>) returns (ghost trace: seq<State>, ghost events: seq<Option<Event>>)
      requires Valid()
      modifies this, next, data, phase
      ensures Valid() && Traced(msgSize, flag, steps, trace, events) && trace[0] == old(Now())
      ensures trace[|steps|] == Now()
      ensures var log := Happened(events);
        && Current() == Replay(old(Current()), log) && Faithful(old(Current()), log)
        && (forall e :: e in log && e.Linked? ==> Begun(steps, old(phase[..]), e.thread, e.mail, e.urgent))
        && old(received) <= received && (ResetStep !in steps ==> Cleared !in log)
        && (old(Calm()) && (forall s :: s in steps ==> !s.UrgentStep? && !s.ResetStep?) ==>
              received + Messages() == old(received + Messages()) + Mails(log))
    {
      ghost var start, was, calm := Current(), phase[..], Calm();
      trace, events := [Now()], [];
      for i := 0 to |steps|
        invariant Valid() && |trace| == i + 1 && |events| == i && trace[0] == old(Now()) && trace[i] == Now()
        invariant forall j :: 0 <= j < i ==> Next(msgSize, flag, steps[j], trace[j], events[j], trace[j + 1])
      {
        ghost var e := Do(steps[i]);
        trace, events := trace + [Now()], events + [e];
      }
      ghost var log := Happened(events);
      Told(msgSize, flag, steps, trace, events, |steps|);
      assert events[..|steps|] == events;
      Prefix(start, log);
      if calm && forall s :: s in steps ==> !s.UrgentStep? && !s.ResetStep? {
        forall e | e in log ensures !(e.Linked? && e.urgent) && !e.Cleared? {
          assert e.Linked? ==> Begun(steps, was, e.thread, e.mail, e.urgent);
        }
        InOrder(start, log);
      }
    }
  }

  ghost predicate Traced(msgSize: nat, d: Discipline, steps: seq<Step>, trace: seq<State>, events: seq<Option<Event>>) {
    && |trace| == |steps| + 1 && |events| == |steps|
    && forall i :: 0 <= i < |steps| ==> Next(msgSize, d, steps[i], trace[i], events[i], trace[i + 1])
  }

  /** What threads carry after a step. */
  lemma NextCarries(msgSize: nat, d: Discipline, step: Step, s: State, e: Option<Event>, u: State)
    requires Next(msgSize, d, step, s, e, u)
    ensures Carried(step, s.phases, u.phases) && LinksCarried(step, s.phases, e)
  {
  }

  /** The log and one step more. */
  lemma ToldNext(msgSize: nat, d: Discipline, step: Step, s: State, e: Option<Event>, u: State, start: State,
                 steps: seq<Step>, log: seq<Event>, more: seq<Event>)
    requires Next(msgSize, d, step, s, e, u) && step in steps && more == if e.Some? then log + [e.value] else log
    requires s.history == Replay(start.history, log) && Faithful(start.history, log)
    requires AllBegun(steps, start.phases, s.phases, log)
    ensures u.history == Replay(start.history, more) && Faithful(start.history, more)
    ensures AllBegun(steps, start.phases, u.phases, more) && (step != ResetStep && Cleared !in log ==> Cleared !in more)
  {
    NextCarries(msgSize, d, step, s, e, u);
    StillBegun(step, steps, start.phases, s.phases, u.phases, log, e);
    if e.Some? { Longer(start.history, log, e.value); }
  }

  /** What happened tells all about the messages. */
  lemma {:induction false} Told(msgSize: nat, d: Discipline, steps: seq<Step>, trace: seq<State>,
                                events: seq<Option<Event>>, n: nat)
    requires Traced(msgSize, d, steps, trace, events) && n <= |steps|
    ensures var log := Happened(events[..n]);
      && trace[n].history == Replay(trace[0].history, log) && Faithful(trace[0].history, log)
      && AllBegun(steps, trace[0].phases, trace[n].phases, log) && (ResetStep !in steps ==> Cleared !in log)
  {
    if n > 0 {
      var es, step, e := events[..n], steps[n - 1], events[n - 1];
      Told(msgSize, d, steps, trace, events, n - 1);
      assert es[..n - 1] == events[..n - 1] && es[n - 1] == e && step in steps;
      ToldNext(msgSize, d, step, trace[n - 1], e, trace[n], trace[0], steps, Happened(es[..n - 1]), Happened(es));
    }
  }

  lemma {:induction false} Prefix(h: History, log: seq<Event>)
    ensures h.received <= Replay(h, log).received
  {
    if log != [] { Prefix(h, log[..|log| - 1]); }
  }

  lemma Longer(h: History, log: seq<Event>, e: Event)
    requires Faithful(h, log) && True(Replay(h, log), Some(e))
    ensures Replay(h, log + [e]) == After(Replay(h, log), Some(e)) && Faithful(h, log + [e])
  {
    var more := log + [e];
    assert more[..|log|] == log;
    forall i | 0 <= i < |more| ensures True(Replay(h, more[..i]), Some(more[i])) {
      if i < |log| { assert more[..i] == log[..i] && more[i] == log[i]; }
    }
  }
}

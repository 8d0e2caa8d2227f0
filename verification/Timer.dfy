/** The timers of rt-thread/src/timer.c, driven by the tick of rt-thread/src/clock.c. */
module Timer {
  import opened Common
  import opened Rings
  import opened SkipList

  datatype Timer = Timer(timeout: nat, init: nat, active: bool, periodic: bool)

  /** Timer `timer` called its timeout function at tick `at`. */
  datatype Firing = Firing(timer: nat, at: int)

  /** What a program may do to a timer. */
  datatype Command =
    | Start(timer: nat)
    | Stop(timer: nat)
    | Detach(timer: nat)
    | SetTime(timer: nat, time: nat)
    | SetOneShot(timer: nat)
    | SetPeriodic(timer: nat)

  /** Everything that concerns one timer. */
  datatype View = View(timer: Timer, due: int, pending: bool, limbo: bool, onTemp: bool)

  lemma SortedSame(row: seq<nat>, due: seq<int>, other: seq<int>)
    requires Sorted(row, due) && forall t :: t in row ==> Of(due, t) == Of(other, t)
    ensures Sorted(row, other)
  {
    forall i, j ensures Ordered(row, other, i, j) {
      assert Ordered(row, due, i, j);
      if 0 <= i < j < |row| { assert row[i] in row && row[j] in row; }
    }
  }

  function Place(row: seq<nat>, x: nat): (p: nat)
    requires x in row
    ensures p < |row| && row[p] == x
  {
    if row[0] == x then 0 else 1 + Place(row[1..], x)
  }

  // ----- one timer at a time -----

  /** A timer started at tick `now`. */
  ghost function Started(v: View, now: int): View {
    View(v.timer.(timeout := Wrap(now + v.timer.init), active := true), now + v.timer.init, true, false, false)
  }

  ghost function Stopped(v: View): View {
    v.(timer := v.timer.(active := false), pending := false, limbo := false, onTemp := false)
  }

  ghost function Effect(c: Command, v: View, now: int): View {
    match c
    case Start(_) => Started(v, now)
    case Stop(_) => if v.timer.active then Stopped(v) else v
    case Detach(_) => Stopped(v)
    case SetTime(_, d) => v.(timer := v.timer.(init := d))
    case SetOneShot(_) => v.(timer := v.timer.(periodic := false))
    case SetPeriodic(_) => v.(timer := v.timer.(periodic := true))
  }

  /** What a series of commands does to timer `u`: commands to other timers do nothing to it. */
  ghost function Effects(cs: seq<Command>, u: nat, v: View, now: int): View {
    if cs == [] then v
    else
      var last := cs[|cs| - 1];
      var w := Effects(cs[..|cs| - 1], u, v, now);
      if last.timer == u then Effect(last, w, now) else w
  }

  ghost predicate Spared(cs: seq<Command>, u: nat) {
    forall c :: c in cs ==> c.timer != u
  }

  lemma {:induction false} EffectsSpared(cs: seq<Command>, u: nat, v: View, now: int)
    requires Spared(cs, u)
    ensures Effects(cs, u, v, now) == v
  {
    if cs != [] {
      assert cs[|cs| - 1] in cs;
      EffectsSpared(cs[..|cs| - 1], u, v, now);
    }
  }

  /** A timer taken off the list because it is due: only periodic ones stay active. */
  ghost function Taken(v: View): View {
    View(v.timer.(active := v.timer.active && v.timer.periodic), v.due, false, v.timer.periodic, true)
  }

  /** A timer after its callback: restarted if it is still waiting, active and periodic. */
  ghost function Resumed(v: View, now: int): View {
    if !v.onTemp then v
    else if v.timer.periodic && v.timer.active then Started(v, now)
    else v.(onTemp := false)
  }

  /** A timer that fired, when nothing its callback did concerned it. */
  ghost function FiredAlone(v: View, now: int): View {
    Resumed(Taken(v), now)
  }

  // ----- the log -----

  /** The ticks at which timer `u` fired. */
  ghost function Firings(log: seq<Firing>, u: nat): seq<int> {
    if log == [] then []
    else
      var rest := Firings(log[..|log| - 1], u);
      if log[|log| - 1].timer == u then rest + [log[|log| - 1].at] else rest
  }

  lemma FiringsSnoc(log: seq<Firing>, f: Firing, u: nat)
    ensures Firings(log + [f], u) == if f.timer == u then Firings(log, u) + [f.at] else Firings(log, u)
  {
    assert (log + [f])[..|log|] == log;
  }

  /** The ticks up to `upto` at which a timer that fires next at `first` fires, if it is left alone. */
  ghost function Expected(first: int, d: int, periodic: bool, upto: int): seq<int>
    requires periodic ==> d >= 1
    decreases upto - first
  {
    if first > upto then []
    else [first] + if periodic then Expected(first + d, d, periodic, upto) else []
  }

  function Later(a: int, b: int): int {
    if a < b then b else a
  }

  /** The same, seen after the check at tick `now`: what is due already fires at the next check. */
  ghost function Remaining(v: View, now: int, upto: int): seq<int> {
    if v.pending && (v.timer.periodic ==> v.timer.init >= 1)
    then Expected(Later(v.due, now + 1), v.timer.init, v.timer.periodic, upto)
    else []
  }

  /** A periodic timer fires at every multiple of its period after the start, and at no other tick. */
  lemma {:induction false} ExpectedPeriodic(first: int, d: int, upto: int)
    requires d >= 1 && first <= upto + d
    ensures var e := Expected(first, d, true, upto);
      && (forall i :: 0 <= i < |e| ==> e[i] == first + i * d)
      && upto < first + |e| * d <= upto + d
    decreases upto - first
  {
    if first <= upto {
      var rest := Expected(first + d, d, true, upto);
      ExpectedPeriodic(first + d, d, upto);
      var e := [first] + rest;
      forall i | 0 <= i < |e| ensures e[i] == first + i * d {
        if i > 0 {
          assert e[i] == rest[i - 1] == first + d + (i - 1) * d;
          assert (i - 1) * d + d == i * d;
        }
      }
      assert |e| * d == |rest| * d + d;
    }
  }

  /** A firing uses up the first of the expected ticks. */
  lemma FiredRest(before: seq<int>, v: View, now: int, upto: int)
    requires v.pending && v.timer.active && (v.timer.periodic ==> v.timer.init >= 1) && v.due <= now <= upto
    ensures before + [now] + Remaining(FiredAlone(v, now), now, upto) == before + Remaining(v, now - 1, upto)
  {
  }

  /** A timer started at tick `s` with time `d` fires at `s + d`, or at `s + 1` if `d` is 0; a periodic one also at
      `s + 2 d`, `s + 3 d` and so on. */
  lemma StartedFires(v: View, s: int, upto: int)
    requires s <= upto && (v.timer.periodic ==> v.timer.init >= 1)
    ensures var d := v.timer.init; var e := Remaining(Started(v, s), s, upto);
      && (!v.timer.periodic ==> e == if s + Later(d, 1) <= upto then [s + Later(d, 1)] else [])
      && (v.timer.periodic ==>
          (forall i :: 0 <= i < |e| ==> e[i] == s + d + i * d) && s + |e| * d <= upto < s + d + |e| * d)
  {
    var d := v.timer.init;
    if v.timer.periodic { ExpectedPeriodic(s + d, d, upto); }
  }

  /** No callback of a check concerns timer `u`. */
  ghost predicate Alone(cb: nat -> seq<Command>, u: nat) {
    forall k :: Spared(cb(k), u)
  }

  // ----- all timers together -----

  /** All timers after commands of the program at tick `now`. */
  ghost function Commanded(vs: seq<View>, cs: seq<Command>, now: int): seq<View> {
    seq(|vs|, u requires 0 <= u < |vs| => Effects(cs, u, vs[u], now))
  }

  /** All timers after timer `t` fired and its callback issued `cs`. */
  ghost function Turned(vs: seq<View>, t: nat, cs: seq<Command>, now: int): seq<View>
    requires t < |vs|
  {
    Commanded(vs, cs, now)[t := Resumed(Effects(cs, t, Taken(vs[t]), now), now)]
  }

  /** All timers after those in `fired` fired one after another, the k-th with the k-th callback. */
  ghost function AfterTurns(vs: seq<View>, cb: nat -> seq<Command>, fired: seq<nat>, now: int): seq<View> {
    if fired == [] then vs
    else
      var k := |fired| - 1;
      var ws := AfterTurns(vs, cb, fired[..k], now);
      if fired[k] < |ws| then Turned(ws, fired[k], cb(k), now) else ws
  }

  /** No pending timer is due before timer `t`, which is due. */
  ghost predicate Earliest(vs: seq<View>, t: nat, now: int) {
    && t < |vs| && vs[t].pending && vs[t].due <= now
    && forall u :: 0 <= u < |vs| && vs[u].pending ==> vs[t].due <= vs[u].due
  }

  /** Each timer that fired was the earliest when it did. */
  ghost predicate InTurn(vs: seq<View>, cb: nat -> seq<Command>, fired: seq<nat>, now: int) {
    forall k :: 0 <= k < |fired| ==> Earliest(AfterTurns(vs, cb, fired[..k], now), fired[k], now)
  }

  ghost function Logged(fired: seq<nat>, now: int): seq<Firing> {
    seq(|fired|, k requires 0 <= k < |fired| => Firing(fired[k], now))
  }

  lemma OneTurnMore(vs: seq<View>, cb: nat -> seq<Command>, fired: seq<nat>, t: nat, now: int)
    requires InTurn(vs, cb, fired, now) && Earliest(AfterTurns(vs, cb, fired, now), t, now)
    ensures AfterTurns(vs, cb, fired + [t], now) == Turned(AfterTurns(vs, cb, fired, now), t, cb(|fired|), now)
    ensures InTurn(vs, cb, fired + [t], now) && Logged(fired + [t], now) == Logged(fired, now) + [Firing(t, now)]
  {
    var more := fired + [t];
    assert more[..|fired|] == fired;
    forall k | 0 <= k < |more| ensures Earliest(AfterTurns(vs, cb, more[..k], now), more[k], now) {
      if k < |fired| { assert more[..k] == fired[..k]; }
    }
  }

  /** The timers in `fired` have fired, one after another: `vs` and `log` from before are now `ws` and `more`. */
  ghost predicate Course(cb: nat -> seq<Command>, fired: seq<nat>, now: int, vs: seq<View>, log: seq<Firing>,
                         ws: seq<View>, more: seq<Firing>) {
    ws == AfterTurns(vs, cb, fired, now) && InTurn(vs, cb, fired, now) && more == log + Logged(fired, now)
  }

  lemma CourseMore(cb: nat -> seq<Command>, fired: seq<nat>, now: int, vs: seq<View>, log: seq<Firing>, ws: seq<View>,
                   more: seq<Firing>, t: nat)
    requires Course(cb, fired, now, vs, log, ws, more) && Earliest(ws, t, now)
    ensures Course(cb, fired + [t], now, vs, log, Turned(ws, t, cb(|fired|), now), more + [Firing(t, now)])
  {
    OneTurnMore(vs, cb, fired, t, now);
    assert log + Logged(fired, now) + [Firing(t, now)] == log + (Logged(fired, now) + [Firing(t, now)]);
  }

  /** The program's commands at tick `s`, and the check at the next tick: earliest timers first, until none is due. */
  ghost predicate Ticked(cs: seq<Command>, cb: nat -> seq<Command>, fired: seq<nat>, vs: seq<View>, ws: seq<View>,
                         s: int) {
    var mid := Commanded(vs, cs, s);
    && ws == AfterTurns(mid, cb, fired, s + 1) && InTurn(mid, cb, fired, s + 1)
    && forall u :: 0 <= u < |ws| ==> !(ws[u].pending && ws[u].due <= s + 1)
  }

  /** For timers left alone at this tick, the firings so far and those still expected, taken together, stay the same. */
  ghost predicate Kept(cs: seq<Command>, cb: nat -> seq<Command>, vs: seq<View>, log: seq<Firing>, s: int,
                       ws: seq<View>, more: seq<Firing>, upto: int) {
    |ws| == |vs| && forall u: nat :: u < |vs| && Alone(cb, u) && Spared(cs, u) ==>
      Firings(more, u) + Remaining(ws[u], s + 1, upto) == Firings(log, u) + Remaining(vs[u], s, upto)
  }

  /** The same over several ticks, from tick `s` to tick `now`, for the timers in `us`. */
  ghost predicate Steady(us: set<nat>, vs: seq<View>, log: seq<Firing>, s: int, ws: seq<View>, more: seq<Firing>,
                         now: int, upto: int) {
    |ws| == |vs| && forall u: nat :: u < |vs| && u in us ==>
      Firings(more, u) + Remaining(ws[u], now, upto) == Firings(log, u) + Remaining(vs[u], s, upto)
  }

  lemma SteadyMore(us: set<nat>, vs: seq<View>, log: seq<Firing>, s: int, ws: seq<View>, more: seq<Firing>, now: int,
                   cs: seq<Command>, cb: nat -> seq<Command>, xs: seq<View>, most: seq<Firing>, upto: int)
    requires Steady(us, vs, log, s, ws, more, now, upto) && Kept(cs, cb, ws, more, now, xs, most, upto)
    requires forall u :: u in us ==> Alone(cb, u) && Spared(cs, u)
    ensures Steady(us, vs, log, s, xs, most, now + 1, upto)
  {
  }

  /** `n` ticks, with the program and the callbacks of each. */
  ghost predicate AllTicked(program: nat -> seq<Command>, callbacks: nat -> nat -> seq<Command>, n: nat,
                            trace: seq<seq<View>>, fired: seq<seq<nat>>, s: int) {
    && |trace| == n + 1 && |fired| == n
    && forall i :: 0 <= i < n ==> Ticked(program(i), callbacks(i), fired[i], trace[i], trace[i + 1], s + i)
  }

  lemma TickedMore(program: nat -> seq<Command>, callbacks: nat -> nat -> seq<Command>, n: nat, trace: seq<seq<View>>,
                   fired: seq<seq<nat>>, s: int, cs: seq<Command>, cb: nat -> seq<Command>, f: seq<nat>, ws: seq<View>)
    requires AllTicked(program, callbacks, n, trace, fired, s) && cs == program(n) && cb == callbacks(n)
    requires Ticked(cs, cb, f, trace[n], ws, s + n)
    ensures AllTicked(program, callbacks, n + 1, trace + [ws], fired + [f], s)
  {
  }

  // ----- what a callback may do to its own timer -----

  /** The commands leave timer `t` where it is. */
  predicate Stays(cs: seq<Command>, t: nat) {
    forall c :: c in cs && c.timer == t ==> c.SetTime? || c.SetOneShot? || c.SetPeriodic?
  }

  /** Timer `t` is periodic after the commands, if it is `before` them. */
  function KindAfter(cs: seq<Command>, t: nat, before: bool): bool {
    if cs == [] then before
    else
      var last := cs[|cs| - 1];
      if last.timer == t && last.SetOneShot? then false
      else if last.timer == t && last.SetPeriodic? then true
      else KindAfter(cs[..|cs| - 1], t, before)
  }

  /** The callback of a timer that was taken off the list either leaves it where it is, or starts or stops it. */
  lemma {:induction false} CallbackEffect(cs: seq<Command>, t: nat, v: View, now: int)
    requires v.pending && v.timer.active
    ensures var w := Effects(cs, t, Taken(v), now);
      if v.timer.periodic && Stays(cs, t)
      then w.onTemp && w.timer.active && !w.pending && w.timer.periodic == KindAfter(cs, t, true)
      else (w.timer.active <==> w.pending) && (w.onTemp ==> !w.pending)
  {
    if cs != [] {
      var front, last := cs[..|cs| - 1], cs[|cs| - 1];
      assert last in cs && cs == front + [last];
      CallbackEffect(front, t, v, now);
      assert Stays(cs, t) <==>
               Stays(front, t) && (last.timer == t ==> last.SetTime? || last.SetOneShot? || last.SetPeriodic?);
    }
  }

  /** After its turn of the check a timer is marked active exactly if it is on the list again, unless its callback
      made a periodic timer one-shot and did nothing else that matters; then it is marked active on no list. */
  lemma ActiveIffListed(cs: seq<Command>, t: nat, v: View, now: int)
    requires v.pending && v.timer.active
    ensures var x := Resumed(Effects(cs, t, Taken(v), now), now);
      (x.timer.active <==> x.pending) <==> !(v.timer.periodic && Stays(cs, t) && !KindAfter(cs, t, true))
  {
    CallbackEffect(cs, t, v, now);
  }

  // ----- what a program sets -----

  /** Timer `t` keeps its time. */
  predicate KeepsTime(cs: seq<Command>, t: nat) {
    forall c :: c in cs && c.timer == t ==> !c.SetTime?
  }

  /** Timer `t` keeps its kind. */
  predicate KeepsKind(cs: seq<Command>, t: nat) {
    forall c :: c in cs && c.timer == t ==> !c.SetOneShot? && !c.SetPeriodic?
  }

  /** Timer `t` is not started. */
  predicate Idles(cs: seq<Command>, t: nat) {
    forall c :: c in cs && c.timer == t ==> !c.Start?
  }

  lemma EffectsSnoc(cs: seq<Command>, c: Command, u: nat, v: View, now: int)
    ensures Effects(cs + [c], u, v, now) ==
      if c.timer == u then Effect(c, Effects(cs, u, v, now), now) else Effects(cs, u, v, now)
  {
    assert (cs + [c])[..|cs|] == cs;
  }

  /** The time set last is the timer's time. */
  lemma {:induction false} TimeSet(before: seq<Command>, t: nat, d: nat, rest: seq<Command>, v: View, now: int)
    requires KeepsTime(rest, t)
    ensures Effects(before + [SetTime(t, d)] + rest, t, v, now).timer.init == d
  {
    var cs := before + [SetTime(t, d)];
    if rest == [] {
      EffectsSnoc(before, SetTime(t, d), t, v, now);
      assert cs + rest == cs;
    } else {
      var front, last := rest[..|rest| - 1], rest[|rest| - 1];
      assert last in rest && cs + rest == cs + front + [last];
      TimeSet(before, t, d, front, v, now);
      EffectsSnoc(cs + front, last, t, v, now);
    }
  }

  /** The kind set last is the timer's kind. */
  lemma {:induction false} KindSet(before: seq<Command>, t: nat, periodic: bool, rest: seq<Command>, v: View, now: int)
    requires KeepsKind(rest, t)
    ensures var c := if periodic then SetPeriodic(t) else SetOneShot(t);
      Effects(before + [c] + rest, t, v, now).timer.periodic == periodic
  {
    var c := if periodic then SetPeriodic(t) else SetOneShot(t);
    var cs := before + [c];
    if rest == [] {
      EffectsSnoc(before, c, t, v, now);
      assert cs + rest == cs;
    } else {
      var front, last := rest[..|rest| - 1], rest[|rest| - 1];
      assert last in rest && cs + rest == cs + front + [last];
      KindSet(before, t, periodic, front, v, now);
      EffectsSnoc(cs + front, last, t, v, now);
    }
  }

  /** What nobody sets stays as it was. */
  lemma {:induction false} KeptAlong(cs: seq<Command>, t: nat, v: View, now: int)
    ensures KeepsTime(cs, t) ==> Effects(cs, t, v, now).timer.init == v.timer.init
    ensures KeepsKind(cs, t) ==> Effects(cs, t, v, now).timer.periodic == v.timer.periodic
  {
    if cs != [] {
      var front, last := cs[..|cs| - 1], cs[|cs| - 1];
      assert last in cs && forall c :: c in front ==> c in cs;
      KeptAlong(front, t, v, now);
    }
  }

  /** A timer that is set to `d` and then started at tick `s`, whatever happens to it before and in between, is next
      due at `s + d`: it fires there, or at `s + 1` if `d` is 0, and if it is periodic at `s + 2 d`, `s + 3 d` and so
      on. */
  lemma SetFires(before: seq<Command>, t: nat, d: nat, rest: seq<Command>, v: View, s: int, upto: int)
    requires KeepsTime(rest, t) && s <= upto
    ensures var w := Effects(before + [SetTime(t, d)] + rest + [Start(t)], t, v, s);
      var e := Remaining(w, s, upto);
      && w.timer.periodic == Effects(before + [SetTime(t, d)] + rest, t, v, s).timer.periodic
      && (!w.timer.periodic && d > 0 ==> e == if s + d <= upto then [s + d] else [])
      && (!w.timer.periodic && d == 0 ==> e == if s + 1 <= upto then [s + 1] else [])
      && (w.timer.periodic && d > 0 ==>
          (forall i :: 0 <= i < |e| ==> e[i] == s + (i + 1) * d) && s + |e| * d <= upto < s + (|e| + 1) * d)
  {
    var cs := before + [SetTime(t, d)] + rest;
    var x := Effects(cs, t, v, s);
    TimeSet(before, t, d, rest, v, s);
    EffectsSnoc(cs, Start(t), t, v, s);
    if x.timer.periodic && d > 0 {
      StartedFires(x, s, upto);
      var e := Remaining(Started(x, s), s, upto);
      forall i | 0 <= i < |e| ensures e[i] == s + (i + 1) * d {
        Distribute(i, d);
      }
      Distribute(|e|, d);
    }
  }

  lemma Distribute(i: int, d: int)
    ensures (i + 1) * d == i * d + d
  {
  }

  /** A timer that is stopped or detached, and not started again, never fires. */
  lemma {:induction false} StoppedNever(before: seq<Command>, c: Command, t: nat, rest: seq<Command>, v: View, s: int,
                                        upto: int)
    requires (v.pending ==> v.timer.active) && (c == Stop(t) || c == Detach(t)) && Idles(rest, t)
    ensures var w := Effects(before + [c] + rest, t, v, s); !w.pending && Remaining(w, s, upto) == []
  {
    var cs := before + [c];
    if rest == [] {
      PendingActive(before, t, v, s);
      EffectsSnoc(before, c, t, v, s);
      assert cs + rest == cs;
    } else {
      var front, last := rest[..|rest| - 1], rest[|rest| - 1];
      assert last in rest && cs + rest == cs + front + [last];
      StoppedNever(before, c, t, front, v, s, upto);
      EffectsSnoc(cs + front, last, t, v, s);
    }
  }

  lemma {:induction false} PendingActive(cs: seq<Command>, t: nat, v: View, s: int)
    requires v.pending ==> v.timer.active
    ensures var w := Effects(cs, t, v, s); w.pending ==> w.timer.active
  {
    if cs != [] { PendingActive(cs[..|cs| - 1], t, v, s); }
  }

  // ----- timers of time 0 -----

  /** Timers that may have the time 0: those in `zero` stay one-shot, those in `idle` are never started. */
  datatype Roles = Roles(zero: set<nat>, idle: set<nat>)

  /** The command gives no other timer the time 0, makes none in `zero` periodic, and starts none in `idle`. */
  predicate Minds(c: Command, roles: Roles) {
    && (c.SetTime? && c.time == 0 ==> c.timer in roles.zero || c.timer in roles.idle)
    && (c.SetPeriodic? ==> c.timer !in roles.zero || c.timer in roles.idle)
    && (c.Start? ==> c.timer !in roles.idle)
  }

  /** In addition, it starts none in `zero`. */
  predicate Mild(c: Command, roles: Roles) {
    Minds(c, roles) && (c.Start? ==> c.timer !in roles.zero)
  }

  /** The callbacks of a check mind the roles, and from the `tail`-th on start none of the timers in `zero`. */
  ghost predicate Behaves(cb: nat -> seq<Command>, tail: nat, roles: Roles) {
    forall k: nat, c :: c in cb(k) ==> Minds(c, roles) && (k >= tail ==> Mild(c, roles))
  }

  ghost predicate Fitting(v: View, u: nat, roles: Roles) {
    && (v.timer.init == 0 ==> u in roles.zero || u in roles.idle)
    && (u in roles.zero && u !in roles.idle ==> !v.timer.periodic)
    && (u in roles.idle ==> !v.pending && !v.limbo && !v.onTemp)
  }

  /** The lowest digit, of one bit or of two as the mask says, is 0. */
  predicate LowZero(bits: bv32, mask: bv32) { bits & mask == 0 }

  function NextDigits(bits: bv32, mask: bv32): bv32 { bits >> (if mask == 1 then 1 else 2) }

  function Bumped(bits: bv32): (r: bv32)
    ensures r - 1 == bits
  {
    bits + 1
  }

  lemma OneBit(bits: bv32)
    ensures (LowZero(bits, 1) <==> bits % 2 == 0) && NextDigits(bits, 1) == bits / 2
  {
  }

  lemma TwoBits(bits: bv32)
    ensures (LowZero(bits, 3) <==> bits % 4 == 0) && NextDigits(bits, 3) == bits / 4
  {
  }

  /** The counter less its lowest `r` digits. */
  ghost function Shifted(bits: bv32, mask: bv32, r: nat): bv32 {
    if r == 0 then bits else NextDigits(Shifted(bits, mask, r - 1), mask)
  }

  class System {
    const level: nat
    const mask: bv32
    const timers: array<Timer>
    var rows: seq<seq<nat>>
    var temp: Option<nat>
    var tick: nat
    var randomNr: bv32
    ghost var now: int
    ghost var due: seq<int>
    ghost var height: seq<int>
    ghost var limbo: set<nat>
    ghost var log: seq<Firing>

    /** `_rt_timer_init` for every timer. */
    constructor (level: nat, mask: bv32, inits: seq<nat>, periodic: seq<bool>, now: nat)
      requires level > 0 && (mask == 1 || mask == 3) && |inits| == |periodic| && now < TICKS
      requires forall i :: 0 <= i < |inits| ==> inits[i] < HALF
      ensures Ready() && Settled() && temp.None? && Pending() == [] && log == [] && this.now == now
      ensures timers.Length == |inits|
      ensures forall i :: 0 <= i < |inits| ==> timers[i] == Timer(0, inits[i], false, periodic[i])
    {
      this.level := level;
      this.mask := mask;
      timers := new Timer[|inits|](i requires 0 <= i < |inits| == |periodic| => Timer(0, inits[i], false, periodic[i]));
      rows := seq(level, _ => []);
      temp := None;
      tick := now;
      randomNr := 0;
      this.now := now;
      due := seq(|inits|, _ => 0);
      height := seq(|inits|, _ => 0);
      limbo := {};
      log := [];
    }

    // ----- the state -----

    ghost predicate Sized()
      reads this`rows, this`due, this`height
    {
      level > 0 && |rows| == level && |due| == |height| == timers.Length
    }

    /** The pending timers, soonest first. */
    ghost function Pending(): seq<nat>
      requires Sized()
      reads this`rows, this`due, this`height
    {
      rows[level - 1]
    }

    /** Every row holds the pending timers tall enough for it, in the order of their deadlines. */
    ghost predicate Shape()
      reads this`rows, this`due, this`height
    {
      && Sized() && (forall l {:trigger RowIs(rows, height, l)} :: RowIs(rows, height, l))
      && Distinct(Pending()) && Sorted(Pending(), due)
      && forall t :: t in Pending() ==> t < timers.Length && height[t] >= 1
    }

    ghost predicate ClockOk(t: nat)
      requires t < timers.Length == |due|
      reads this`due, this`now, timers
    {
      timers[t].timeout == Wrap(due[t]) && now - HALF < due[t] < now + HALF
    }

    /** The stored ticks stand for deadlines less than half a turn away. */
    ghost predicate Core()
      reads this`rows, this`due, this`height, this`tick, this`now, timers
    {
      && Shape() && tick == Wrap(now)
      && forall t :: t in Pending() ==> ClockOk(t)
    }

    /** Active timers are pending, or in limbo: taken off the list by the check, on which see
        `CallbackClearsPeriodic`. */
    ghost predicate FlagOk(t: nat)
      requires Sized()
      reads this`rows, this`due, this`height, this`limbo, this`temp, timers
    {
      t < timers.Length ==>
        (timers[t].active <==> t in Pending() || t in limbo) && !(t in Pending() && (t in limbo || temp == Some(t)))
    }

    ghost predicate Valid()
      reads this`rows, this`due, this`height, this`limbo, this`temp, this`tick, this`now, timers
    {
      Core() && forall t: nat {:trigger FlagOk(t)} :: FlagOk(t)
    }

    ghost function ViewOf(u: nat): View
      requires Sized() && u < timers.Length
      reads this`rows, this`due, this`height, this`limbo, this`temp, timers
    {
      View(timers[u], due[u], u in Pending(), u in limbo, temp == Some(u))
    }

    /** A deadline `init` ticks from now can be told apart from every pending one. */
    ghost predicate Window(init: nat)
      requires Sized()
      reads this`rows, this`due, this`height, this`now
    {
      forall u :: u in Pending() ==> Comparable(Of(due, u), now + init)
    }

    // ----- the rows -----

    /** `_rt_timer_remove`. */
    method Remove(t: nat)
      requires Core() && t < timers.Length
      modifies this`rows, this`temp
      ensures Core() && Pending() == Minus(old(Pending()), t)
      ensures forall u :: u in Pending() <==> u in old(Pending()) && u != t
      ensures temp == if old(temp) == Some(t) then None else old(temp)
    {
      ghost var b := Pending();
      var l := 0;
      while l < level
        invariant l <= level == |rows|
        invariant forall k :: 0 <= k < l ==> rows[k] == Minus(old(rows)[k], t)
        invariant forall k :: l <= k < level ==> rows[k] == old(rows)[k]
        invariant temp == old(temp)
      {
        rows := rows[l := Minus(rows[l], t)];
        l := l + 1;
      }
      if temp == Some(t) {
        temp := None;
      }
      MinusKeeps(b, due, t);
      RowsLeave(old(rows), rows, height, t);
    }

    /** The inner loop of the search in `rt_timer_start`. */
    method Scan(row: seq<nat>, t: nat, from: nat, ghost d: int) returns (p: nat)
      requires Core() && t < timers.Length && timers[t].timeout == Wrap(d) && from <= |row|
      requires Sorted(row, due) && forall u :: u in row ==> u in Pending() && Comparable(due[u], d)
      requires forall i :: 0 <= i < from ==> Of(due, row[i]) <= d
      ensures IsSpot(row, due, d, p)
    {
      p := from;
      while p < |row|
        invariant p <= |row| && forall i :: 0 <= i < p ==> Of(due, row[i]) <= d
      {
        var u := row[p];
        assert u in row && ClockOk(u);
        OrderIff(due[u], d);
        if Wrap(timers[u].timeout - timers[t].timeout) == 0 {
          p := p + 1;
          continue;
        } else if Wrap(timers[u].timeout - timers[t].timeout) < HALF {
          forall i | p <= i < |row| ensures Of(due, row[i]) > d {
            assert Ordered(row, due, p, i);
          }
          break;
        }
        p := p + 1;
      }
    }

    /** The search of `rt_timer_start`: row by row, going down at the last timer not due later. */
    method Search(t: nat, ghost d: int) returns (places: seq<nat>)
      requires Core() && t < timers.Length && timers[t].timeout == Wrap(d)
      requires forall u :: u in Pending() ==> Comparable(due[u], d)
      ensures |places| == level && forall l :: 0 <= l < level ==> IsSpot(rows[l], due, d, places[l])
    {
      places := [];
      var from: nat := 0;
      while |places| < level
        invariant |places| <= level && forall l :: 0 <= l < |places| ==> IsSpot(rows[l], due, d, places[l])
        invariant |places| < level ==> from <= |rows[|places|]|
        invariant |places| < level ==> forall i :: 0 <= i < from ==> Of(due, rows[|places|][i]) <= d
        decreases level - |places|
      {
        var l := |places|;
        var row := rows[l];
        RowFacts(l);
        var p := Scan(row, t, from, d);
        places := places + [p];
        from := 0;
        if l + 1 < level && p > 0 {
          RowFacts(l + 1);
          assert row[p - 1] in row;
          var next := rows[l + 1];
          var q := Place(next, row[p - 1]);
          forall i | 0 <= i < q ensures Of(due, next[i]) <= d {
            assert Ordered(next, due, i, q);
          }
          from := q + 1;
        }
      }
    }

    lemma RowFacts(l: nat)
      requires Shape() && l < level
      ensures Sorted(rows[l], due)
      ensures forall u :: u in rows[l] <==> u in Pending() && height[u] >= level - l
      ensures l > 0 ==> forall u :: u in rows[l - 1] ==> u in rows[l]
    {
      assert RowIs(rows, height, l) && RowIs(rows, height, l - 1);
      TallSorted(Pending(), height, level - l, due);
      TallHas(Pending(), height, level - l);
      if l > 0 { TallHas(Pending(), height, level - (l - 1)); }
    }

    /** The new timer goes into the bottom row, and into one more for every low digit of the counter that is 0. */
    method LinkIn(t: nat, places: seq<nat>) returns (ghost tall: nat)
      requires level > 0 && |rows| == level == |places| && (mask == 1 || mask == 3)
      requires forall l :: 0 <= l < level ==> places[l] <= |rows[l]|
      modifies this`rows, this`randomNr
      ensures |rows| == level && 1 <= tall <= level && randomNr == Bumped(old(randomNr))
      ensures forall r :: 0 <= r < tall - 1 ==> LowZero(Shifted(randomNr, mask, r), mask)
      ensures tall < level ==> !LowZero(Shifted(randomNr, mask, tall - 1), mask)
      ensures forall l :: 0 <= l < level ==>
                rows[l] == if level - l <= tall then Insert(old(rows)[l], places[l], t) else old(rows)[l]
    {
      randomNr := Bumped(randomNr);
      var bits := randomNr;
      rows := rows[level - 1 := Insert(rows[level - 1], places[level - 1], t)];
      tall := 1;
      var r := 2;
      while r <= level
        invariant 2 <= r <= level + 1 && |rows| == level && tall == r - 1 && randomNr == Bumped(old(randomNr))
        invariant bits == Shifted(randomNr, mask, r - 2)
        invariant forall j :: 0 <= j < tall - 1 ==> LowZero(Shifted(randomNr, mask, j), mask)
        invariant forall l :: 0 <= l < level ==>
                    rows[l] == if level - l <= tall then Insert(old(rows)[l], places[l], t) else old(rows)[l]
      {
        if LowZero(bits, mask) {
          rows := rows[level - r := Insert(rows[level - r], places[level - r], t)];
          tall := r;
        } else {
          break;
        }
        bits := NextDigits(bits, mask);
        r := r + 1;
      }
    }

    /** The first half of `rt_timer_start`: off the list, and the new deadline. */
    method Arm(t: nat)
      requires Valid() && t < timers.Length && timers[t].init < HALF
      modifies this`rows, this`temp, this`due, this`limbo, timers
      ensures Core() && Pending() == Minus(old(Pending()), t)
      ensures forall u :: u in Pending() <==> u in old(Pending()) && u != t
      ensures timers[t] == old(timers[t]).(active := false, timeout := Wrap(due[t]))
      ensures due == old(due)[t := now + timers[t].init]
      ensures ViewOf(t) == Stopped(Started(old(ViewOf(t)), now))
      ensures temp == if old(temp) == Some(t) then None else old(temp)
      ensures forall u: nat :: u < timers.Length && u != t ==> ViewOf(u) == old(ViewOf(u))
    {
      Remove(t);
      label removed:
      timers[t] := timers[t].(active := false);
      limbo := limbo - {t};
      WrapSum(now, timers[t].init);
      timers[t] := timers[t].(timeout := (tick + timers[t].init) % TICKS);
      ghost var was := due;
      due := due[t := now + timers[t].init];
      SortedSame(Pending(), was, due);
      forall k ensures RowIs(rows, height, k) {
        assert old@removed(RowIs(rows, height, k));
      }
    }

    /** The second half of `rt_timer_start`: the search, and the timer enters the rows. */
    method Enter(t: nat)
      requires Core() && t < timers.Length && t !in Pending() && ClockOk(t) && (mask == 1 || mask == 3)
      requires forall u :: u in Pending() ==> Comparable(due[u], due[t])
      modifies this`rows, this`randomNr, this`height, timers
      ensures Core() && Pending() == Insert(old(Pending()), Linear(old(Pending()), due, due[t]), t)
      ensures timers[t] == old(timers[t]).(active := true)
      ensures ViewOf(t) == old(ViewOf(t)).(timer := old(timers[t]).(active := true), pending := true)
      ensures forall u: nat :: u < timers.Length && u != t ==> ViewOf(u) == old(ViewOf(u))
    {
      var places := Search(t, due[t]);
      ghost var was, b, h, p := rows, Pending(), height, places[level - 1];
      LinearIs(b, due, due[t], p);
      InsertKeeps(b, due, p, t);
      ghost var tall := LinkIn(t, places);
      height := height[t := tall];
      timers[t] := timers[t].(active := true);
      RowsEnter(was, rows, h, t, tall, due, places);
    }

    /** `rt_timer_start`. */
    method Start(t: nat)
      requires Valid() && t < timers.Length && timers[t].init < HALF
      requires (mask == 1 || mask == 3) && Window(timers[t].init)
      modifies this`rows, this`temp, this`due, this`limbo, this`randomNr, this`height, timers
      ensures Valid() && ViewOf(t) == Started(old(ViewOf(t)), now)
      ensures forall u: nat :: u < timers.Length && u != t ==> ViewOf(u) == old(ViewOf(u))
      ensures temp == if old(temp) == Some(t) then None else old(temp)
      ensures var b := Minus(old(Pending()), t); Pending() == Insert(b, Linear(b, due, due[t]), t)
    {
      Arm(t);
      ghost var v := ViewOf(t);
      Enter(t);
      assert ViewOf(t) == v.(timer := v.timer.(active := true), pending := true);
      forall u: nat ensures FlagOk(u) {
        assert old(FlagOk(u));
        if u < timers.Length && u != t {
          assert ViewOf(u) == old(ViewOf(u));
        }
      }
    }

    /** `rt_timer_detach`. */
    method Detach(t: nat)
      requires Valid() && t < timers.Length
      modifies this`rows, this`temp, this`limbo, timers
      ensures Valid() && ViewOf(t) == Stopped(old(ViewOf(t))) && Pending() == Minus(old(Pending()), t)
      ensures temp == old(temp) || temp.None?
      ensures forall u: nat :: u < timers.Length && u != t ==> ViewOf(u) == old(ViewOf(u))
    {
      Remove(t);
      timers[t] := timers[t].(active := false);
      limbo := limbo - {t};
      forall u: nat ensures FlagOk(u) {
        assert old(FlagOk(u));
      }
    }

    /** `rt_timer_stop`. */
    method Stop(t: nat) returns (ok: bool)
      requires Valid() && t < timers.Length
      modifies this`rows, this`temp, this`limbo, timers
      ensures Valid() && ok == old(timers[t].active)
      ensures ViewOf(t) == if ok then Stopped(old(ViewOf(t))) else old(ViewOf(t))
      ensures Pending() == Minus(old(Pending()), t)
      ensures temp == old(temp) || temp.None?
      ensures forall u: nat :: u < timers.Length && u != t ==> ViewOf(u) == old(ViewOf(u))
    {
      assert FlagOk(t);
      if !timers[t].active {
        MinusNone(Pending(), t);
        return false;
      }
      Detach(t);
      return true;
    }

    // ----- commands -----

    ghost predicate Legal(c: Command) {
      c.timer < timers.Length && (c.SetTime? ==> c.time < HALF)
    }

    /** No deadline has been missed, but that of a timer started with time 0 after the last check. */
    ghost predicate Punctual()
      requires Sized()
      reads this`rows, this`due, this`height, this`now
    {
      forall u :: u in Pending() ==> now - 1 <= Of(due, u)
    }

    /** Between two checks no deadline has passed. */
    ghost predicate Timely()
      requires Sized()
      reads this`rows, this`due, this`height, this`now
    {
      forall u :: u in Pending() ==> now <= Of(due, u)
    }

    /** Every timer's period is in range, and a check will run at every tick. */
    ghost predicate Ready()
      reads this`rows, this`due, this`height, this`limbo, this`temp, this`tick, this`now, timers
    {
      && Valid() && Punctual() && (mask == 1 || mask == 3)
      && forall u :: 0 <= u < timers.Length ==> timers[u].init < HALF
    }

    /** Every timer keeps to its role. */
    ghost predicate Tame(roles: Roles)
      requires Sized()
      reads this`rows, this`due, this`height, this`limbo, this`temp, timers
    {
      forall u: nat :: u < timers.Length ==> Fitting(ViewOf(u), u, roles)
    }

    /** Roles can be found exactly if every periodic timer of time 0 is dormant; one that is listed is what
        `QuietTurns` and `ZeroPeriodSpins` are about. */
    lemma RolesFound()
      requires Valid()
      ensures (exists roles :: Tame(roles)) <==>
        forall u: nat :: u < timers.Length && timers[u].init == 0 && timers[u].periodic ==>
          !ViewOf(u).pending && !ViewOf(u).limbo && !ViewOf(u).onTemp
    {
      var zero := set u: nat | u < timers.Length && timers[u].init == 0 && !timers[u].periodic;
      var idle := set u: nat | u < timers.Length && timers[u].init == 0 && timers[u].periodic;
      if forall u: nat :: u in idle ==> !ViewOf(u).pending && !ViewOf(u).limbo && !ViewOf(u).onTemp {
        assert Tame(Roles(zero, idle));
      }
      forall roles, u: nat | Tame(roles) && u < timers.Length && timers[u].init == 0 && timers[u].periodic
        ensures !ViewOf(u).pending && !ViewOf(u).limbo && !ViewOf(u).onTemp
      {
        assert Fitting(ViewOf(u), u, roles);
      }
    }

    /** The pending timers whose time has come. */
    ghost function DueNow(): set<nat>
      requires Sized()
      reads this`rows, this`due, this`height, this`now
    {
      set u | u in Pending() && Of(due, u) <= now
    }

    method Do(c: Command)
      requires Ready() && Legal(c)
      modifies this`rows, this`temp, this`due, this`limbo, this`randomNr, this`height, timers
      ensures Ready() && ViewOf(c.timer) == Effect(c, old(ViewOf(c.timer)), now) && (temp == old(temp) || temp.None?)
      ensures forall u: nat :: u < timers.Length && u != c.timer ==> ViewOf(u) == old(ViewOf(u))
      ensures old(Timely()) ==> Timely()
      ensures forall u :: u in DueNow() ==> u in old(DueNow()) || (c.Start? && u == c.timer && timers[u].init == 0)
    {
      var t := c.timer;
      match c {
        case Start(_) => Start(t);
        case Stop(_) => var ok := Stop(t);
        case Detach(_) => Detach(t);
        case SetTime(_, d) => timers[t] := timers[t].(init := d);
        case SetOneShot(_) => timers[t] := timers[t].(periodic := false);
        case SetPeriodic(_) => timers[t] := timers[t].(periodic := true);
      }
      forall u: nat ensures FlagOk(u) {
        assert old(FlagOk(u));
      }
      assert ViewOf(t) == Effect(c, old(ViewOf(t)), now);
      forall u: nat | u < timers.Length ensures timers[u].init < HALF {
        assert u != t ==> ViewOf(u) == old(ViewOf(u));
      }
      forall u | u in Pending()
        ensures now - 1 <= Of(due, u) && (old(Timely()) ==> now <= Of(due, u))
        ensures Of(due, u) <= now ==> u in old(DueNow()) || (c.Start? && u == t && timers[u].init == 0)
      {
        assert u != t ==> ViewOf(u) == old(ViewOf(u));
      }
    }

    method Execute(cs: seq<Command>, ghost roles: Roles)
      requires Ready() && forall c :: c in cs ==> Legal(c)
      modifies this`rows, this`temp, this`due, this`limbo, this`randomNr, this`height, timers
      ensures Ready() && (temp == old(temp) || temp.None?) && (old(Timely()) ==> Timely())
      ensures forall u: nat :: u < timers.Length ==> ViewOf(u) == Effects(cs, u, old(ViewOf(u)), now)
      ensures old(Tame(roles)) && (forall c :: c in cs ==> Minds(c, roles)) ==>
                Tame(roles) && forall u :: u in DueNow() && u !in roles.zero ==> u in old(DueNow())
      ensures old(Tame(roles)) && (forall c :: c in cs ==> Mild(c, roles)) ==> DueNow() <= old(DueNow())
    {
      for i := 0 to |cs|
        invariant Ready() && (temp == old(temp) || temp.None?) && (old(Timely()) ==> Timely())
        invariant forall u: nat :: u < timers.Length ==> ViewOf(u) == Effects(cs[..i], u, old(ViewOf(u)), now)
        invariant old(Tame(roles)) && (forall c :: c in cs ==> Minds(c, roles)) ==>
                    Tame(roles) && forall u :: u in DueNow() && u !in roles.zero ==> u in old(DueNow())
        invariant old(Tame(roles)) && (forall c :: c in cs ==> Mild(c, roles)) ==> DueNow() <= old(DueNow())
      {
        assert cs[..i + 1][..i] == cs[..i] && cs[i] in cs;
        DoTame(cs[i], roles);
      }
      assert cs[..|cs|] == cs;
    }

    method DoTame(c: Command, ghost roles: Roles)
      requires Ready() && Legal(c)
      modifies this`rows, this`temp, this`due, this`limbo, this`randomNr, this`height, timers
      ensures Ready() && ViewOf(c.timer) == Effect(c, old(ViewOf(c.timer)), now) && (temp == old(temp) || temp.None?)
      ensures forall u: nat :: u < timers.Length && u != c.timer ==> ViewOf(u) == old(ViewOf(u))
      ensures old(Timely()) ==> Timely()
      ensures old(Tame(roles)) && Minds(c, roles) ==>
                Tame(roles) && forall u :: u in DueNow() && u !in roles.zero ==> u in old(DueNow())
      ensures old(Tame(roles)) && Mild(c, roles) ==> DueNow() <= old(DueNow())
    {
      ghost var tame, v := Tame(roles) && Minds(c, roles), ViewOf(c.timer);
      Do(c);
      if tame {
        forall u: nat | u < timers.Length ensures Fitting(ViewOf(u), u, roles) {
          assert old(Fitting(ViewOf(u), u, roles));
          assert u != c.timer ==> ViewOf(u) == old(ViewOf(u));
          assert u == c.timer ==> ViewOf(u) == Effect(c, v, now);
        }
      }
    }

    // ----- the check -----

    /** The check takes the first timer off the list and puts it on its temporary list. */
    method Take(t: nat)
      requires Ready() && |Pending()| > 0 && t == Pending()[0] && Of(due, t) <= now && temp.None?
      modifies this`rows, this`temp, this`limbo, timers
      ensures Ready() && ViewOf(t) == Taken(old(ViewOf(t)))
      ensures forall u: nat :: u < timers.Length && u != t ==> ViewOf(u) == old(ViewOf(u))
      ensures DueNow() == old(DueNow()) - {t} && t in old(DueNow())
    {
      assert t in Pending() && FlagOk(t) && t in DueNow();
      Remove(t);
      if !timers[t].periodic {
        timers[t] := timers[t].(active := false);
      } else {
        limbo := limbo + {t};
      }
      temp := Some(t);
      forall u: nat ensures FlagOk(u) {
        assert old(FlagOk(u));
      }
      assert forall u :: u in DueNow() <==> u in old(DueNow()) && u != t;
    }

    /** After the callback: a periodic timer that is still waiting starts again. */
    method Settle(t: nat)
      requires Ready() && t < timers.Length && (temp.Some? ==> temp == Some(t))
      modifies this`rows, this`temp, this`due, this`limbo, this`randomNr, this`height, timers
      ensures Ready() && temp.None? && ViewOf(t) == Resumed(old(ViewOf(t)), now)
      ensures forall u: nat :: u < timers.Length && u != t ==> ViewOf(u) == old(ViewOf(u))
      ensures forall u :: u in DueNow() ==>
                u in old(DueNow()) ||
                (u == t && old(ViewOf(t).onTemp) && old(timers[t]).periodic && old(timers[t]).init == 0)
    {
      if temp.Some? {
        assert FlagOk(t);
        temp := None;
        assert forall u: nat :: old(FlagOk(u)) ==> FlagOk(u);
        if timers[t].periodic && timers[t].active {
          Restart(t);
        }
      }
    }

    method Restart(t: nat)
      requires Ready() && t < timers.Length && temp.None? && t !in Pending()
      modifies this`rows, this`temp, this`due, this`limbo, this`randomNr, this`height, timers
      ensures Ready() && temp.None? && ViewOf(t) == Started(old(ViewOf(t)), now)
      ensures forall u: nat :: u < timers.Length && u != t ==> ViewOf(u) == old(ViewOf(u))
      ensures forall u :: u in DueNow() ==> u in old(DueNow()) || (u == t && old(timers[t]).init == 0)
    {
      timers[t] := timers[t].(active := false);
      limbo := limbo - {t};
      forall u: nat ensures FlagOk(u) {
        assert old(FlagOk(u));
      }
      label idle:
      assert forall u: nat :: u < timers.Length && u != t ==> ViewOf(u) == old(ViewOf(u));
      Do(Command.Start(t));
    }

    /** One turn of the loop in `rt_timer_check`: timer `t` fires and its callback issues `cs`. */
    method Fire(t: nat, cs: seq<Command>, ghost roles: Roles)
      requires Ready() && |Pending()| > 0 && t == Pending()[0] && Of(due, t) <= now && temp.None?
      requires forall c :: c in cs ==> Legal(c)
      modifies this, timers
      ensures Ready() && temp.None? && now == old(now) && tick == old(tick)
      ensures ViewOf(t) == Resumed(Effects(cs, t, Taken(old(ViewOf(t))), now), now)
      ensures forall u: nat :: u < timers.Length && u != t ==> ViewOf(u) == Effects(cs, u, old(ViewOf(u)), now)
      ensures log == old(log) + [Firing(t, now)] && t in old(DueNow())
      ensures old(Tame(roles)) && (forall c :: c in cs ==> Minds(c, roles)) ==>
                Tame(roles) && forall u :: u in DueNow() && u !in roles.zero ==> u in old(DueNow()) && u != t
      ensures old(Tame(roles)) && (forall c :: c in cs ==> Mild(c, roles)) ==> DueNow() <= old(DueNow()) - {t}
    {
      Take(t);
      log := log + [Firing(t, now)];
      forall u: nat | old(Tame(roles)) && u < timers.Length ensures Fitting(ViewOf(u), u, roles) {
        assert old(Fitting(ViewOf(u), u, roles)) && (u != t ==> ViewOf(u) == old(ViewOf(u)));
      }
      Execute(cs, roles);
      label called:
      Settle(t);
      forall u: nat | old@called(Tame(roles)) && u < timers.Length ensures Fitting(ViewOf(u), u, roles) {
        assert old@called(Fitting(ViewOf(u), u, roles)) && (u != t ==> ViewOf(u) == old@called(ViewOf(u)));
      }
    }

    /** The callbacks of a check issue commands the program allows; the k-th timer to fire issues `cb(k)`. */
    ghost predicate Lawful(cb: nat -> seq<Command>) {
      forall k, c :: c in cb(k) ==> Legal(c)
    }

    /** Timer `u` fired at most once, and only if it was due. */
    ghost predicate Once(was: set<nat>, before: seq<Firing>, u: nat)
      requires Sized()
      reads this`rows, this`due, this`height, this`now, this`log
    {
      || (Firings(log, u) == Firings(before, u) && (u in DueNow() ==> u in was))
      || (u in was && u !in DueNow() && Firings(log, u) == Firings(before, u) + [now])
    }

    /** Timer `u`, left alone, fired if it was due, and otherwise nothing happened to it. */
    ghost predicate Handled(was: set<nat>, before: seq<Firing>, v: View, u: nat)
      requires Sized() && u < timers.Length
      reads this`rows, this`due, this`height, this`limbo, this`temp, this`now, this`log, timers
    {
      if u in was && u !in DueNow()
      then ViewOf(u) == FiredAlone(v, now) && Firings(log, u) == Firings(before, u) + [now]
      else ViewOf(u) == v && Firings(log, u) == Firings(before, u)
    }

    /** One turn of the loop in `rt_timer_check`, or the end of the loop if no timer is due. */
    method Turn(cs: seq<Command>, ghost roles: Roles) returns (more: bool, ghost t: nat)
      requires Ready() && temp.None? && forall c :: c in cs ==> Legal(c)
      modifies this, timers
      ensures Ready() && temp.None? && now == old(now) && tick == old(tick)
      ensures more <==> old(DueNow()) != {}
      ensures !more ==>
                log == old(log) && rows == old(rows) && forall u: nat :: u < timers.Length ==>
                  ViewOf(u) == old(ViewOf(u))
      ensures !more ==> DueNow() == {} && timers[..] == old(timers[..])
      ensures more ==>
                t in old(DueNow()) && t < timers.Length && old(FlagOk(t)) &&
                old(t in Pending() && Of(due, t) == due[t] <= now)
      ensures more ==> ViewOf(t) == Resumed(Effects(cs, t, Taken(old(ViewOf(t))), now), now)
      ensures more ==> forall u: nat :: u < timers.Length && u != t ==> ViewOf(u) == Effects(cs, u, old(ViewOf(u)), now)
      ensures more ==> log == old(log) + [Firing(t, now)]
      ensures more ==> forall u :: u in old(Pending()) ==> old(Of(due, t)) <= old(Of(due, u))
      ensures more && old(Tame(roles)) && (forall c :: c in cs ==> Minds(c, roles)) ==>
                Tame(roles) && forall u :: u in DueNow() && u !in roles.zero ==> u in old(DueNow()) && u != t
      ensures more && old(Tame(roles)) && (forall c :: c in cs ==> Mild(c, roles)) ==> DueNow() <= old(DueNow()) - {t}
    {
      t := 0;
      if |rows[level - 1]| > 0 {
        var head := rows[level - 1][0];
        assert head in Pending() && ClockOk(head);
        PastIff(now, due[head]);
        if Wrap(tick - timers[head].timeout) < HALF {
          assert FlagOk(head) && head in DueNow();
          forall u | u in Pending() ensures Of(due, head) <= Of(due, u) {
            HeadFirst(u);
          }
          Fire(head, cs, roles);
          return true, head;
        }
        forall u | u in Pending() ensures Of(due, u) > now {
          HeadFirst(u);
        }
      }
      assert DueNow() == {};
      return false, 0;
    }

    /** Every timer so far fired at most once, or is one of those that may fire again, and those left alone were
        handled; `was`, `before` and `views` are from before the check. */
    ghost predicate Accounted(was: set<nat>, before: seq<Firing>, views: seq<View>, cb: nat -> seq<Command>,
                              again: set<nat>)
      requires Sized()
      reads this`rows, this`due, this`height, this`limbo, this`temp, this`now, this`log, timers
    {
      && |views| == timers.Length
      && (forall u {:trigger views[u]} :: 0 <= u < |views| ==> (u in was <==> views[u].pending && views[u].due <= now))
      && (forall u: nat {:trigger Once(was, before, u)} :: u < timers.Length && u !in again ==> Once(was, before, u))
      && (forall u: nat {:trigger Alone(cb, u)} :: u < timers.Length && Alone(cb, u) ==>
          Handled(was, before, views[u], u))
    }

    /** One turn of the check, and what it means for the accounts. */
    method CheckTurn(cb: nat -> seq<Command>, k: nat, ghost roles: Roles, ghost again: set<nat>,
                     ghost was: set<nat>, ghost before: seq<Firing>, ghost views: seq<View>)
      returns (more: bool, ghost t: nat)
      requires Ready() && Tame(roles) && temp.None? && Lawful(cb) && forall c :: c in cb(k) ==> Minds(c, roles)
      requires (forall c :: c in cb(k) ==> Mild(c, roles)) || roles.zero <= again
      requires Accounted(was, before, views, cb, again)
      modifies this, timers
      ensures Ready() && Tame(roles) && temp.None? && now == old(now) && tick == old(tick)
      ensures Accounted(was, before, views, cb, again)
      ensures !more ==> DueNow() == {}
      ensures more && (forall c :: c in cb(k) ==> Mild(c, roles)) ==> DueNow() < old(DueNow())
      ensures more ==> Earliest(old(Views()), t, now) && Views() == Turned(old(Views()), t, cb(k), now)
      ensures log == if more then old(log) + [Firing(t, now)] else old(log)
      ensures !more ==> Views() == old(Views())
    {
      more, t := Turn(cb(k), roles);
      if more {
        forall u: nat | u < timers.Length && u !in again ensures Once(was, before, u) {
          assert old(Once(was, before, u));
          FiringsSnoc(old(log), Firing(t, now), u);
        }
        forall u: nat | u < timers.Length && Alone(cb, u) ensures Handled(was, before, views[u], u) {
          assert old(Handled(was, before, views[u], u));
          FiringsSnoc(old(log), Firing(t, now), u);
          assert Spared(cb(k), u);
          EffectsSpared(cb(k), u, if u == t then Taken(old(ViewOf(u))) else old(ViewOf(u)), now);
        }
      } else {
        assert forall u: nat :: u < timers.Length && old(Once(was, before, u)) ==> Once(was, before, u);
        assert forall u: nat :: u < timers.Length && old(Handled(was, before, views[u], u)) ==>
                 Handled(was, before, views[u], u);
      }
    }

    method CourseTurn(cb: nat -> seq<Command>, k: nat, ghost roles: Roles, ghost again: set<nat>, ghost was: set<nat>,
                      ghost before: seq<Firing>, ghost views: seq<View>, ghost fired: seq<nat>)
      returns (more: bool, ghost all: seq<nat>)
      requires Ready() && Tame(roles) && temp.None? && Lawful(cb) && forall c :: c in cb(k) ==> Minds(c, roles)
      requires (forall c :: c in cb(k) ==> Mild(c, roles)) || roles.zero <= again
      requires Accounted(was, before, views, cb, again) && Course(cb, fired, now, views, before, Views(), log)
      requires |fired| == k
      modifies this, timers
      ensures Ready() && Tame(roles) && temp.None? && now == old(now) && tick == old(tick)
      ensures Accounted(was, before, views, cb, again) && Course(cb, all, now, views, before, Views(), log)
      ensures more ==> |all| == k + 1
      ensures !more ==> DueNow() == {}
      ensures more && (forall c :: c in cb(k) ==> Mild(c, roles)) ==> DueNow() < old(DueNow())
    {
      ghost var t;
      ghost var ws, l := Views(), log;
      more, t := CheckTurn(cb, k, roles, again, was, before, views);
      if more { CourseMore(cb, fired, now, views, before, ws, l, t); }
      all := if more then fired + [t] else fired;
    }

    /** `rt_timer_check`.  The check ends if from the `tail`-th callback on no timer of time 0 is started; what the
        callbacks do otherwise is free.  The timers in `fired` fire one after another. */
    method Check(cb: nat -> seq<Command>, ghost tail: nat, ghost roles: Roles) returns (ghost fired: seq<nat>)
      requires Ready() && Tame(roles) && temp.None? && Lawful(cb)
      requires Behaves(cb, tail, roles)
      modifies this, timers
      ensures Ready() && Tame(roles) && temp.None? && Settled() && now == old(now) && tick == old(tick)
      ensures Course(cb, fired, now, old(Views()), old(log), Views(), log)
      ensures forall u: nat :: u < timers.Length && (tail == 0 || u !in roles.zero) ==> Once(old(DueNow()), old(log), u)
      ensures forall u: nat :: u < timers.Length && Alone(cb, u) ==> Handled(old(DueNow()), old(log), old(ViewOf(u)), u)
    {
      ghost var was, before, views := DueNow(), log, Views();
      ghost var again := if tail == 0 then {} else roles.zero;
      var k, more := 0, true;
      fired := [];
      while more
        invariant Ready() && Tame(roles) && temp.None? && now == old(now) && tick == old(tick)
        invariant !more ==> DueNow() == {}
        invariant Accounted(was, before, views, cb, again) && Course(cb, fired, now, views, before, Views(), log)
        invariant more ==> |fired| == k
        decreases if k < tail then tail - k else 0, DueNow(), more
      {
        more, fired := CourseTurn(cb, k, roles, again, was, before, views, fired);
        k := k + 1;
      }
      assert forall u :: u in Pending() && Of(due, u) <= now ==> u in DueNow();
    }

    /** After a check every pending timer is due later. */
    ghost predicate Settled()
      requires Sized()
      reads this`rows, this`due, this`height, this`now
    {
      forall u :: u in Pending() ==> Of(due, u) > now
    }

    /** One tick has passed. */
    method Advance()
      requires Ready() && Timely()
      modifies this`tick, this`now
      ensures Ready() && now == old(now) + 1 && Views() == old(Views())
    {
      WrapStep(now);
      tick := (tick + 1) % TICKS;
      now := now + 1;
      forall u: nat ensures FlagOk(u) {
        assert old(FlagOk(u));
      }
    }

    /** The timer's share of `rt_tick_increase`. */
    method TickIncrease(cb: nat -> seq<Command>, ghost tail: nat, ghost roles: Roles) returns (ghost fired: seq<nat>)
      requires Ready() && Tame(roles) && temp.None? && Timely() && Lawful(cb)
      requires Behaves(cb, tail, roles)
      modifies this, timers
      ensures Ready() && Tame(roles) && temp.None? && Settled() && now == old(now) + 1
      ensures forall u: nat, upto: int :: u < timers.Length && Alone(cb, u) && upto >= now ==>
                Firings(log, u) + Remaining(ViewOf(u), now, upto) ==
                  old(Firings(log, u) + Remaining(ViewOf(u), now, upto))
      ensures Course(cb, fired, now, old(Views()), old(log), Views(), log)
    {
      Advance();
      label ticked:
      fired := Check(cb, tail, roles);
      forall u: nat, upto: int | u < timers.Length && Alone(cb, u) && upto >= now
        ensures Firings(log, u) + Remaining(ViewOf(u), now, upto) ==
                  old(Firings(log, u) + Remaining(ViewOf(u), now, upto))
      {
        assert Handled(old@ticked(DueNow()), old(log), old(ViewOf(u)), u);
        assert old@ticked(FlagOk(u));
        assert u in DueNow() ==> Of(due, u) <= now;
        if u in old@ticked(DueNow()) { FiredRest(Firings(old(log), u), old(ViewOf(u)), now, upto); }
      }
    }

    ghost function Views(): (vs: seq<View>)
      requires Sized()
      reads this`rows, this`due, this`height, this`limbo, this`temp, timers
      ensures |vs| == timers.Length && forall u :: 0 <= u < timers.Length ==> vs[u] == ViewOf(u)
    {
      var ts, ds, listed, away, waiting := timers[..], due, Pending(), limbo, temp;
      seq(|ts|, u requires 0 <= u < |ts| == |ds| => View(ts[u], ds[u], u in listed, u in away, waiting == Some(u)))
    }

    /** The program's commands at one tick, and the next tick. */
    method Tick(cs: seq<Command>, cb: nat -> seq<Command>, ghost tail: nat, ghost roles: Roles)
      returns (ghost fired: seq<nat>)
      requires Ready() && Tame(roles) && temp.None? && Settled() && Lawful(cb)
      requires forall c :: c in cs ==> Legal(c) && Minds(c, roles)
      requires Behaves(cb, tail, roles)
      modifies this, timers
      ensures Ready() && Tame(roles) && temp.None? && Settled() && now == old(now) + 1
      ensures Ticked(cs, cb, fired, old(Views()), Views(), old(now)) && log == old(log) + Logged(fired, now)
      ensures forall upto :: upto >= now ==> Kept(cs, cb, old(Views()), old(log), old(now), Views(), log, upto)
    {
      Execute(cs, roles);
      assert Views() == Commanded(old(Views()), cs, now);
      forall u: nat | u < timers.Length && Spared(cs, u) ensures ViewOf(u) == old(ViewOf(u)) {
        EffectsSpared(cs, u, old(ViewOf(u)), now);
      }
      fired := TickIncrease(cb, tail, roles);
    }

    /** What the program and the callbacks of every tick may do. */
    ghost predicate Proper(program: nat -> seq<Command>, callbacks: nat -> nat -> seq<Command>, tails: nat -> nat,
                           roles: Roles) {
      && Lawful(program) && (forall i, c :: c in program(i) ==> Minds(c, roles))
      && forall i :: Lawful(callbacks(i)) && Behaves(callbacks(i), tails(i), roles)
    }

    lemma ProperAt(program: nat -> seq<Command>, callbacks: nat -> nat -> seq<Command>, tails: nat -> nat,
                   roles: Roles, i: nat)
      requires Proper(program, callbacks, tails, roles)
      ensures Lawful(callbacks(i)) && Behaves(callbacks(i), tails(i), roles)
      ensures forall c :: c in program(i) ==> Legal(c) && Minds(c, roles)
    {
    }

    /** The program between two ticks, then the tick, `n` times over; `trace` holds the timers before, between and after
        them, and `fired` the timers that fired at each tick. */
    method Run(n: nat, program: nat -> seq<Command>, callbacks: nat -> nat -> seq<Command>, ghost tails: nat -> nat,
               ghost roles: Roles) returns (ghost trace: seq<seq<View>>, ghost fired: seq<seq<nat>>)
      requires Ready() && Tame(roles) && temp.None? && Settled() && Proper(program, callbacks, tails, roles)
      modifies this, timers
      ensures Ready() && Tame(roles) && temp.None? && Settled() && now == old(now) + n
      ensures forall u: nat :: u < timers.Length && Alone(program, u) && (forall i :: Alone(callbacks(i), u)) ==>
                Firings(log, u) == old(Firings(log, u)) + Remaining(old(ViewOf(u)), old(now), now)
      ensures |trace| == n + 1 && |fired| == n && trace[0] == old(Views()) && trace[n] == Views()
      ensures AllTicked(program, callbacks, n, trace, fired, old(now))
    {
      ghost var vs, so, s, end := Views(), log, now, now + n;
      ghost var us := set u: nat | u < timers.Length && Alone(program, u) && forall i :: Alone(callbacks(i), u);
      trace, fired := [vs], [];
      for i := 0 to n
        invariant Ready() && Tame(roles) && temp.None? && Settled() && now == s + i
        invariant Steady(us, vs, so, s, Views(), log, now, end)
        invariant |trace| == i + 1 && |fired| == i && trace[0] == vs && trace[i] == Views()
        invariant AllTicked(program, callbacks, i, trace, fired, s)
      {
        ghost var ws, more, at := Views(), log, now;
        var cs, cb := program(i), callbacks(i);
        ProperAt(program, callbacks, tails, roles, i);
        ghost var f := Tick(cs, cb, tails(i), roles);
        ghost var xs, most := Views(), log;
        assert Kept(cs, cb, ws, more, at, xs, most, end);
        SteadyMore(us, vs, so, s, ws, more, at, cs, cb, xs, most, end);
        TickedMore(program, callbacks, i, trace, fired, s, cs, cb, f, xs);
        trace, fired := trace + [xs], fired + [f];
      }
    }

    /** The time is set and the timer started, as `rt_thread_sleep` does with interrupts disabled. */
    method SetAndStart(t: nat, d: nat, ghost roles: Roles)
      requires Ready() && Tame(roles) && temp.None? && Settled() && t < timers.Length && 0 < d < HALF
      requires t !in roles.idle
      modifies this`rows, this`temp, this`due, this`limbo, this`randomNr, this`height, timers
      ensures Ready() && Tame(roles) && temp.None? && Settled()
      ensures ViewOf(t) == Started(old(ViewOf(t)).(timer := old(timers[t]).(init := d)), now)
    {
      DoTame(SetTime(t, d), roles);
      label timed:
      DoTame(Command.Start(t), roles);
      forall u | u in Pending() ensures Of(due, u) > now {
        if u != t { assert ViewOf(u) == old@timed(ViewOf(u)) == old(ViewOf(u)); }
      }
    }

    /** `rt_thread_sleep`, with the timer of the thread: it fires `d` ticks later, once, whatever other timers do. */
    method Sleep(t: nat, d: nat, n: nat, program: nat -> seq<Command>, callbacks: nat -> nat -> seq<Command>,
                 ghost tails: nat -> nat, ghost roles: Roles)
      requires Ready() && Tame(roles) && temp.None? && Settled() && Proper(program, callbacks, tails, roles)
      requires t < timers.Length && 0 < d < HALF && t !in roles.idle && !timers[t].periodic
      requires Alone(program, t) && forall i :: Alone(callbacks(i), t)
      modifies this, timers
      ensures Ready() && Tame(roles) && temp.None? && Settled() && now == old(now) + n
      ensures Firings(log, t) == old(Firings(log, t)) + if d <= n then [old(now) + d] else []
    {
      ghost var v, s := ViewOf(t), now;
      SetAndStart(t, d, roles);
      StartedFires(v.(timer := v.timer.(init := d)), s, s + n);
      ghost var trace, fired := Run(n, program, callbacks, tails, roles);
    }

    // ----- when the check ends -----

    /** A timer that the loop of the check can never get rid of. */
    ghost predicate Stuck(t: nat)
      requires Sized()
      reads this`rows, this`due, this`height, this`now, timers
    {
      t in Pending() && t < timers.Length && timers[t].periodic && timers[t].init == 0 && Of(due, t) <= now
    }

    ghost predicate NoneStuck()
      requires Sized()
      reads this`rows, this`due, this`height, this`now, timers
    {
      forall t: nat :: t < timers.Length ==> !Stuck(t)
    }

    /** A turn with a callback that issues no commands keeps a stuck timer stuck, and makes none. */
    method QuietTurn() returns (more: bool)
      requires Ready() && temp.None?
      modifies this, timers
      ensures Ready() && temp.None? && now == old(now) && NoneStuck() == old(NoneStuck())
      ensures more <==> old(DueNow()) != {}
      ensures !more ==> Settled() && NoneStuck()
      ensures more && NoneStuck() ==> |DueNow()| == |old(DueNow())| - 1
    {
      ghost var was, none := DueNow(), NoneStuck();
      ghost var t;
      more, t := Turn([], Roles({}, {}));
      if more {
        assert ViewOf(t) == FiredAlone(old(ViewOf(t)), now);
        forall u: nat | u < timers.Length
          ensures Stuck(u) == old(Stuck(u)) && (u in DueNow() <==> u in was && (u != t || Stuck(t)))
        {
          assert u != t ==> ViewOf(u) == old(ViewOf(u));
        }
        if none {
          assert !Stuck(t) && t in was;
          assert DueNow() == was - {t};
        }
      } else {
        assert forall u :: u in Pending() && Of(due, u) <= now ==> u in DueNow();
      }
    }

    /** At most `n` turns of the loop in `rt_timer_check`, with callbacks that issue no commands: given one turn more
        than there are due timers, the loop ends if and only if no timer is stuck. */
    method QuietTurns(n: nat) returns (ended: bool)
      requires Ready() && temp.None?
      modifies this, timers
      ensures Ready() && temp.None? && now == old(now)
      ensures ended ==> Settled()
      ensures !old(NoneStuck()) ==> !ended
      ensures n > |old(DueNow())| ==> (ended <==> old(NoneStuck()))
    {
      ended := false;
      var k := 0;
      while k < n && !ended
        invariant k <= n && Ready() && temp.None? && now == old(now)
        invariant ended ==> Settled() && NoneStuck()
        invariant NoneStuck() == old(NoneStuck())
        invariant NoneStuck() && !ended ==> |DueNow()| + k == |old(DueNow())|
      {
        var more := QuietTurn();
        k, ended := k + 1, !more;
      }
    }

    /** A due periodic timer of time 0 that no callback concerns keeps the loop going: there is no end of firings,
        whatever the callbacks do to other timers. */
    method ZeroPeriodSpins(n: nat, t: nat, cb: nat -> seq<Command>)
      requires Ready() && temp.None? && Stuck(t) && Lawful(cb) && Alone(cb, t)
      modifies this, timers
      ensures Ready() && temp.None? && Stuck(t) && now == old(now)
      ensures |log| == |old(log)| + n
    {
      for k := 0 to n
        invariant Ready() && temp.None? && Stuck(t) && now == old(now)
        invariant |log| == |old(log)| + k
      {
        assert FlagOk(t) && t in DueNow() && Spared(cb(k), t);
        label before:
        var more, head := Turn(cb(k), Roles({}, {}));
        EffectsSpared(cb(k), t, if head == t then Taken(old@before(ViewOf(t))) else old@before(ViewOf(t)), now);
        assert ViewOf(t).pending && ViewOf(t).due <= now;
      }
    }

    lemma HeadFirst(t: nat)
      requires Shape() && t in Pending()
      ensures |Pending()| > 0 && Of(due, Pending()[0]) <= Of(due, t)
    {
      var i :| 0 <= i < |Pending()| && Pending()[i] == t;
      assert Ordered(Pending(), due, 0, i);
    }

    /** A timer that fired is marked active exactly if it is on the list again, unless it was periodic and its callback
        made it one-shot and otherwise left it where it was. */
    method CallbackClearsPeriodic(t: nat, cs: seq<Command>)
      requires Ready() && |Pending()| > 0 && t == Pending()[0] && Of(due, t) <= now && temp.None?
      requires forall c :: c in cs ==> Legal(c)
      modifies this, timers
      ensures Ready() && temp.None? && t < timers.Length
      ensures (timers[t].active <==> t in Pending()) <==>
                !(old(timers[t].periodic) && Stays(cs, t) && !KindAfter(cs, t, true))
    {
      assert FlagOk(t) && t in Pending();
      ActiveIffListed(cs, t, ViewOf(t), now);
      Fire(t, cs, Roles({}, {}));
    }

    /** `rt_timer_list_next_timeout`: the earliest deadline. */
    method NextTimeout() returns (r: nat)
      requires Valid()
      ensures Pending() == [] ==> r == TICKS - 1
      ensures Pending() != [] ==>
                exists t :: t in Pending() && r == Wrap(Of(due, t)) && forall u :: u in Pending() ==>
                  Of(due, t) <= Of(due, u)
    {
      r := 0xffff_ffff;
      if |rows[level - 1]| > 0 {
        var t := rows[level - 1][0];
        assert t in Pending() && ClockOk(t);
        r := timers[t].timeout;
        forall u | u in Pending() ensures Of(due, t) <= Of(due, u) {
          HeadFirst(u);
        }
      }
    }
  }
}

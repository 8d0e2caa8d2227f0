/** The fixed-block pools of rt-thread/src/mempool.c.

    In front of every block lies one word: while the block is free it links to the next
    free block, while the block is in use it names the pool.  Blocks are numbered. */
module MemPool {
  import opened Chains
  import opened Common
  import opened Rings
  import opened WaitList

  /** The size of the word in front of a block. */
  const WORD: nat := 4

  datatype Word = Link(next: int) | Tag(pool: int)

  datatype Phase = Idle | Waiting | Woken

  datatype Outcome = Got(block: nat) | TimedOut | Blocked

  datatype Step =
    | AllocStep(thread: nat, time: int)
    | FreeStep(block: nat)
    | TimeoutStep(thread: nat)

  /** How many blocks `rt_mp_init` counts, each with its word. */
  function BlockCount(size: nat, blockSize: nat): nat {
    AlignDown(size) / (AlignUp(blockSize) + WORD)
  }

  /** The blocks fit into the pool and hold what they should, and no further block would fit. */
  lemma BlocksFit(size: nat, blockSize: nat)
    ensures AlignUp(blockSize) >= blockSize
    ensures BlockCount(size, blockSize) * (AlignUp(blockSize) + WORD) <= size
    ensures size < (BlockCount(size, blockSize) + 1) * (AlignUp(blockSize) + WORD)
  {
    AlignUpFacts(blockSize);
    AlignDownFacts(size);
    var words, room := AlignUp(blockSize) / WORD + 1, AlignDown(size) / WORD;
    assert AlignUp(blockSize) + WORD == WORD * words && AlignDown(size) == WORD * room;
    var n := BlockCount(size, blockSize);
    Fewest(WORD * room, n, WORD * words);
    assert (n + 1) * (WORD * words) == WORD * ((n + 1) * words);
  }

  lemma Fewest(room: nat, n: nat, stride: nat)
    requires stride > 0 && n == room / stride
    ensures n * stride <= room < (n + 1) * stride
  {
    assert (n + 1) * stride == n * stride + stride;
  }

  /** Where the last write of `rt_mp_init`, the null link of the last block, goes, from the start of the pool. */
  function LastLink(size: nat, blockSize: nat): int {
    (BlockCount(size, blockSize) - 1) * (AlignUp(blockSize) + WORD)
  }

  /** That write lies inside the pool exactly if there is room for a block; otherwise it lies in front of the pool. */
  lemma LastLinkInside(size: nat, blockSize: nat)
    ensures var inside := 0 <= LastLink(size, blockSize) && LastLink(size, blockSize) + WORD <= size;
      inside <==> BlockCount(size, blockSize) > 0
  {
    AlignDownFacts(size);
    var stride: nat := AlignUp(blockSize) + WORD;
    var room := AlignDown(size);
    Fit(room, room / stride, stride);
  }

  lemma Fit(room: nat, count: nat, stride: nat)
    requires stride > 0 && count == room / stride
    ensures count * stride <= room && (count > 0 ==> 0 <= (count - 1) * stride)
    ensures (count - 1) * stride == count * stride - stride
  {
  }

  ghost function NextOf(w: Word): int {
    if w.Link? then w.next else NULL
  }

  ghost function Nexts(words: seq<Word>): seq<int> {
    seq(|words|, k requires 0 <= k < |words| => NextOf(words[k]))
  }

  // ----- what each region does -----

  /** The free blocks in the order in which they will be taken, the blocks in use, and the threads. */
  datatype State = State(free: seq<nat>, live: set<nat>, waiters: seq<nat>, phase: seq<Phase>)

  /** The first free block is taken, or the call fails or waits in front of the others; a block in use comes back as the
      first to be taken, and the first waiter is resumed; a timeout ends a wait. */
  ghost predicate Next(step: Step, s: State, u: State) {
    match step
    case AllocStep(t, time) =>
      u == if t >= |s.phase| || s.phase[t] == Waiting then s
           else if s.free != []
             then State(s.free[1..], s.live + {s.free[0]}, s.waiters, s.phase[t := Idle])
           else if time == 0 then s.(phase := s.phase[t := Idle])
           else s.(waiters := [t] + s.waiters, phase := s.phase[t := Waiting])
    case FreeStep(block) =>
      u == if block !in s.live then s
           else if s.waiters == [] then s.(free := [block] + s.free, live := s.live - {block})
           else State([block] + s.free, s.live - {block}, s.waiters[1..], Resumed(s.phase, s.waiters[0]))
    case TimeoutStep(t) =>
      u == if t < |s.phase| && s.phase[t] == Waiting
           then s.(waiters := Dropped(s.waiters, t), phase := s.phase[t := Idle]) else s
  }

  class Pool {
    const id: int
    const total: nat
    const blockSize: nat
    const words: array<Word>
    const phase: array<Phase>
    var blockList: int
    var freeCount: nat
    var waiters: seq<nat>
    ghost var free: seq<nat>
    ghost var woken: set<nat>

    ghost predicate BlockOk(k: nat)
      reads this`free, words
    {
      k < words.Length ==> if k in free then words[k].Link? else words[k] == Tag(id)
    }

    /** The free list threads through exactly the blocks not in use; every block in use names this pool. */
    ghost predicate Blocks()
      reads this`free, this`blockList, this`freeCount, words
    {
      && words.Length == total && Chain(Nexts(words[..]), free) && (forall k :: k in free ==> k < total)
      && blockList == First(free) && freeCount == |free|
      && forall k: nat {:trigger BlockOk(k)} :: BlockOk(k)
    }

    ghost predicate PhaseOk(t: nat)
      reads this`waiters, this`woken, phase
    {
      if t < phase.Length
      then (t in waiters <==> phase[t] == Waiting) && (t in woken <==> phase[t] == Woken)
      else t !in waiters && t !in woken
    }

    /** While a thread waits, others have been woken for all free blocks. */
    ghost predicate NoneLost()
      reads this`waiters, this`woken, this`freeCount
    {
      waiters != [] ==> freeCount <= |woken|
    }

    ghost predicate Valid()
      reads this, words, phase
    {
      && words as object != phase && Blocks() && NoneLost() && Distinct(waiters)
      && forall t: nat {:trigger PhaseOk(t)} :: PhaseOk(t)
    }

    /** The blocks in use. */
    ghost function Live(): set<nat>
      reads words
    {
      set k: nat | k < words.Length && words[k].Tag?
    }

    /** Free blocks and blocks in use make up the pool. */
    lemma Conservation()
      requires Valid()
      ensures freeCount + |Live()| == total
    {
      var s := ElementsOf(free);
      forall k: nat ensures k in Below(total) <==> k in s || k in Live() {
        assert BlockOk(k);
      }
      forall k: nat ensures !(k in s && k in Live()) {
        assert BlockOk(k);
      }
      assert s !! Live() && s + Live() == Below(total);
    }

    /** `rt_mp_init`, for a pool with room for at least one block. */
    constructor (id: int, size: nat, blockSize: nat, threads: nat)
      requires BlockCount(size, blockSize) > 0
      ensures Valid() && this.id == id && this.blockSize == AlignUp(blockSize)
      ensures total == BlockCount(size, blockSize) == freeCount
      ensures waiters == [] && phase.Length == threads && forall t :: 0 <= t < threads ==> phase[t] == Idle
    {
      var n := BlockCount(size, blockSize);
      this.id := id;
      this.blockSize := AlignUp(blockSize);
      total := n;
      words := new Word[n](k => Word.Link(if k + 1 < n then k + 1 else NULL));
      phase := new Phase[threads](_ => Idle);
      blockList := 0;
      freeCount := n;
      waiters := [];
      free := seq(n, k => k);
      woken := {};
      new;
      assert |free| == n > 0 && free[0] == 0;
      forall k: nat ensures BlockOk(k) {
        assert k < n ==> free[k] == k;
      }
      var nexts := Nexts(words[..]);
      forall i ensures Joined(nexts, free, i) {}
    }

    /** Take the first free block. */
    method Pop() returns (block: nat)
      requires Blocks() && free != []
      modifies this`free, this`blockList, this`freeCount, words
      ensures Blocks() && block == old(free)[0] && free == old(free)[1..]
      ensures block < total && words[..] == old(words[..])[block := Tag(id)]
    {
      ghost var nexts := Nexts(words[..]);
      Popped(nexts, free);
      assert free[0] in free && BlockOk(free[0]);
      freeCount := freeCount - 1;
      block := blockList;
      blockList := words[block].next;
      words[block] := Tag(id);
      free := free[1..];
      Spared(nexts, Nexts(words[..]), free);
      forall k: nat ensures BlockOk(k) {
        assert old(BlockOk(k));
      }
    }

    /** Put a block in front of the free list. */
    method Push(block: nat)
      requires Blocks() && block < total && words[block].Tag?
      modifies this`free, this`blockList, this`freeCount, words
      ensures Blocks() && free == [block] + old(free)
      ensures words[..] == old(words[..])[block := Word.Link(First(old(free)))]
    {
      ghost var nexts := Nexts(words[..]);
      assert BlockOk(block);
      Pushed(nexts, free, block);
      freeCount := freeCount + 1;
      words[block] := Word.Link(blockList);
      assert Nexts(words[..]) == nexts[block := First(free)];
      blockList := block;
      free := [block] + free;
      forall k: nat ensures BlockOk(k) {
        assert old(BlockOk(k));
      }
    }

    method SetPhase(t: nat, p: Phase)
      requires Distinct(waiters) && t < phase.Length && phase[t] != Waiting && p != Woken
      requires forall u: nat {:trigger PhaseOk(u)} :: PhaseOk(u)
      modifies this`waiters, this`woken, phase
      ensures Distinct(waiters) && forall u: nat {:trigger PhaseOk(u)} :: PhaseOk(u)
      ensures phase[..] == old(phase[..])[t := p]
      ensures waiters == if p == Waiting then [t] + old(waiters) else old(waiters)
      ensures |woken| == old(|woken|) - if old(phase[t]) == Woken then 1 else 0
    {
      assert PhaseOk(t);
      assert phase[t] != Woken ==> woken - {t} == woken;
      woken := woken - {t};
      if p == Waiting {
        DistinctFront(waiters, t);
        waiters := [t] + waiters;
      }
      phase[t] := p;
      forall u: nat ensures PhaseOk(u) {
        assert old(PhaseOk(u));
      }
    }

    /** One region of `rt_mp_alloc`: the first, or one after thread `t` was resumed.  Whoever waits goes to the
        front. */
    method Alloc(t: nat, time: int) returns (out: Outcome)
      requires Valid() && t < phase.Length && phase[t] != Waiting
      modifies this`free, this`blockList, this`freeCount, this`waiters, this`woken, words, phase
      ensures Valid()
      ensures out == if old(free) != [] then Got(old(free)[0]) else if time == 0 then TimedOut else Blocked
      ensures out.Got? ==> out.block !in old(Live()) && Live() == old(Live()) + {out.block} && free == old(free)[1..]
      ensures !out.Got? ==> Live() == old(Live()) && free == old(free)
      ensures waiters == if out == Blocked then [t] + old(waiters) else old(waiters)
      ensures phase[..] == old(phase[..])[t := if out == Blocked then Waiting else Idle]
    {
      if freeCount == 0 {
        if time == 0 {
          SetPhase(t, Idle);
          return TimedOut;
        }
        SetPhase(t, Waiting);
        return Blocked;
      }
      assert free[0] in free && BlockOk(free[0]);
      SetPhase(t, Idle);
      var block := Pop();
      return Got(block);
    }

    /** `rt_mp_free`: the block's own tag says that it is this pool's. */
    method Free(block: nat)
      requires Valid() && block in Live()
      modifies this`free, this`blockList, this`freeCount, this`waiters, this`woken, words, phase
      ensures Valid() && Live() == old(Live()) - {block} && free == [block] + old(free)
      ensures waiters == if old(waiters) == [] then [] else old(waiters)[1..]
      ensures phase[..] == if old(waiters) == [] then old(phase[..]) else Resumed(old(phase[..]), old(waiters)[0])
    {
      Push(block);
      if waiters != [] {
        ghost var list := waiters;
        var t := waiters[0];
        assert t in waiters && PhaseOk(t);
        DistinctTail(list);
        waiters := waiters[1..];
        woken := woken + {t};
        phase[t] := Woken;
        forall u: nat ensures PhaseOk(u) {
          assert old(PhaseOk(u));
        }
      }
    }

    /** `rt_thread_timeout` for a waiting thread. */
    method Timeout(t: nat)
      requires Valid() && t < phase.Length && phase[t] == Waiting
      modifies this`waiters, phase
      ensures Valid() && waiters == Dropped(old(waiters), t) && phase[..] == old(phase[..])[t := Idle]
    {
      assert PhaseOk(t);
      DroppedHas(waiters, t);
      waiters := Dropped(waiters, t);
      phase[t] := Idle;
      forall u: nat ensures PhaseOk(u) {
        assert old(PhaseOk(u));
      }
    }

    ghost function Now(): State
      reads this`free, this`waiters, words, phase
    {
      State(free, Live(), waiters, phase[..])
    }

    method Do(step: Step)
      requires Valid()
      modifies this`free, this`blockList, this`freeCount, this`waiters, this`woken, words, phase
      ensures Valid() && Next(step, old(Now()), Now())
    {
      match step
      case AllocStep(t, time) =>
        if t < phase.Length && phase[t] != Waiting { var out := Alloc(t, time); }
      case FreeStep(block) =>
        if block < words.Length && words[block].Tag? { Free(block); }
      case TimeoutStep(t) =>
        if t < phase.Length && phase[t] == Waiting { Timeout(t); }
    }

    /** In every reachable state the free count, the free list and the tags agree, and no wakeup is lost. */
    method Run(steps: seq<Step>) returns (ghost trace: seq<State>)
      requires Valid()
      modifies this`free, this`blockList, this`freeCount, this`waiters, this`woken, words, phase
      ensures Valid() && freeCount + |Live()| == total
      ensures waiters != [] && woken == {} ==> |Live()| == total
      ensures |trace| == |steps| + 1 && trace[0] == old(Now()) && trace[|steps|] == Now()
      ensures forall i :: 0 <= i < |steps| ==> Next(steps[i], trace[i], trace[i + 1])
    {
      trace := [Now()];
      for i := 0 to |steps|
        invariant Valid() && |trace| == i + 1 && trace[0] == old(Now()) && trace[i] == Now()
        invariant forall j :: 0 <= j < i ==> Next(steps[j], trace[j], trace[j + 1])
      {
        Do(steps[i]);
        trace := trace + [Now()];
      }
      Conservation();
    }
  }

  ghost function Resumed(ps: seq<Phase>, t: nat): seq<Phase> {
    if t < |ps| then ps[t := Woken] else ps
  }
}

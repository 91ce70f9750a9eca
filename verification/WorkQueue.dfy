/** A core's work queue and its spinlock, under every interleaving of the loads and stores of any number of threads. */
module WorkQueue {

  const NULL: nat := 0
  const U32: nat := 0x1_0000_0000

  /** func and arg are one value, the work to be done. */
  datatype Item = Item(work: int, next: nat)

  /** Where a thread is in enqueue_work (E...) or drain_work_queue (D...), with the locals it has set so far. */
  datatype Pc =
    | Idle
    | ELock(item: nat)
    | ETestTail(item: nat)
    | ELinkTail(item: nat, tail: nat)
    | ELinkHead(item: nat)
    | ESetTail(item: nat)
    | ELoadCount
    | EStoreCount(loaded: nat)
    | EUnlock
    | DLock
    | DLoadHead
    | DSetHead(item: nat)
    | DTestHead(item: nat)
    | DClearTail(item: nat)
    | DLoadCount(item: nat)
    | DStoreCount(item: nat, loaded: nat)
    | DUnlock(item: nat)
    | DRun(item: nat)
    | DFree(item: nat)

  datatype Option = None | Some(thread: nat)

  /**
   * Memory and places. History: the addresses in the queue, in order, all work ever linked in and all work ever taken
   * out, in the order of the critical sections, and the thread that holds the lock.
   */
  datatype State = State(
    lock: nat, head: nat, tail: nat, count: nat, heap: map<nat, Item>, pc: seq<Pc>,
    queue: seq<nat>, pushed: seq<int>, popped: seq<int>, holder: Option)

  function At(s: State, t: nat, pc: Pc): State
    requires t < |s.pc|
  {
    s.(pc := s.pc[t := pc])
  }

  // ----- steps -----

  /**
   * One atomic step of thread `t`; a failed xchg, and the loop that polls the lock, change nothing and are left out.
   */
  ghost predicate Step(s: State, t: nat, s': State)
    requires t < |s.pc|
  {
    match s.pc[t]
    case Idle => Start(s, t, s')
    case ELock(a) => s.lock == 0 && s' == At(s, t, ETestTail(a)).(lock := 1, holder := Some(t))
    case ETestTail(a) => s' == At(s, t, if s.tail != NULL then ELinkTail(a, s.tail) else ELinkHead(a))
    case ELinkTail(a, last) =>
      a in s.heap && last in s.heap &&
      s' == At(s, t, ESetTail(a)).(heap := s.heap[last := s.heap[last].(next := a)],
                                   queue := s.queue + [a], pushed := s.pushed + [s.heap[a].work])
    case ELinkHead(a) =>
      a in s.heap && s' == At(s, t, ESetTail(a)).(head := a, queue := s.queue + [a], pushed :=
        s.pushed + [s.heap[a].work])
    case ESetTail(a) => s' == At(s, t, ELoadCount).(tail := a)
    case ELoadCount => s' == At(s, t, EStoreCount(s.count))
    case EStoreCount(n) => s' == At(s, t, EUnlock).(count := (n + 1) % U32)
    case EUnlock => s' == At(s, t, Idle).(lock := 0, holder := None)
    case DLock => s.lock == 0 && s' == At(s, t, DLoadHead).(lock := 1, holder := Some(t))
    case DLoadHead => s' == At(s, t, if s.head != NULL then DSetHead(s.head) else DUnlock(NULL))
    case DSetHead(a) =>
      a in s.heap && s.queue != [] &&
      s' == At(s, t, DTestHead(a)).(head := s.heap[a].next, queue := s.queue[1..], popped :=
        s.popped + [s.heap[a].work])
    case DTestHead(a) => s' == At(s, t, if s.head == NULL then DClearTail(a) else DLoadCount(a))
    case DClearTail(a) => s' == At(s, t, DLoadCount(a)).(tail := NULL)
    case DLoadCount(a) => s' == At(s, t, DStoreCount(a, s.count))
    case DStoreCount(a, n) => s' == At(s, t, DUnlock(a)).(count := (n - 1) % U32)
    case DUnlock(a) => s' == At(s, t, if a == NULL then Idle else DRun(a)).(lock := 0, holder := None)
    case DRun(a) => s' == At(s, t, DFree(a))
    case DFree(a) => s' == At(s, t, DLock).(heap := s.heap - {a})
  }

  /** An idle thread starts to drain the queue, or to enqueue an item at whatever unused address kmalloc gives it. */
  ghost predicate Start(s: State, t: nat, s': State)
    requires t < |s.pc|
  {
    s' == At(s, t, DLock) || exists a, work :: NewItem(s, t, s', a, work)
  }

  ghost predicate NewItem(s: State, t: nat, s': State, a: nat, work: int)
    requires t < |s.pc|
  {
    a != NULL && a !in s.heap && s' == At(s, t, ELock(a)).(heap := s.heap[a := Item(work, NULL)])
  }

  ghost predicate Init(s: State) {
    && s.lock == 0 && s.head == NULL && s.tail == NULL && s.count == 0 && NULL !in s.heap
    && s.queue == [] && s.pushed == [] && s.popped == [] && s.holder == None
    && forall t: nat :: t < |s.pc| ==> s.pc[t].Idle?
  }

  ghost predicate Next(s: State, s': State) {
    exists t: nat :: t < |s.pc| && Step(s, t, s')
  }

  ghost predicate Run(trace: seq<State>) {
    && trace != [] && Init(trace[0])
    && forall i :: 0 <= i < |trace| - 1 ==> Next(trace[i], trace[i + 1])
  }

  // ----- invariant -----

  predicate InCritical(pc: Pc) {
    !(pc.Idle? || pc.ELock? || pc.DLock? || pc.DRun? || pc.DFree?)
  }

  /** The item that belongs to the thread alone; NULL for none. */
  function Own(pc: Pc): nat {
    match pc
    case ELock(a) => a
    case ETestTail(a) => a
    case ELinkTail(a, _) => a
    case ELinkHead(a) => a
    case DTestHead(a) => a
    case DClearTail(a) => a
    case DLoadCount(a) => a
    case DStoreCount(a, _) => a
    case DUnlock(a) => a
    case DRun(a) => a
    case DFree(a) => a
    case _ => NULL
  }

  predicate Enqueueing(pc: Pc) { pc.ELock? || pc.ETestTail? || pc.ELinkTail? || pc.ELinkHead? }

  /** The addresses of the queue are items, all different, linked in order; the last has no successor. */
  ghost predicate Chain(heap: map<nat, Item>, queue: seq<nat>) {
    && (forall i :: 0 <= i < |queue| ==> queue[i] in heap && queue[i] != NULL)
    && (forall i, j :: 0 <= i < j < |queue| ==> queue[i] != queue[j])
    && (forall i :: 0 <= i < |queue| ==> heap[queue[i]].next == Successor(queue, i))
  }

  function Successor(queue: seq<nat>, i: nat): nat { if i + 1 < |queue| then queue[i + 1] else NULL }

  function First(queue: seq<nat>): nat { if queue == [] then NULL else queue[0] }

  function Last(queue: seq<nat>): nat { if queue == [] then NULL else queue[|queue| - 1] }

  /** The 32-bit counter stands for `n`. */
  predicate CountIs(count: nat, n: int) { count == n % U32 }

  lemma CountSteps(count: nat, n: int)
    requires CountIs(count, n)
    ensures CountIs((count + 1) % U32, n + 1) && CountIs((count - 1) % U32, n - 1)
  {
    Remainder(n, n / U32, count);
    if count + 1 == U32 {
      Remainder(n + 1, n / U32 + 1, 0);
    } else {
      Remainder(n + 1, n / U32, count + 1);
    }
    if count == 0 {
      Remainder(n - 1, n / U32 - 1, U32 - 1);
    } else {
      Remainder(n - 1, n / U32, count - 1);
    }
  }

  lemma Remainder(n: int, q: int, r: nat)
    requires n == q * 0x1_0000_0000 + r && r < 0x1_0000_0000
    ensures n % 0x1_0000_0000 == r
  {
  }

  /** head, tail and count describe the queue, as far as the thread in the critical section has got. */
  ghost predicate Described(s: State, pc: Pc) {
    && s.head == First(s.queue)
    && (match pc
        case ESetTail(a) => s.queue != [] && a == Last(s.queue) && s.tail == Last(s.queue[..|s.queue| - 1])
        case DTestHead(a) => s.tail == if s.queue == [] then a else Last(s.queue)
        case DClearTail(a) => s.queue == []
        case _ => s.tail == Last(s.queue))
    && CountIs(s.count, |s.queue| + match pc
                                    case ESetTail(_) => -1
                                    case ELoadCount => -1
                                    case EStoreCount(_) => -1
                                    case DTestHead(_) => 1
                                    case DClearTail(_) => 1
                                    case DLoadCount(_) => 1
                                    case DStoreCount(_, _) => 1
                                    case _ => 0)
    && (match pc
        case ELinkTail(_, last) => last == s.tail && s.queue != []
        case ELinkHead(_) => s.queue == []
        case DSetHead(a) => s.queue != [] && a == s.head
        case EStoreCount(n) => n == s.count
        case DStoreCount(_, n) => n == s.count
        case _ => true)
  }

  function Works(heap: map<nat, Item>, queue: seq<nat>): (works: seq<int>)
    requires forall i :: 0 <= i < |queue| ==> queue[i] in heap
    ensures |works| == |queue|
  {
    seq(|queue|, i requires 0 <= i < |queue| => heap[queue[i]].work)
  }

  /** Places where a thread always has an item of its own. */
  predicate Owning(pc: Pc) {
    || Enqueueing(pc) || pc.DRun? || pc.DFree?
    || pc.DTestHead? || pc.DClearTail? || pc.DLoadCount? || pc.DStoreCount?
  }

  ghost predicate ThreadOk(s: State, t: nat)
    requires t < |s.pc|
  {
    var a := Own(s.pc[t]);
    && (InCritical(s.pc[t]) <==> s.holder == Some(t))
    && (a == NULL ==> !Owning(s.pc[t]))
    && (a != NULL ==> a in s.heap && a !in s.queue)
    && (Enqueueing(s.pc[t]) ==> a in s.heap && s.heap[a].next == NULL)
  }

  function HolderPc(s: State): Pc {
    if s.holder.Some? && s.holder.thread < |s.pc| then s.pc[s.holder.thread] else Idle
  }

  ghost predicate QueueOk(s: State) {
    && NULL !in s.heap && Chain(s.heap, s.queue)
    && (s.lock == 0 <==> s.holder == None) && s.lock <= 1
    && (s.holder.Some? ==> s.holder.thread < |s.pc|)
    && Described(s, HolderPc(s))
    && s.pushed == s.popped + Works(s.heap, s.queue)
  }

  ghost predicate ThreadsOk(s: State) {
    && (forall t: nat :: t < |s.pc| ==> ThreadOk(s, t))
    && (forall t: nat, u: nat :: t < |s.pc| && u < |s.pc| && t != u && Own(s.pc[t]) != NULL ==>
      Own(s.pc[t]) != Own(s.pc[u]))
  }

  ghost predicate Inv(s: State) {
    QueueOk(s) && ThreadsOk(s)
  }

  lemma InitInv(s: State)
    requires Init(s)
    ensures Inv(s)
  {
    assert forall t: nat :: t < |s.pc| ==> s.pc[t].Idle?;
  }

  lemma EndsNull(heap: map<nat, Item>, queue: seq<nat>)
    requires Chain(heap, queue)
    ensures First(queue) == NULL <==> queue == []
    ensures Last(queue) == NULL <==> queue == []
  {
  }

  predicate IsLocal(pc: Pc) { !pc.ELinkTail? && !pc.ELinkHead? && !pc.DSetHead? && !pc.DFree? }

  lemma Thread(s: State, t: nat)
    requires ThreadsOk(s) && t < |s.pc|
    ensures ThreadOk(s, t)
  {
  }

  /** What steps that change neither the heap nor the queue leave alone. */
  lemma LocalFrame(s: State, t: nat, s': State)
    requires t < |s.pc| && Step(s, t, s') && IsLocal(s.pc[t]) && (s.pc[t].Idle? ==> s' == At(s, t, DLock))
    ensures s' ==
      s.(lock := s'.lock, head := s'.head, tail := s'.tail, count := s'.count, pc := s'.pc, holder := s'.holder)
    ensures |s'.pc| == |s.pc| && s'.pc == s.pc[t := s'.pc[t]]
  {
  }

  lemma LocalOwn(s: State, t: nat, s': State)
    requires t < |s.pc| && Step(s, t, s') && IsLocal(s.pc[t]) && (s.pc[t].Idle? ==> s' == At(s, t, DLock))
    ensures |s'.pc| == |s.pc| && (Own(s'.pc[t]) == NULL || Own(s'.pc[t]) == Own(s.pc[t]))
  {
  }

  lemma LocalLock(s: State, t: nat, s': State)
    requires t < |s.pc| && Step(s, t, s') && IsLocal(s.pc[t]) && (s.pc[t].Idle? ==> s' == At(s, t, DLock))
    ensures (s'.lock == s.lock && s'.holder == s.holder) || (s'.lock == 1 && s'.holder == Some(t))
         || (s'.lock == 0 && s'.holder == None)
  {
  }

  /** Every step keeps what concerns single threads. */
  lemma LocalThreads(s: State, t: nat, s': State)
    requires Inv(s) && t < |s.pc| && Step(s, t, s') && IsLocal(s.pc[t]) && (s.pc[t].Idle? ==> s' == At(s, t, DLock))
    ensures ThreadsOk(s')
  {
    Thread(s, t);
    LocalFrame(s, t, s');
    LocalOwn(s, t, s');
    hide Chain, Works, First, Last, Described, ThreadOk, Step, Own;
    forall u: nat | u < |s.pc|
      ensures ThreadOk(s', u)
    {
      Thread(s, u);
      OneThread(s, t, s', u);
    }
  }

  lemma OneThread(s: State, t: nat, s': State, u: nat)
    requires t < |s.pc| && u < |s.pc| && ThreadOk(s, t) && ThreadOk(s, u) && (s.lock == 0 ==> s.holder == None)
    requires Step(s, t, s') && IsLocal(s.pc[t]) && (s.pc[t].Idle? ==> s' == At(s, t, DLock))
    ensures ThreadOk(s', u)
  {
    if u == t {
      OwnStep(s, t, s');
    }
  }

  lemma OwnStep(s: State, t: nat, s': State)
    requires t < |s.pc| && ThreadOk(s, t) && (s.lock == 0 ==> s.holder == None)
    requires Step(s, t, s') && IsLocal(s.pc[t]) && (s.pc[t].Idle? ==> s' == At(s, t, DLock))
    ensures t < |s'.pc| && ThreadOk(s', t)
  {
  }

  lemma LinkThreads(s: State, t: nat, s': State)
    requires Inv(s) && t < |s.pc| && Step(s, t, s') && (s.pc[t].ELinkTail? || s.pc[t].ELinkHead?)
    ensures ThreadsOk(s')
  {
    Thread(s, t);
    EndsNull(s.heap, s.queue);
    QueueHead(s.heap, s.queue);
    hide Chain, Works, First, Last, Described;
    forall u: nat | u < |s.pc|
      ensures ThreadOk(s', u)
      ensures u != t && Own(s'.pc[t]) != NULL ==> Own(s.pc[u]) != Own(s'.pc[t])
    {
      Thread(s, u);
    }
  }

  lemma UnlinkThreads(s: State, t: nat, s': State)
    requires Inv(s) && t < |s.pc| && Step(s, t, s') && s.pc[t].DSetHead?
    ensures ThreadsOk(s')
  {
    Thread(s, t);
    EndsNull(s.heap, s.queue);
    QueueHead(s.heap, s.queue);
    hide Chain, Works, First, Last, Described;
    forall u: nat | u < |s.pc|
      ensures ThreadOk(s', u)
      ensures u != t && Own(s'.pc[t]) != NULL ==> Own(s.pc[u]) != Own(s'.pc[t])
    {
      Thread(s, u);
    }
  }

  lemma FreeThreads(s: State, t: nat, s': State)
    requires Inv(s) && t < |s.pc| && Step(s, t, s') && s.pc[t].DFree?
    ensures ThreadsOk(s')
  {
    Thread(s, t);
    EndsNull(s.heap, s.queue);
    QueueHead(s.heap, s.queue);
    hide Chain, Works, First, Last, Described, CountIs;
    forall u: nat | u < |s.pc|
      ensures ThreadOk(s', u)
      ensures u != t && Own(s'.pc[t]) != NULL ==> Own(s.pc[u]) != Own(s'.pc[t])
    {
      Thread(s, u);
    }
  }

  lemma QueueHead(heap: map<nat, Item>, queue: seq<nat>)
    requires Chain(heap, queue)
    ensures queue != [] ==> First(queue) in queue && First(queue) in heap && First(queue) !in queue[1..]
    ensures queue != [] ==> Last(queue) in queue && Last(queue) in heap
    ensures forall a :: a in queue ==> a in heap
  {
  }

  /** Steps that change neither the heap nor the queue. */
  lemma LocalInv(s: State, t: nat, s': State)
    requires Inv(s) && t < |s.pc| && Step(s, t, s') && IsLocal(s.pc[t]) && (s.pc[t].Idle? ==> s' == At(s, t, DLock))
    ensures QueueOk(s')
  {
    hide Chain, Works, ThreadsOk, Described;
    LocalFrame(s, t, s');
    LocalLock(s, t, s');
    LocalDescribed(s, t, s');
    hide Step;
  }

  lemma LocalDescribed(s: State, t: nat, s': State)
    requires Inv(s) && t < |s.pc| && Step(s, t, s') && IsLocal(s.pc[t]) && (s.pc[t].Idle? ==> s' == At(s, t, DLock))
    ensures Described(s', HolderPc(s'))
  {
    hide Chain, Works, CountIs, U32, ThreadsOk;
    Thread(s, t);
    EndsNull(s.heap, s.queue);
    hide First, Last;
    if s.pc[t].EStoreCount? {
      CountSteps(s.count, |s.queue| - 1);
    } else if s.pc[t].DStoreCount? {
      CountSteps(s.count, |s.queue| + 1);
    }
  }

  lemma ChainSnoc(heap: map<nat, Item>, queue: seq<nat>, a: nat)
    requires Chain(heap, queue) && a in heap && a != NULL && heap[a].next == NULL && a !in queue
    ensures var h := if queue == [] then heap else heap[Last(queue) := heap[Last(queue)].(next := a)];
      Chain(h, queue + [a]) && Works(h, queue + [a]) == Works(heap, queue) + [heap[a].work]
    ensures First(queue + [a]) == (if queue == [] then a else First(queue)) && Last(queue + [a]) == a
  {
  }

  lemma LinkInv(s: State, t: nat, s': State)
    requires Inv(s) && t < |s.pc| && Step(s, t, s') && (s.pc[t].ELinkTail? || s.pc[t].ELinkHead?)
    ensures QueueOk(s')
  {
    Thread(s, t);
    var a := s.pc[t].item;
    LinkFrame(s, t, s');
    hide *;
    ChainSnoc(s.heap, s.queue, a);
    LinkDescribed(s, t, s');
    assert s.pushed + [s.heap[a].work] == s.popped + (Works(s.heap, s.queue) + [s.heap[a].work]);
    QueueOkOf(s');
  }

  /** What linking an item does. */
  lemma LinkFrame(s: State, t: nat, s': State)
    requires Inv(s) && t < |s.pc| && ThreadOk(s, t) && Step(s, t, s') && (s.pc[t].ELinkTail? || s.pc[t].ELinkHead?)
    ensures QueueOk(s) && Chain(s.heap, s.queue) && s.pushed == s.popped + Works(s.heap, s.queue)
    ensures var a := s.pc[t].item;
      && a in s.heap && a != NULL && a !in s.queue && s.heap[a].next == NULL
      && s'.heap == (if s.queue == [] then s.heap else s.heap[Last(s.queue) := s.heap[Last(s.queue)].(next := a)])
      && s'.queue == s.queue + [a] && s'.pushed == s.pushed + [s.heap[a].work] && s'.popped == s.popped
    ensures NULL !in s'.heap && (s'.lock == 0 <==> s'.holder == None) && s'.lock <= 1
    ensures s'.holder.Some? ==> s'.holder.thread < |s'.pc|
  {
    EndsNull(s.heap, s.queue);
    hide Chain, Works, First, Last, CountIs, ThreadsOk;
  }

  lemma QueueOkOf(s: State)
    requires NULL !in s.heap && Chain(s.heap, s.queue)
    requires (s.lock == 0 <==> s.holder == None) && s.lock <= 1
    requires s.holder.Some? ==> s.holder.thread < |s.pc|
    requires Described(s, HolderPc(s))
    requires s.pushed == s.popped + Works(s.heap, s.queue)
    ensures QueueOk(s)
  {
    hide Chain, Described, Works;
  }

  lemma LinkDescribed(s: State, t: nat, s': State)
    requires t < |s.pc| && Step(s, t, s') && (s.pc[t].ELinkTail? || s.pc[t].ELinkHead?)
    requires QueueOk(s) && ThreadOk(s, t)
    requires var q, a := s.queue, s.pc[t].item;
      First(q + [a]) == (if q == [] then a else First(q)) && Last(q + [a]) == a
    ensures Described(s', HolderPc(s'))
  {
    hide Chain, Works, First, Last, CountIs;
    assert s'.queue[..|s'.queue| - 1] == s.queue;
  }

  lemma ChainTail(heap: map<nat, Item>, queue: seq<nat>)
    requires Chain(heap, queue) && queue != []
    ensures Chain(heap, queue[1..]) && heap[queue[0]].next == First(queue[1..]) && queue[0] !in queue[1..]
    ensures Works(heap, queue) == [heap[queue[0]].work] + Works(heap, queue[1..])
    ensures First(queue) == queue[0] && Last(queue) == if queue[1..] == [] then queue[0] else Last(queue[1..])
  {
    var rest := queue[1..];
    assert heap[queue[0]].next == Successor(queue, 0);
    forall i | 0 <= i < |rest|
      ensures heap[rest[i]].next == Successor(rest, i)
    {
      assert heap[queue[i + 1]].next == Successor(queue, i + 1);
    }
  }

  lemma UnlinkInv(s: State, t: nat, s': State)
    requires Inv(s) && t < |s.pc| && Step(s, t, s') && s.pc[t].DSetHead?
    ensures QueueOk(s')
  {
    Thread(s, t);
    hide ThreadsOk, CountIs;
    var work := s.heap[s.queue[0]].work;
    ChainTail(s.heap, s.queue);
    assert s.popped + [work] + Works(s.heap, s'.queue) == s.popped + ([work] + Works(s.heap, s'.queue));
    hide Chain, Works, First, Last;
  }

  /** What freeing an item does. */
  lemma FreeStep(s: State, t: nat, s': State)
    requires Inv(s) && t < |s.pc| && ThreadOk(s, t) && Step(s, t, s') && s.pc[t].DFree?
    ensures s' == At(s, t, DLock).(heap := s.heap - {s.pc[t].item}) && s.pc[t].item !in s.queue
    ensures QueueOk(s) && HolderPc(s') == HolderPc(s) && Chain(s.heap, s.queue) && Described(s, HolderPc(s))
  {
    hide Chain, Works, Described, ThreadsOk;
  }

  lemma QueueOkSame(s: State, s': State)
    requires QueueOk(s) && HolderPc(s') == HolderPc(s) && |s'.pc| == |s.pc| && NULL !in s'.heap
    requires s' == s.(heap := s'.heap, pc := s'.pc)
    requires Chain(s.heap, s.queue) && Chain(s'.heap, s.queue) && Works(s'.heap, s.queue) == Works(s.heap, s.queue)
    requires Described(s', HolderPc(s))
    ensures QueueOk(s')
  {
    hide Chain, Works, Described;
  }

  lemma InHeap(heap: map<nat, Item>, queue: seq<nat>)
    requires Chain(heap, queue)
    ensures forall a :: a in queue ==> a in heap
  {
  }

  lemma ChainFrame(heap: map<nat, Item>, heap': map<nat, Item>, queue: seq<nat>)
    requires Chain(heap, queue) && forall a :: a in queue ==> a in heap' && heap'[a] == heap[a]
    ensures Chain(heap', queue) && Works(heap', queue) == Works(heap, queue)
  {
  }

  lemma FreeInv(s: State, t: nat, s': State)
    requires Inv(s) && t < |s.pc| && Step(s, t, s') && s.pc[t].DFree?
    ensures QueueOk(s')
  {
    Thread(s, t);
    hide *;
    FreeStep(s, t, s');
    InHeap(s.heap, s.queue);
    ChainFrame(s.heap, s'.heap, s.queue);
    DescribedSame(s, s', HolderPc(s));
    QueueOkSame(s, s');
  }

  lemma NewInv(s: State, t: nat, s': State, a: nat, work: int)
    requires Inv(s) && t < |s.pc| && s.pc[t].Idle? && NewItem(s, t, s', a, work)
    ensures Inv(s')
  {
    NewQueue(s, t, s', a, work);
    NewThreads(s, t, s', a, work);
  }

  lemma NewQueue(s: State, t: nat, s': State, a: nat, work: int)
    requires Inv(s) && t < |s.pc| && s.pc[t].Idle? && NewItem(s, t, s', a, work)
    ensures QueueOk(s')
  {
    Thread(s, t);
    InHeap(s.heap, s.queue);
    hide Chain, Works, First, Last, CountIs, Described, ThreadsOk;
    ChainFrame(s.heap, s'.heap, s.queue);
    DescribedSame(s, s', HolderPc(s));
    QueueOkSame(s, s');
  }

  lemma NewThreads(s: State, t: nat, s': State, a: nat, work: int)
    requires Inv(s) && t < |s.pc| && s.pc[t].Idle? && NewItem(s, t, s', a, work)
    ensures ThreadsOk(s')
  {
    Thread(s, t);
    InHeap(s.heap, s.queue);
    hide Chain, Works, First, Last, CountIs, Described;
    forall u: nat | u < |s.pc|
      ensures ThreadOk(s', u)
      ensures u != t ==> Own(s.pc[u]) != a
    {
      Thread(s, u);
    }
  }

  lemma DescribedSame(s: State, s': State, pc: Pc)
    requires Described(s, pc) && s'.head == s.head && s'.tail == s.tail && s'.count == s.count && s'.queue == s.queue
    ensures Described(s', pc)
  {
  }

  lemma StepInv(s: State, t: nat, s': State)
    requires Inv(s) && t < |s.pc| && Step(s, t, s')
    ensures Inv(s')
  {
    if s.pc[t].Idle? && s' != At(s, t, DLock) {
      var a, work :| NewItem(s, t, s', a, work);
      NewInv(s, t, s', a, work);
    } else {
      hide QueueOk, ThreadsOk;
      if s.pc[t].ELinkTail? || s.pc[t].ELinkHead? {
        LinkInv(s, t, s');
        LinkThreads(s, t, s');
      } else if s.pc[t].DSetHead? {
        UnlinkInv(s, t, s');
        UnlinkThreads(s, t, s');
      } else if s.pc[t].DFree? {
        FreeInv(s, t, s');
        FreeThreads(s, t, s');
      } else {
        LocalInv(s, t, s');
        LocalThreads(s, t, s');
      }
    }
  }

  lemma {:induction false} RunInv(trace: seq<State>)
    requires Run(trace)
    ensures Inv(trace[|trace| - 1])
  {
    if |trace| == 1 {
      InitInv(trace[0]);
    } else {
      var init := trace[..|trace| - 1];
      forall i | 0 <= i < |init| - 1 ensures Next(init[i], init[i + 1]) {
        assert Next(trace[i], trace[i + 1]);
      }
      RunInv(init);
      var s, s' := trace[|trace| - 2], trace[|trace| - 1];
      assert Next(s, trace[|trace| - 2 + 1]);
      var t: nat :| t < |s.pc| && Step(s, t, s');
      StepInv(s, t, s');
    }
  }

  // ----- what every run guarantees -----

  /** At most one thread is in the critical section. */
  lemma MutualExclusion(trace: seq<State>, t: nat, u: nat)
    requires Run(trace)
    requires var s := trace[|trace| - 1]; t < |s.pc| && u < |s.pc| && InCritical(s.pc[t]) && InCritical(s.pc[u])
    ensures t == u
  {
    RunInv(trace);
    var s := trace[|trace| - 1];
    assert ThreadOk(s, t) && ThreadOk(s, u);
  }

  /** While nobody holds the lock, head, tail and count describe one finite list without repetition. */
  lemma QueueWhole(trace: seq<State>)
    requires Run(trace) && trace[|trace| - 1].lock == 0
    ensures var s := trace[|trace| - 1];
      Chain(s.heap, s.queue) && s.head == First(s.queue) && s.tail == Last(s.queue) && s.count == |s.queue| % U32
  {
    RunInv(trace);
  }

  /** Work leaves the queue in the order it entered, each piece at most once, and what has not left is still there. */
  lemma FirstInFirstOut(trace: seq<State>)
    requires Run(trace)
    ensures var s := trace[|trace| - 1];
      && s.popped <= s.pushed
      && (forall i :: 0 <= i < |s.queue| ==> s.queue[i] in s.heap)
      && s.pushed == s.popped + Works(s.heap, s.queue)
  {
    RunInv(trace);
  }

  /** Every item a thread is about to follow or free is there, and nobody else's: no use after free, no double free. */
  lemma ItemsSafe(trace: seq<State>, t: nat)
    requires Run(trace) && t < |trace[|trace| - 1].pc|
    ensures var s := trace[|trace| - 1];
      match s.pc[t]
      case ELinkTail(a, last) => a in s.heap && last in s.heap
      case ELinkHead(a) => a in s.heap
      case DSetHead(a) => a in s.heap && a == First(s.queue)
      case DRun(a) => a in s.heap && a !in s.queue
      case DFree(a) => a in s.heap && a !in s.queue && forall u: nat :: u < |s.pc| && u != t ==> Own(s.pc[u]) != a
      case _ => true
  {
    RunInv(trace);
    ItemsThere(trace[|trace| - 1], t);
  }

  lemma ItemsThere(s: State, t: nat)
    requires Inv(s) && t < |s.pc|
    ensures match s.pc[t]
      case ELinkTail(a, last) => a in s.heap && last in s.heap
      case ELinkHead(a) => a in s.heap
      case DSetHead(a) => a in s.heap && a == First(s.queue) && s.queue != []
      case DRun(a) => a in s.heap && a !in s.queue
      case DFree(a) => a in s.heap && a !in s.queue && forall u: nat :: u < |s.pc| && u != t ==> Own(s.pc[u]) != a
      case _ => true
  {
    assert ThreadOk(s, t);
  }

  predicate Waiting(pc: Pc) {
    pc.ELock? || pc.DLock?
  }

  ghost predicate CanMove(s: State, t: nat)
    requires t < |s.pc|
  {
    exists s' :: Step(s, t, s')
  }

  /** How many steps a thread in the critical section is from its end, at most. */
  function StepsLeft(pc: Pc): (n: nat)
    ensures n <= 7 && (n > 0 <==> InCritical(pc))
  {
    match pc
    case DLoadHead => 7
    case ETestTail(_) | DSetHead(_) => 6
    case ELinkTail(_, _) | ELinkHead(_) | DTestHead(_) => 5
    case ESetTail(_) | DClearTail(_) => 4
    case ELoadCount | DLoadCount(_) => 3
    case EStoreCount(_) | DStoreCount(_, _) => 2
    case EUnlock | DUnlock(_) => 1
    case _ => 0
  }

  /** In every run, a thread waits only while another one holds the lock. */
  lemma CanGoOn(trace: seq<State>, t: nat)
    requires Run(trace) && t < |trace[|trace| - 1].pc|
    ensures var s := trace[|trace| - 1];
      && (CanMove(s, t) <==> !Waiting(s.pc[t]) || s.lock == 0)
      && (s.lock != 0 <==> s.holder.Some?)
      && (s.holder.Some? ==> s.holder.thread < |s.pc| && CanMove(s, s.holder.thread))
  {
    RunInv(trace);
    var s := trace[|trace| - 1];
    if !Waiting(s.pc[t]) || s.lock == 0 {
      var s' := Move(s, t);
    }
    if s.holder.Some? {
      var h := s.holder.thread;
      assert ThreadOk(s, h);
      var s' := Move(s, h);
    }
  }

  /**
   * The holder gets nearer to giving the lock back with every step it takes, and no other thread's step takes it away.
   */
  lemma LockIsReleased(trace: seq<State>, t: nat, s': State)
    requires Run(trace) && trace[|trace| - 1].lock != 0
    requires t < |trace[|trace| - 1].pc| && Step(trace[|trace| - 1], t, s')
    ensures var s := trace[|trace| - 1];
      && s.holder.Some? && s.holder.thread < |s.pc| == |s'.pc|
      && var h := s.holder.thread;
      if t == h then s'.lock == 0 || (s'.holder == s.holder && StepsLeft(s'.pc[h]) < StepsLeft(s.pc[h]))
      else s'.lock == s.lock && s'.holder == s.holder && s'.pc[h] == s.pc[h]
  {
    RunInv(trace);
    var s := trace[|trace| - 1];
    Thread(s, t);
    Thread(s, s.holder.thread);
    hide Chain, Works, First, Last, Described, ThreadsOk, Step, StepsLeft;
    if t == s.holder.thread {
      HolderSteps(s, t, s');
    } else {
      OtherSteps(s, t, s');
    }
  }

  lemma HolderSteps(s: State, t: nat, s': State)
    requires t < |s.pc| && InCritical(s.pc[t]) && Step(s, t, s')
    ensures |s'.pc| == |s.pc|
    ensures s'.lock == 0 || (s'.lock == s.lock && s'.holder == s.holder && StepsLeft(s'.pc[t]) < StepsLeft(s.pc[t]))
  {
  }

  lemma OtherSteps(s: State, t: nat, s': State)
    requires t < |s.pc| && !InCritical(s.pc[t]) && s.lock != 0 && Step(s, t, s')
    ensures s'.lock == s.lock && s'.holder == s.holder && |s'.pc| == |s.pc|
    ensures forall u :: 0 <= u < |s.pc| && u != t ==> s'.pc[u] == s.pc[u]
  {
  }

  /** The step of a thread that need not wait for the lock. */
  lemma Move(s: State, t: nat) returns (s': State)
    requires Inv(s) && t < |s.pc| && (s.lock == 0 || !Waiting(s.pc[t]))
    ensures Step(s, t, s')
  {
    ItemsThere(s, t);
    hide Inv, Step;
    if s.pc[t].Idle? {
      s' := IdleMove(s, t);
    } else if IsEnqueue(s.pc[t]) {
      s' := EnqueueMove(s, t);
    } else {
      s' := DequeueMove(s, t);
    }
  }

  predicate IsEnqueue(pc: Pc) {
    Enqueueing(pc) || pc.ESetTail? || pc.ELoadCount? || pc.EStoreCount? || pc.EUnlock?
  }

  lemma IdleMove(s: State, t: nat) returns (s': State)
    requires t < |s.pc| && s.pc[t].Idle?
    ensures Step(s, t, s')
  {
    s' := At(s, t, DLock);
  }

  lemma EnqueueMove(s: State, t: nat) returns (s': State)
    requires t < |s.pc| && IsEnqueue(s.pc[t]) && (s.lock == 0 || !Waiting(s.pc[t]))
    requires match s.pc[t]
      case ELinkTail(a, last) => a in s.heap && last in s.heap
      case ELinkHead(a) => a in s.heap
      case _ => true
    ensures Step(s, t, s')
  {
    match s.pc[t]
    case ELock(a) => s' := At(s, t, ETestTail(a)).(lock := 1, holder := Some(t));
    case ETestTail(a) => s' := At(s, t, if s.tail != NULL then ELinkTail(a, s.tail) else ELinkHead(a));
    case ELinkTail(a, last) =>
      s' := At(s, t, ESetTail(a)).(heap := s.heap[last := s.heap[last].(next := a)],
                                   queue := s.queue + [a], pushed := s.pushed + [s.heap[a].work]);
    case ELinkHead(a) => s' :=
      At(s, t, ESetTail(a)).(head := a, queue := s.queue + [a], pushed := s.pushed + [s.heap[a].work]);
    case ESetTail(a) => s' := At(s, t, ELoadCount).(tail := a);
    case ELoadCount => s' := At(s, t, EStoreCount(s.count));
    case EStoreCount(n) => s' := At(s, t, EUnlock).(count := (n + 1) % U32);
    case EUnlock => s' := At(s, t, Idle).(lock := 0, holder := None);
  }

  lemma DequeueMove(s: State, t: nat) returns (s': State)
    requires t < |s.pc| && !IsEnqueue(s.pc[t]) && !s.pc[t].Idle? && (s.lock == 0 || !Waiting(s.pc[t]))
    requires s.pc[t].DSetHead? ==> s.pc[t].item in s.heap && s.queue != []
    ensures Step(s, t, s')
  {
    match s.pc[t]
    case DLock => s' := At(s, t, DLoadHead).(lock := 1, holder := Some(t));
    case DLoadHead => s' := At(s, t, if s.head != NULL then DSetHead(s.head) else DUnlock(NULL));
    case DSetHead(a) =>
      s' := At(s, t, DTestHead(a)).(head := s.heap[a].next, queue := s.queue[1..], popped :=
        s.popped + [s.heap[a].work]);
    case DTestHead(a) => s' := At(s, t, if s.head == NULL then DClearTail(a) else DLoadCount(a));
    case DClearTail(a) => s' := At(s, t, DLoadCount(a)).(tail := NULL);
    case DLoadCount(a) => s' := At(s, t, DStoreCount(a, s.count));
    case DStoreCount(a, n) => s' := At(s, t, DUnlock(a)).(count := (n - 1) % U32);
    case DUnlock(a) => s' := At(s, t, if a == NULL then Idle else DRun(a)).(lock := 0, holder := None);
    case DRun(a) => s' := At(s, t, DFree(a));
    case DFree(a) => s' := At(s, t, DLock).(heap := s.heap - {a});
  }
}

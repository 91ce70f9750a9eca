/** The generation barrier under every interleaving of its atomic steps. */
module Barrier {

  const U32: nat := 0x1_0000_0000

  /** Where a thread is: outside, or in multicore_barrier_wait with the locals it has set so far. */
  datatype Pc =
    | Outside
    | HaveGen(gen: nat)
    | Arrived(gen: nat, waiters: nat)
    | Spinning(gen: nat)
    | Resetting
    | Bumping
    | Storing(loaded: nat)

  /**
   * The shared variables and every thread's place. The rest is history: how many waits each thread has entered (by
   * incrementing the counter) and returned from, how many generations have passed, who took the release branch each
   * time, and which thread has brought the counter to the limit and not yet moved the generation on.
   */
  datatype State = State(
    waiters: nat, generation: nat, pc: seq<Pc>,
    entered: seq<nat>, returned: seq<nat>, rounds: nat, releasers: seq<nat>, closer: Option)

  datatype Option = None | Some(thread: nat)

  // ----- steps -----

  ghost predicate LoadGeneration(s: State, t: nat, s': State)
    requires t < |s.pc|
  {
    s.pc[t].Outside? && s' == s.(pc := s.pc[t := HaveGen(s.generation)])
  }

  /** __sync_add_and_fetch */
  ghost predicate Arrive(s: State, t: nat, s': State, count: nat)
    requires t < |s.pc| == |s.entered|
  {
    var n := (s.waiters + 1) % U32;
    s.pc[t].HaveGen? &&
    s' == s.(waiters := n, pc := s.pc[t := Arrived(s.pc[t].gen, n)], entered := s.entered[t := s.entered[t] + 1],
             closer := if n >= count then Some(t) else s.closer)
  }

  ghost predicate Branch(s: State, t: nat, s': State, count: nat)
    requires t < |s.pc|
  {
    s.pc[t].Arrived? &&
    if s.pc[t].waiters >= count
    then s' == s.(pc := s.pc[t := Resetting], releasers := s.releasers + [t])
    else s' == s.(pc := s.pc[t := Spinning(s.pc[t].gen)])
  }

  ghost predicate ResetWaiters(s: State, t: nat, s': State)
    requires t < |s.pc|
  {
    s.pc[t].Resetting? && s' == s.(waiters := 0, pc := s.pc[t := Bumping])
  }

  /** barrier_generation++ is a load and a store. */
  ghost predicate LoadForBump(s: State, t: nat, s': State)
    requires t < |s.pc|
  {
    s.pc[t].Bumping? && s' == s.(pc := s.pc[t := Storing(s.generation)])
  }

  ghost predicate StoreBump(s: State, t: nat, s': State)
    requires t < |s.pc| == |s.returned|
  {
    s.pc[t].Storing? &&
    s' == s.(generation := (s.pc[t].loaded + 1) % U32, pc := s.pc[t := Outside],
             returned := s.returned[t := s.returned[t] + 1], rounds := s.rounds + 1, closer := None)
  }

  ghost predicate LeaveSpin(s: State, t: nat, s': State)
    requires t < |s.pc| == |s.returned|
  {
    s.pc[t].Spinning? && s.generation != s.pc[t].gen &&
    s' == s.(pc := s.pc[t := Outside], returned := s.returned[t := s.returned[t] + 1])
  }

  ghost predicate Sized(s: State, threads: nat) {
    |s.pc| == |s.entered| == |s.returned| == threads
  }

  ghost predicate Step(s: State, t: nat, s': State, count: nat)
    requires t < |s.pc| && Sized(s, |s.pc|)
  {
    || LoadGeneration(s, t, s') || Arrive(s, t, s', count) || Branch(s, t, s', count)
    || ResetWaiters(s, t, s') || LoadForBump(s, t, s') || StoreBump(s, t, s') || LeaveSpin(s, t, s')
  }

  /** barrier_init(count) has run, and no thread has called barrier_wait. */
  ghost predicate Init(s: State, threads: nat) {
    && Sized(s, threads) && s.waiters == 0 && s.generation < U32 && s.rounds == 0 && s.releasers == []
    && s.closer == None
    && forall t :: 0 <= t < threads ==> s.pc[t].Outside? && s.entered[t] == 0 && s.returned[t] == 0
  }

  ghost predicate Next(s: State, s': State, count: nat)
    requires Sized(s, |s.pc|)
  {
    exists t: nat :: t < |s.pc| && Step(s, t, s', count)
  }

  ghost predicate Run(trace: seq<State>, threads: nat, count: nat) {
    && trace != [] && Init(trace[0], threads)
    && (forall i :: 0 <= i < |trace| ==> Sized(trace[i], threads))
    && forall i :: 0 <= i < |trace| - 1 ==> Next(trace[i], trace[i + 1], count)
  }

  // ----- invariant -----

  /** How many threads have entered their wait number `k`. */
  function Count(entered: seq<nat>, k: nat): (n: nat)
    ensures n <= |entered|
  {
    if entered == [] then 0
    else Count(entered[..|entered| - 1], k) + if entered[|entered| - 1] == k then 1 else 0
  }

  lemma {:induction false} CountUpdate(entered: seq<nat>, t: nat, value: nat, k: nat)
    requires t < |entered|
    ensures Count(entered[t := value], k) ==
      Count(entered, k) - (if entered[t] == k then 1 else 0) + (if value == k then 1 else 0)
  {
    var last := |entered| - 1;
    if t == last {
      assert entered[t := value][..last] == entered[..last];
    } else {
      CountUpdate(entered[..last], t, value, k);
      assert entered[t := value][..last] == entered[..last][t := value];
    }
  }

  lemma {:induction false} CountAll(entered: seq<nat>, k: nat)
    ensures Count(entered, k) == |entered| <==> forall t :: 0 <= t < |entered| ==> entered[t] == k
  {
    if entered != [] {
      var init := entered[..|entered| - 1];
      CountAll(init, k);
      assert (forall t :: 0 <= t < |entered| ==> entered[t] == k) ==> forall t :: 0 <= t < |init| ==> init[t] == k;
      if forall t :: 0 <= t < |init| ==> init[t] == k {
        assert entered[|entered| - 1] == k ==> forall t :: 0 <= t < |entered| ==>
          entered[t] == if t < |init| then init[t] else k;
      }
    }
  }

  lemma {:induction false} CountNone(entered: seq<nat>, k: nat)
    requires forall t :: 0 <= t < |entered| ==> entered[t] != k
    ensures Count(entered, k) == 0
  {
    if entered != [] {
      CountNone(entered[..|entered| - 1], k);
    }
  }

  /** The thread is the one that ends the round. */
  predicate Releasing(pc: Pc, count: nat) {
    (pc.Arrived? && pc.waiters >= count) || pc.Resetting? || pc.Bumping? || pc.Storing?
  }

  function Gen(first: nat, round: nat): nat { (first + round) % U32 }

  ghost predicate ThreadOk(s: State, t: nat, count: nat, first: nat)
    requires Sized(s, |s.pc|) && t < |s.pc|
  {
    var e, r := s.entered[t], s.returned[t];
    && (e == s.rounds || e == s.rounds + 1)
    && match s.pc[t]
       case Outside => r == e == s.rounds
       case HaveGen(g) => r == e == s.rounds && g == s.generation
       case Arrived(g, w) => e == r + 1 && g == Gen(first, r) && (w >= count ==> r == s.rounds)
       case Spinning(g) => e == r + 1 && g == Gen(first, r)
       case Resetting => e == r + 1 == s.rounds + 1
       case Bumping => e == r + 1 == s.rounds + 1
       case Storing(g) => e == r + 1 == s.rounds + 1 && g == s.generation
  }

  ghost predicate Inv(s: State, count: nat, first: nat) {
    && Sized(s, count) && 0 < count < U32
    && s.generation == Gen(first, s.rounds)
    && (forall t: nat :: t < count ==> ThreadOk(s, t, count, first))
    && (forall t: nat :: t < count ==> (Releasing(s.pc[t], count) <==> s.closer == Some(t)))
    && (s.closer.Some? ==> s.closer.thread < count)
    && (s.closer.Some? <==> Count(s.entered, s.rounds + 1) == count)
    && s.waiters == (if s.closer.Some? && (s.pc[s.closer.thread].Bumping? || s.pc[s.closer.thread].Storing?) then 0
                     else Count(s.entered, s.rounds + 1))
    && |s.releasers| == s.rounds + if s.closer.Some? && !s.pc[s.closer.thread].Arrived? then 1 else 0
  }

  lemma InitInv(s: State, count: nat)
    requires Init(s, count) && 0 < count < U32
    ensures Inv(s, count, s.generation)
  {
    CountNone(s.entered, 1);
    assert forall t: nat :: t < count ==> s.pc[t].Outside?;
  }

  lemma StepInv(s: State, t: nat, s': State, count: nat, first: nat)
    requires Inv(s, count, first) && t < count && Step(s, t, s', count)
    ensures Inv(s', count, first)
  {
    assert ThreadOk(s, t, count, first);
    if Arrive(s, t, s', count) {
      ArriveInv(s, t, s', count, first);
    } else if StoreBump(s, t, s') {
      StoreInv(s, t, s', count, first);
    } else {
      hide Count, Gen;
      LocalInv(s, t, s', count, first);
    }
  }

  lemma LocalInv(s: State, t: nat, s': State, count: nat, first: nat)
    requires Inv(s, count, first) && t < count && Step(s, t, s', count)
    requires !Arrive(s, t, s', count) && !StoreBump(s, t, s')
    ensures Inv(s', count, first)
  {
    hide Count;
    assert ThreadOk(s, t, count, first);
    forall u: nat | u < count
      ensures ThreadOk(s', u, count, first)
    {
      assert ThreadOk(s, u, count, first);
    }
  }

  lemma ArriveInv(s: State, t: nat, s': State, count: nat, first: nat)
    requires Inv(s, count, first) && t < count && Arrive(s, t, s', count)
    ensures Inv(s', count, first)
  {
    hide Count;
    assert ThreadOk(s, t, count, first);
    CountAll(s.entered, s.rounds + 1);
    CountUpdate(s.entered, t, s.entered[t] + 1, s.rounds + 1);
    forall u: nat | u < count
      ensures ThreadOk(s', u, count, first)
    {
      assert ThreadOk(s, u, count, first);
    }
  }

  lemma StoreInv(s: State, t: nat, s': State, count: nat, first: nat)
    requires Inv(s, count, first) && t < count && StoreBump(s, t, s')
    ensures Inv(s', count, first)
  {
    hide Count;
    assert ThreadOk(s, t, count, first);
    CountAll(s.entered, s.rounds + 1);
    forall u: nat | u < count
      ensures ThreadOk(s', u, count, first)
    {
      assert ThreadOk(s, u, count, first);
    }
    CountNone(s'.entered, s'.rounds + 1);
  }

  lemma {:induction false} RunInv(trace: seq<State>, count: nat)
    requires Run(trace, count, count) && 0 < count < U32
    ensures Inv(trace[|trace| - 1], count, trace[0].generation)
  {
    if |trace| == 1 {
      InitInv(trace[0], count);
    } else {
      var init := trace[..|trace| - 1];
      assert forall i :: 0 <= i < |init| - 1 ==> Next(init[i], init[i + 1], count) by {
        forall i | 0 <= i < |init| - 1 ensures Next(init[i], init[i + 1], count) {
          assert Next(trace[i], trace[i + 1], count);
        }
      }
      RunInv(init, count);
      var s, s' := trace[|trace| - 2], trace[|trace| - 1];
      assert Next(s, trace[|trace| - 2 + 1], count);
      var t: nat :| t < |s.pc| && Step(s, t, s', count);
      StepInv(s, t, s', count, trace[0].generation);
    }
  }

  // ----- what the barrier guarantees -----

  /** Nobody has returned from more waits than anybody else has entered. */
  ghost predicate Safe(s: State)
    requires Sized(s, |s.pc|)
  {
    forall t: nat, u: nat :: t < |s.pc| && u < |s.pc| ==> s.returned[t] <= s.entered[u]
  }

  /**
   * With as many threads as the barrier counts, in every run: no thread returns from its k-th wait before all have
   * entered theirs, and the release branch has been taken once in each round that is over, and at most once in the
   * current one.
   */
  lemma BarrierSafe(trace: seq<State>, count: nat)
    requires Run(trace, count, count) && 0 < count < U32
    ensures var s := trace[|trace| - 1];
      && Safe(s)
      && (forall t: nat :: t < count ==> s.returned[t] <= s.rounds <= s.entered[t])
      && s.rounds <= |s.releasers| <= s.rounds + 1
  {
    RunInv(trace, count);
    var s := trace[|trace| - 1];
    forall t: nat | t < count
      ensures s.returned[t] <= s.rounds <= s.entered[t]
    {
      assert ThreadOk(s, t, count, trace[0].generation);
    }
  }

  ghost predicate CanGoOn(s: State, count: nat)
    requires Sized(s, |s.pc|)
  {
    exists s' :: Next(s, s', count)
  }

  /**
   * No run gets stuck: some thread can always move, once all have arrived the one that ends the round can, and whoever
   * spins in a round that is over finds the generation changed.
   */
  lemma BarrierLive(trace: seq<State>, count: nat)
    requires Run(trace, count, count) && 0 < count < U32
    ensures CanGoOn(trace[|trace| - 1], count)
    ensures var s := trace[|trace| - 1];
      (forall t: nat :: t < count ==> s.entered[t] == s.rounds + 1) ==>
        exists t: nat, s' :: t < count && Releasing(s.pc[t], count) && Step(s, t, s', count)
    ensures var s := trace[|trace| - 1];
      forall t: nat :: t < count && s.pc[t].Spinning? ==> (s.returned[t] < s.rounds <==> s.pc[t].gen != s.generation)
  {
    RunInv(trace, count);
    var s := trace[|trace| - 1];
    forall t: nat | t < count && s.pc[t].Spinning?
      ensures s.returned[t] < s.rounds <==> s.pc[t].gen != s.generation
    {
      assert ThreadOk(s, t, count, trace[0].generation);
    }
    CountAll(s.entered, s.rounds + 1);
    if s.closer.Some? {
      var s' := CanMove(s, s.closer.thread, count);
      assert Next(s, s', count);
    } else {
      var t: nat :| t < count && s.entered[t] != s.rounds + 1;
      assert ThreadOk(s, t, count, trace[0].generation);
      var s' := CanMove(s, t, count);
      assert Next(s, s', count);
    }
  }

  /** A thread can move unless it spins on the current generation. */
  lemma CanMove(s: State, t: nat, count: nat) returns (s': State)
    requires Sized(s, |s.pc|) && t < |s.pc| && (s.pc[t].Spinning? ==> s.pc[t].gen != s.generation)
    ensures Step(s, t, s', count)
  {
    match s.pc[t]
    case Outside => s' := s.(pc := s.pc[t := HaveGen(s.generation)]); assert LoadGeneration(s, t, s');
    case HaveGen(g) =>
      var n := (s.waiters + 1) % U32;
      s' := s.(waiters := n, pc := s.pc[t := Arrived(g, n)], entered := s.entered[t := s.entered[t] + 1],
               closer := if n >= count then Some(t) else s.closer);
      assert Arrive(s, t, s', count);
    case Arrived(g, w) =>
      s' := if w >= count then s.(pc := s.pc[t := Resetting], releasers := s.releasers + [t])
        else s.(pc := s.pc[t := Spinning(g)]);
      assert Branch(s, t, s', count);
    case Spinning(_) =>
      s' := s.(pc := s.pc[t := Outside], returned := s.returned[t := s.returned[t] + 1]);
      assert LeaveSpin(s, t, s');
    case Resetting => s' := s.(waiters := 0, pc := s.pc[t := Bumping]); assert ResetWaiters(s, t, s');
    case Bumping => s' := s.(pc := s.pc[t := Storing(s.generation)]); assert LoadForBump(s, t, s');
    case Storing(g) =>
      s' := s.(generation := (g + 1) % U32, pc := s.pc[t := Outside],
               returned := s.returned[t := s.returned[t] + 1], rounds := s.rounds + 1, closer := None);
      assert StoreBump(s, t, s');
  }

  // ----- why exactly that many threads -----

  /** With too few threads nobody ever returns. */
  ghost predicate Starved(s: State, threads: nat, count: nat, first: nat) {
    && Sized(s, threads) && s.generation == first && s.waiters == Count(s.entered, 1) && s.waiters <= threads
    && forall t: nat :: t < threads ==>
         && s.returned[t] == 0
         && match s.pc[t]
            case Outside => s.entered[t] == 0
            case HaveGen(g) => s.entered[t] == 0 && g == first
            case Arrived(g, w) => s.entered[t] == 1 && g == first && w <= threads
            case Spinning(g) => s.entered[t] == 1 && g == first
            case _ => false
  }

  lemma {:induction false} TooFewThreads(trace: seq<State>, threads: nat, count: nat)
    requires Run(trace, threads, count) && threads < count < U32
    ensures Starved(trace[|trace| - 1], threads, count, trace[0].generation)
  {
    if |trace| == 1 {
      CountNone(trace[0].entered, 1);
    } else {
      var init := trace[..|trace| - 1];
      forall i | 0 <= i < |init| - 1 ensures Next(init[i], init[i + 1], count) {
        assert Next(trace[i], trace[i + 1], count);
      }
      TooFewThreads(init, threads, count);
      var s, s' := trace[|trace| - 2], trace[|trace| - 1];
      assert Next(s, trace[|trace| - 2 + 1], count);
      var t: nat :| t < |s.pc| && Step(s, t, s', count);
      StarvedStep(s, t, s', threads, count, trace[0].generation);
    }
  }

  lemma StarvedStep(s: State, t: nat, s': State, threads: nat, count: nat, first: nat)
    requires Starved(s, threads, count, first) && threads < count < U32 && t < threads && Step(s, t, s', count)
    ensures Starved(s', threads, count, first)
  {
    hide Count;
    if Arrive(s, t, s', count) {
      CountUpdate(s.entered, t, s.entered[t] + 1, 1);
    }
  }

  /** The state in which the first `k` of `threads` threads have arrived, and nothing else has happened. */
  function Filled(k: nat, threads: nat, count: nat): State
    requires k <= threads
  {
    State(k, 0, seq(threads, i => if 0 <= i < k then Arrived(0, i + 1) else Outside),
          seq(threads, i => if 0 <= i < k then 1 else 0), seq(threads, _ => 0), 0, [],
          if k >= count > 0 then Some(k - 1) else None)
  }

  lemma RunExtend(trace: seq<State>, t: nat, s': State, threads: nat, count: nat)
    requires Run(trace, threads, count) && t < threads && Step(trace[|trace| - 1], t, s', count) && Sized(s', threads)
    ensures Run(trace + [s'], threads, count)
  {
    var longer := trace + [s'];
    forall i | 0 <= i < |longer| - 1
      ensures Next(longer[i], longer[i + 1], count)
    {
      if i < |trace| - 1 {
        assert Next(trace[i], trace[i + 1], count);
      }
    }
  }

  lemma {:induction false} Fill(k: nat, threads: nat, count: nat) returns (trace: seq<State>)
    requires k <= threads && k <= count < U32 && 0 < count
    ensures Run(trace, threads, count) && trace[|trace| - 1] == Filled(k, threads, count)
  {
    if k == 0 {
      trace := [Filled(0, threads, count)];
    } else {
      var before := Fill(k - 1, threads, count);
      var s, goal := Filled(k - 1, threads, count), Filled(k, threads, count);
      var mid := s.(pc := s.pc[k - 1 := HaveGen(0)]);
      assert LoadGeneration(s, k - 1, mid);
      RunExtend(before, k - 1, mid, threads, count);
      assert goal.pc == mid.pc[k - 1 := Arrived(0, k)] && goal.entered == mid.entered[k - 1 := 1];
      assert Arrive(mid, k - 1, goal, count);
      RunExtend(before + [mid], k - 1, goal, threads, count);
      trace := before + [mid] + [goal];
    }
  }

  /** With too many threads some run lets one return that another has not even entered with. */
  lemma TooManyThreads(threads: nat, count: nat) returns (trace: seq<State>)
    requires 0 < count < threads && count < U32
    ensures Run(trace, threads, count) && !Safe(trace[|trace| - 1])
  {
    trace := Fill(count, threads, count);
    var t := count - 1;
    var i := 0;
    while i < 4
      invariant 0 <= i <= 4 && Run(trace, threads, count)
      invariant var s := trace[|trace| - 1];
        && s.entered[count] == 0
        && match i
           case 0 => s.pc[t] == Arrived(0, count)
           case 1 => s.pc[t] == Resetting
           case 2 => s.pc[t] == Bumping
           case 3 => s.pc[t].Storing?
           case _ => s.returned[t] > 0
    {
      var s' := CanMove(trace[|trace| - 1], t, count);
      RunExtend(trace, t, s', threads, count);
      trace := trace + [s'];
      i := i + 1;
    }
    assert t < |trace[|trace| - 1].pc|;
  }
}

/** The load balancer: one call moves five units from the busiest eligible core to the idlest one. */
module LoadBalance {
  const CORE_INVALID: nat := 0xFFFF_FFFF
  const MAX_LOAD: nat := 0xFFFF_FFFF

  datatype CoreState = Offline | Booting | Idle | Active | Parked | Halted | ThermalThrottle

  predicate Eligible(state: CoreState) {
    state.Idle? || state.Active?
  }

  predicate Width32(loads: seq<nat>) {
    forall c :: 0 <= c < |loads| ==> loads[c] <= MAX_LOAD
  }

  /** No two eligible cores are more than ten units apart. */
  predicate Even(loads: seq<nat>, states: seq<CoreState>)
    requires |states| <= |loads|
  {
    forall c, d :: 0 <= c < |states| && 0 <= d < |states| && Eligible(states[c]) && Eligible(states[d]) ==>
      loads[c] <= loads[d] + 10
  }

  /** c is the first of the eligible cores among the first n with the greatest load. */
  predicate Busiest(loads: seq<nat>, states: seq<CoreState>, n: nat, c: nat)
    requires n <= |states| <= |loads|
  {
    && c < n && Eligible(states[c])
    && forall d :: 0 <= d < n && Eligible(states[d]) ==> loads[d] <= loads[c] && (d < c ==> loads[d] < loads[c])
  }

  /** c is the first of the eligible cores among the first n with the least load. */
  predicate Idlest(loads: seq<nat>, states: seq<CoreState>, n: nat, c: nat)
    requires n <= |states| <= |loads|
  {
    && c < n && Eligible(states[c])
    && forall d :: 0 <= d < n && Eligible(states[d]) ==> loads[c] <= loads[d] && (d < c ==> loads[c] < loads[d])
  }

  /** Five units go from hi to lo. */
  predicate Migrated(loads: seq<nat>, after: seq<nat>, hi: nat, lo: nat) {
    && hi < |loads| && lo < |loads| && hi != lo && loads[hi] >= 5
    && after == loads[hi := loads[hi] - 5][lo := loads[lo] + 5]
  }

  /** What one call does. */
  ghost predicate Step(loads: seq<nat>, after: seq<nat>, states: seq<CoreState>)
    requires |states| <= |loads|
  {
    if Even(loads, states) then after == loads
    else
      exists hi: nat, lo: nat ::
        Busiest(loads, states, |states|, hi) && Idlest(loads, states, |states|, lo) && Migrated(loads, after, hi, lo)
  }

  function Total(loads: seq<nat>): nat {
    if loads == [] then 0 else loads[0] + Total(loads[1..])
  }

  function Square(n: nat): nat { n * n }

  function Squares(loads: seq<nat>): nat {
    if loads == [] then 0 else Square(loads[0]) + Squares(loads[1..])
  }

  lemma {:induction false} SumsAfterUpdate(loads: seq<nat>, c: nat, v: nat)
    requires c < |loads|
    ensures Total(loads[c := v]) == Total(loads) - loads[c] + v
    ensures Squares(loads[c := v]) == Squares(loads) - Square(loads[c]) + Square(v)
  {
    if c == 0 {
      assert loads[c := v][1..] == loads[1..];
    } else {
      assert loads[c := v][1..] == loads[1..][c - 1 := v];
      SumsAfterUpdate(loads[1..], c - 1, v);
    }
  }

  lemma SquaresMeet(h: nat, l: nat)
    requires h > l + 10
    ensures Square(h - 5) + Square(l + 5) + 60 <= Square(h) + Square(l)
  {
    assert (h - 5) * (h - 5) == h * h - 10 * h + 25;
    assert (l + 5) * (l + 5) == l * l + 10 * l + 25;
  }

  lemma SumsAfterMigration(loads: seq<nat>, after: seq<nat>, hi: nat, lo: nat)
    requires Migrated(loads, after, hi, lo) && loads[hi] > loads[lo] + 10
    ensures Total(after) == Total(loads)
    ensures Squares(after) + 60 <= Squares(loads)
  {
    hide Square, Squares, Total;
    var h, l := loads[hi], loads[lo];
    SumsAfterUpdate(loads, hi, h - 5);
    SumsAfterUpdate(loads[hi := h - 5], lo, l + 5);
    SquaresMeet(h, l);
  }

  predicate Bounded(loads: seq<nat>, states: seq<CoreState>, low: nat, high: nat)
    requires |states| <= |loads|
  {
    forall c :: 0 <= c < |states| && Eligible(states[c]) ==> low <= loads[c] <= high
  }

  /** A call conserves the total, wraps nothing, and stops or takes 60 off the squares. */
  lemma StepConserves(loads: seq<nat>, after: seq<nat>, states: seq<CoreState>)
    requires |states| <= |loads| && Width32(loads) && Step(loads, after, states)
    ensures |after| == |loads| && Width32(after) && Total(after) == Total(loads)
    ensures Even(loads, states) || Squares(after) + 60 <= Squares(loads)
    ensures forall c :: |states| <= c < |loads| ==> after[c] == loads[c]
    ensures forall c :: 0 <= c < |states| && !Eligible(states[c]) ==> after[c] == loads[c]
  {
    if !Even(loads, states) {
      var hi: nat, lo: nat :| Busiest(loads, states, |states|, hi) && Idlest(loads, states, |states|, lo) &&
        Migrated(loads, after, hi, lo);
      SumsAfterMigration(loads, after, hi, lo);
    }
  }

  /** The extremes move no further out. */
  lemma StepNarrows(loads: seq<nat>, after: seq<nat>, states: seq<CoreState>, low: nat, high: nat)
    requires |states| <= |loads| && Step(loads, after, states) && Bounded(loads, states, low, high)
    ensures |after| == |loads| && Bounded(after, states, low, high)
  {
    if !Even(loads, states) {
      var hi: nat, lo: nat :| Busiest(loads, states, |states|, hi) && Idlest(loads, states, |states|, lo) &&
        Migrated(loads, after, hi, lo);
      assert loads[hi] > loads[lo] + 10;
    }
  }

  /** Successive calls while the core states stay as they are. */
  ghost predicate Run(run: seq<seq<nat>>, states: seq<CoreState>) {
    && (forall k :: 0 <= k < |run| ==> |states| <= |run[k]|)
    && (forall k {:trigger run[k]} :: 0 < k < |run| ==> Step(run[k - 1], run[k], states))
  }

  lemma RunStep(run: seq<seq<nat>>, states: seq<CoreState>, k: nat)
    requires Run(run, states) && 0 < k < |run|
    ensures |states| <= |run[k - 1]| && |states| <= |run[k]| && Step(run[k - 1], run[k], states)
    ensures Even(run[k - 1], states) ==> run[k] == run[k - 1]
  {
    hide Even;
    assert run[k - 1] == run[k - 1];
  }

  lemma {:induction false} RunFalls(run: seq<seq<nat>>, states: seq<CoreState>, k: nat)
    requires Run(run, states) && k < |run| && Width32(run[0])
    ensures Width32(run[k]) && Total(run[k]) == Total(run[0])
    ensures Even(run[k], states) || Squares(run[k]) + 60 * k <= Squares(run[0])
  {
    if k > 0 {
      RunStep(run, states, k);
      RunFalls(run, states, k - 1);
      hide *;
      StepConserves(run[k - 1], run[k], states);
    }
  }

  lemma {:induction false} RunRests(run: seq<seq<nat>>, states: seq<CoreState>, j: nat, k: nat)
    requires Run(run, states) && j <= k < |run| && Even(run[j], states)
    ensures run[k] == run[j]
  {
    hide Even;
    if j < k {
      RunStep(run, states, k);
      RunRests(run, states, j, k - 1);
    }
  }

  /** After at most a sixtieth of the initial squares the loads are even, and calls change nothing any more. */
  lemma RunSettles(run: seq<seq<nat>>, states: seq<CoreState>, k: nat)
    requires Run(run, states) && k < |run| && Width32(run[0])
    ensures Width32(run[k]) && Total(run[k]) == Total(run[0])
    ensures Even(run[k], states) || Squares(run[k]) + 60 * k <= Squares(run[0])
    ensures k > Squares(run[0]) / 60 ==> Even(run[k], states)
    ensures forall j :: 0 <= j <= k && Even(run[j], states) ==> run[k] == run[j]
  {
    RunFalls(run, states, k);
    hide Even, Step, Total, Squares, Width32;
    forall j | 0 <= j <= k && Even(run[j], states)
      ensures run[k] == run[j]
    {
      RunRests(run, states, j, k);
    }
  }

  class LoadBalancer {
    const coreLoad: array<nat>
    var migrations: nat

    constructor (cores: nat)
      ensures fresh(coreLoad) && coreLoad.Length == cores && forall c :: 0 <= c < cores ==> coreLoad[c] == 0
    {
      coreLoad := new nat[cores](_ => 0);
      migrations := 0;
    }

    /** states are those of the first cores, as many as are in use. */
    method BalanceLoad(states: seq<CoreState>)
      requires |states| <= coreLoad.Length < CORE_INVALID && Width32(coreLoad[..])
      modifies coreLoad, this`migrations
      ensures Step(old(coreLoad[..]), coreLoad[..], states)
      ensures migrations == if Even(old(coreLoad[..]), states) then old(migrations)
        else (old(migrations) + 1) % 0x1_0000_0000
    {
      ghost var loads := coreLoad[..];
      var maxLoad: nat, maxCore: nat := 0, CORE_INVALID;
      var minLoad: nat, minCore: nat := MAX_LOAD, CORE_INVALID;
      for i := 0 to |states|
        invariant maxCore == CORE_INVALID ==> maxLoad == 0
        invariant maxCore != CORE_INVALID ==> Busiest(loads, states, i, maxCore) && maxLoad == loads[maxCore]
        invariant minCore == CORE_INVALID ==> minLoad == MAX_LOAD
        invariant minCore != CORE_INVALID ==> Idlest(loads, states, i, minCore) && minLoad == loads[minCore]
        invariant forall d :: 0 <= d < i && Eligible(states[d]) ==> minLoad <= loads[d] <= maxLoad
      {
        if !Eligible(states[i]) {
          continue;
        }
        if coreLoad[i] > maxLoad {
          maxLoad, maxCore := coreLoad[i], i;
        }
        if coreLoad[i] < minLoad {
          minLoad, minCore := coreLoad[i], i;
        }
      }
      if maxCore != CORE_INVALID && minCore != CORE_INVALID && maxCore != minCore {
        if maxLoad - minLoad > 10 {
          migrations := (migrations + 1) % 0x1_0000_0000;
          coreLoad[maxCore] := coreLoad[maxCore] - 5;
          coreLoad[minCore] := coreLoad[minCore] + 5;
          assert Migrated(loads, coreLoad[..], maxCore, minCore);
        }
      }
    }
  }
}

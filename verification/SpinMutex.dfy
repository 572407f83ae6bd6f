/** src/mutex_hdl_spin.c: a mutex as one integer, using only accumulate and get.

    A process adds rank + 1 and reads the cell; it holds the mutex if it reads its own rank + 1,
    and otherwise subtracts again.  Every step is one exclusive epoch on the cell, or the local
    decision that follows a read. */
module SpinMutex {
  import opened LockSpec

  /** Where a process stands.  `trying` tells a trylock from a lock. */
  datatype Phase =
    | Outside                    // in no call
    | Backoff                    // a lock has subtracted and sleeps
    | Reading(trying: bool)      // added, has not read yet
    | Losing(trying: bool)       // read another value, has not subtracted yet
    | Holding

  datatype State = State(cell: int, phases: seq<Phase>)

  datatype Step = Enter(p: nat, trying: bool) | Read(p: nat) | Retreat(p: nat) | Retry(p: nat) | Unlock(p: nat)

  ghost predicate Enabled(s: State, step: Step) {
    && step.p < |s.phases|
    && match step
       case Enter(p, _) => s.phases[p].Outside?
       case Read(p) => s.phases[p].Reading?
       case Retreat(p) => s.phases[p].Losing?
       case Retry(p) => s.phases[p].Backoff?
       case Unlock(p) => s.phases[p].Holding?
  }

  ghost function Apply(s: State, step: Step): State
    requires Enabled(s, step)
  {
    var p := step.p;
    match step
    case Enter(_, trying) => State(s.cell + (p + 1), s.phases[p := Reading(trying)])
    case Read(_) => State(s.cell, s.phases[p := if s.cell == p + 1 then Holding else Losing(s.phases[p].trying)])
    case Retreat(_) => State(s.cell - (p + 1), s.phases[p := if s.phases[p].trying then Outside else Backoff])
    case Retry(_) => State(s.cell + (p + 1), s.phases[p := Reading(false)])
    case Unlock(_) => State(s.cell - (p + 1), s.phases[p := Outside])
  }

  ghost predicate Init(s: State) {
    s.cell == 0 && forall p :: 0 <= p < |s.phases| ==> s.phases[p].Outside?
  }

  ghost predicate IsRun(s: State, steps: seq<Step>)
    decreases |steps|
  {
    steps != [] ==> Enabled(s, steps[0]) && IsRun(Apply(s, steps[0]), steps[1..])
  }

  ghost function After(s: State, steps: seq<Step>): State
    requires IsRun(s, steps)
    decreases |steps|
  {
    if steps == [] then s else After(Apply(s, steps[0]), steps[1..])
  }

  ghost predicate Reachable(s: State) {
    exists s0, steps :: Init(s0) && IsRun(s0, steps) && After(s0, steps) == s
  }

  // ----- The cell is a sum

  ghost predicate Contributes(ph: Phase) { ph.Reading? || ph.Losing? || ph.Holding? }

  /** What the first k processes have put into the cell. */
  ghost function Sum(phases: seq<Phase>, k: nat): nat
    requires k <= |phases|
  {
    if k == 0 then 0 else Sum(phases, k - 1) + if Contributes(phases[k - 1]) then k else 0
  }

  lemma {:induction false} SumUpdate(phases: seq<Phase>, k: nat, p: nat, ph: Phase)
    requires k <= |phases| && p < |phases|
    ensures Sum(phases[p := ph], k) == Sum(phases, k) +
      if p < k then (if Contributes(ph) then p + 1 else 0) - (if Contributes(phases[p]) then p + 1 else 0) else 0
  {
    if k > 0 { SumUpdate(phases, k - 1, p, ph); }
  }

  lemma {:induction false} SumAtLeast(phases: seq<Phase>, k: nat, p: nat, q: nat)
    requires k <= |phases| && p < q < |phases| && Contributes(phases[p]) && Contributes(phases[q])
    ensures Sum(phases, k) >= (if p < k then p + 1 else 0) + (if q < k then q + 1 else 0)
  {
    if k > 0 { SumAtLeast(phases, k - 1, p, q); }
  }

  lemma {:induction false} SumContains(phases: seq<Phase>, k: nat, p: nat)
    requires k <= |phases| && p < |phases| && Contributes(phases[p])
    ensures Sum(phases, k) >= if p < k then p + 1 else 0
  {
    if k > 0 { SumContains(phases, k - 1, p); }
  }

  lemma {:induction false} SumAtMost(phases: seq<Phase>, k: nat)
    requires k <= |phases|
    ensures 2 * Sum(phases, k) <= k * (k + 1)
  {
    if k > 0 {
      SumAtMost(phases, k - 1);
      assert k * (k + 1) == (k - 1) * k + 2 * k;
    }
  }

  /** The cell is the sum of rank + 1 over the processes that have added and not subtracted, and no
      two processes hold the mutex. */
  ghost predicate Invariant(s: State) {
    && s.cell == Sum(s.phases, |s.phases|)
    && (forall p, q :: 0 <= p < |s.phases| && 0 <= q < |s.phases| ==>
          s.phases[p].Holding? && s.phases[q].Holding? ==> p == q)
  }

  lemma {:induction false} StepKeeps(s: State, step: Step)
    requires Invariant(s) && Enabled(s, step)
    ensures Invariant(Apply(s, step))
  {
    var p, n, s' := step.p, |s.phases|, Apply(s, step);
    SumUpdate(s.phases, n, p, s'.phases[p]);
    if step.Read? && s.cell == p + 1 {
      forall q | 0 <= q < n && s.phases[q].Holding? ensures q == p {
        if q < p { SumAtLeast(s.phases, n, q, p); }
        if p < q { SumAtLeast(s.phases, n, p, q); }
      }
    }
  }

  lemma {:induction false} RunKeeps(s: State, steps: seq<Step>)
    requires Invariant(s) && IsRun(s, steps)
    ensures Invariant(After(s, steps))
    decreases |steps|
  {
    if steps != [] {
      StepKeeps(s, steps[0]);
      RunKeeps(Apply(s, steps[0]), steps[1..]);
    }
  }

  lemma {:induction false} SumOfNone(phases: seq<Phase>, k: nat)
    requires k <= |phases| && forall p :: 0 <= p < |phases| ==> !Contributes(phases[p])
    ensures Sum(phases, k) == 0
  {
    if k > 0 { SumOfNone(phases, k - 1); }
  }

  lemma {:induction false} ReachableInvariant(s: State)
    requires Reachable(s)
    ensures Invariant(s)
  {
    var s0, steps :| Init(s0) && IsRun(s0, steps) && After(s0, steps) == s;
    SumOfNone(s0.phases, |s0.phases|);
    RunKeeps(s0, steps);
  }

  /** Both assertions on the value read hold in every run. */
  lemma {:induction false} ReadIsInRange(s: State, p: nat)
    requires Reachable(s) && Enabled(s, Read(p))
    ensures 0 < s.cell <= |s.phases| * (|s.phases| + 1) / 2
  {
    ReachableInvariant(s);
    SumContains(s.phases, |s.phases|, p);
    SumAtMost(s.phases, |s.phases|);
  }

  /** Nobody but p has anything in the cell. */
  ghost predicate Alone(s: State, p: nat) {
    forall q :: 0 <= q < |s.phases| && q != p ==> !Contributes(s.phases[q])
  }

  /** A process that reads its own number is alone; conversely, a process alone in the cell reads
      its own number. Reading it is what makes it the holder; otherwise it has to retreat. */
  lemma {:induction false} ReadDecides(s: State, p: nat)
    requires Reachable(s) && Enabled(s, Read(p))
    ensures s.cell == p + 1 <==> Alone(s, p)
    ensures Apply(s, Read(p)).phases[p].Holding? <==> Alone(s, p)
    ensures !Alone(s, p) ==> Apply(s, Read(p)).phases[p] == Losing(s.phases[p].trying)
    ensures Apply(s, Read(p)).cell == s.cell
  {
    ReachableInvariant(s);
    var n := |s.phases|;
    SumContains(s.phases, n, p);
    if s.cell == p + 1 {
      forall q | 0 <= q < n && q != p ensures !Contributes(s.phases[q]) {
        if Contributes(s.phases[q]) {
          if q < p { SumAtLeast(s.phases, n, q, p); } else { SumAtLeast(s.phases, n, p, q); }
        }
      }
    } else {
      var phases := s.phases[p := Outside];
      SumUpdate(s.phases, n, p, Outside);
      if Alone(s, p) { SumOfNone(phases, n); }
    }
  }

  /** A failed trylock takes back what it added: its caller contributes nothing, the others what
      they did before. */
  lemma {:induction false} FailedTrylockLeavesNothing(s: State, p: nat)
    requires Reachable(s) && Enabled(s, Retreat(p)) && s.phases[p].trying
    ensures var s' := Apply(s, Retreat(p));
      s'.phases[p].Outside? && s'.cell == Sum(s.phases[p := Outside], |s.phases|) == s.cell - (p + 1)
  {
    ReachableInvariant(s);
    SumUpdate(s.phases, |s.phases|, p, Outside);
  }

  ghost function Holders(s: State): set<nat> { set p: nat | p < |s.phases| && s.phases[p].Holding? }

  ghost function AsLock(s: State): LockSpec.Lock {
    if Holders(s) == {} then Free else var p :| p in Holders(s); LockSpec.Held(p)
  }

  lemma {:induction false} MutualExclusion(s: State, p: nat)
    requires Reachable(s) && p in Holders(s)
    ensures Holders(s) == {p} && AsLock(s) == LockSpec.Held(p)
  {
    ReachableInvariant(s);
  }

  /** The spin mutex is the same abstract lock as the queueing one. */
  lemma {:induction false} RefinesLock(s: State, step: Step)
    requires Reachable(s) && Enabled(s, step)
    ensures LockSpec.Next(AsLock(s), AsLock(Apply(s, step)), step.p)
  {
    var s' := Apply(s, step);
    ReachableInvariant(s);
    StepKeeps(s, step);
    if step.Read? && s.cell == step.p + 1 {
      ReadDecides(s, step.p);
      assert Holders(s) == {};
    } else if step.Unlock? {
      assert step.p in Holders(s);
      assert Holders(s') == {};
    } else {
      assert Holders(s') == Holders(s);
    }
  }

  // ----- The mutex can be had, and is given back

  lemma {:induction false} RunsConcat(s: State, a: seq<Step>, b: seq<Step>)
    requires IsRun(s, a) && IsRun(After(s, a), b)
    ensures IsRun(s, a + b) && After(s, a + b) == After(After(s, a), b)
    decreases |a|
  {
    if a == [] {
      assert a + b == b;
    } else {
      RunsConcat(Apply(s, a[0]), a[1..], b);
      assert (a + b)[0] == a[0] && (a + b)[1..] == a[1..] + b;
    }
  }

  lemma {:induction false} OneStep(s: State, step: Step)
    requires Enabled(s, step)
    ensures IsRun(s, [step]) && After(s, [step]) == Apply(s, step)
  {
    var t := Apply(s, step);
    assert [step][1..] == [] && IsRun(t, []) && After(t, []) == t;
  }

  lemma {:induction false} ReachableStep(s: State, step: Step)
    requires Reachable(s) && Enabled(s, step)
    ensures Reachable(Apply(s, step))
  {
    var s0, steps :| Init(s0) && IsRun(s0, steps) && After(s0, steps) == s;
    OneStep(s, step);
    RunsConcat(s0, steps, [step]);
    assert After(s0, steps + [step]) == Apply(s, step);
  }

  /** A lock or trylock that finds nobody in the cell, in whatever reachable state, gets the mutex with its
      first read. */
  lemma {:induction false} UncontendedAcquires(s: State, p: nat, trying: bool)
    requires Reachable(s) && p < |s.phases| && s.phases[p].Outside? && Alone(s, p)
    ensures IsRun(s, [Enter(p, trying), Read(p)])
    ensures var t := After(s, [Enter(p, trying), Read(p)]);
            t.phases == s.phases[p := Holding] && t.cell == p + 1 && Reachable(t) && AsLock(t) == LockSpec.Held(p)
  {
    var a, b := Enter(p, trying), Read(p);
    var s1 := Apply(s, a);
    ReachableStep(s, a);
    ReadDecides(s1, p);
    var s2 := Apply(s1, b);
    ReachableStep(s1, b);
    OneStep(s, a);
    OneStep(s1, b);
    RunsConcat(s, [a], [b]);
    assert [a] + [b] == [a, b];
    assert s2.phases == s.phases[p := Holding];
    assert p in Holders(s2);
    MutualExclusion(s2, p);
  }

  lemma {:induction false} AloneFrom(s: State, t: State, p: nat)
    requires |t.phases| == |s.phases| && forall q :: 0 <= q < |s.phases| && q != p ==> t.phases[q] == s.phases[q]
    ensures Alone(s, p) ==> Alone(t, p)
  {
    if Alone(s, p) {
      forall q | 0 <= q < |t.phases| && q != p ensures !Contributes(t.phases[q]) { assert !Contributes(s.phases[q]); }
    }
  }

  /** A lock that lost takes back what it added and comes back to read again; it holds the mutex then if and
      only if nobody else is in the cell. */
  lemma {:induction false} LockTriesAgain(s: State, p: nat)
    requires Reachable(s) && p < |s.phases| && s.phases[p] == Losing(false)
    ensures IsRun(s, [Retreat(p), Retry(p)]) && Reachable(After(s, [Retreat(p), Retry(p)]))
    ensures var t := After(s, [Retreat(p), Retry(p)]);
            && t.phases == s.phases[p := Reading(false)] && t.cell == s.cell && Enabled(t, Read(p))
            && (Apply(t, Read(p)).phases[p].Holding? <==> Alone(s, p))
  {
    var a, b := Retreat(p), Retry(p);
    var s1 := Apply(s, a);
    ReachableStep(s, a);
    var s2 := Apply(s1, b);
    ReachableStep(s1, b);
    OneStep(s, a);
    OneStep(s1, b);
    RunsConcat(s, [a], [b]);
    assert [a] + [b] == [a, b];
    assert s2.phases == s.phases[p := Reading(false)];
    ReadDecides(s2, p);
    AloneFrom(s, s2, p);
    AloneFrom(s2, s, p);
  }

  /** An unlock leaves the mutex free and takes back exactly what its caller had added. */
  lemma {:induction false} UnlockFrees(s: State, p: nat)
    requires Reachable(s) && p in Holders(s)
    ensures Enabled(s, Unlock(p))
    ensures var t := Apply(s, Unlock(p));
            t.phases == s.phases[p := Outside] && t.cell == s.cell - (p + 1) && AsLock(t) == Free
  {
    MutualExclusion(s, p);
    var t := Apply(s, Unlock(p));
    ReachableInvariant(s);
    assert forall q: nat :: q < |t.phases| ==> !t.phases[q].Holding?;
    assert Holders(t) == {};
  }
}

/** PARMCI_Barrier (src/util.c): every process fences all its windows, then all meet in MPI_Barrier. */
module BarrierVisibility {

  /** An operation: who issued it, after how many barriers, on which window and to which target. */
  datatype Operation = Operation(owner: nat, epoch: nat, win: nat, target: nat)

  /** What a process is doing: anything, walking gmr_list in PARMCI_AllFence, or inside MPI_Barrier. */
  datatype Phase = Running | Fencing(k: nat) | InBarrier

  /** A process has returned from `passed` calls of PARMCI_Barrier. */
  datatype Process = Process(phase: Phase, passed: nat, windows: seq<nat>)

  datatype State = State(procs: seq<Process>, pending: seq<Operation>)

  datatype Step =
    | Issue(p: nat, win: nat, target: nat)
    | Deliver(j: nat)
    | Enter(p: nat)
    | FlushAll(p: nat)
    | Arrive(p: nat)
    | Leave(p: nat)

  /** How many times q has called MPI_Barrier. */
  function Arrived(p: Process): nat { p.passed + if p.phase == InBarrier then 1 else 0 }

  /** Nothing of p is under way on the window, to any target. */
  ghost predicate Quiet(s: State, p: nat, win: nat) {
    forall j :: 0 <= j < |s.pending| ==> !(s.pending[j].owner == p && s.pending[j].win == win)
  }

  ghost predicate Enabled(s: State, step: Step) {
    var n := |s.procs|;
    match step
    case Issue(p, win, target) => p < n && s.procs[p].phase == Running && win in s.procs[p].windows && target < n
    case Deliver(j) => j < |s.pending|
    case Enter(p) => p < n && s.procs[p].phase == Running
    case FlushAll(p) =>
      && p < n && s.procs[p].phase.Fencing? && s.procs[p].phase.k < |s.procs[p].windows|
      && Quiet(s, p, s.procs[p].windows[s.procs[p].phase.k])
    case Arrive(p) => p < n && s.procs[p].phase == Fencing(|s.procs[p].windows|)
    // A process leaves MPI_Barrier once everyone has called it as often.
    case Leave(p) =>
      && p < n && s.procs[p].phase == InBarrier
      && forall q :: 0 <= q < n ==> Arrived(s.procs[q]) >= Arrived(s.procs[p])
  }

  function Apply(s: State, step: Step): State
    requires Enabled(s, step)
  {
    match step
    case Issue(p, win, target) => s.(pending := s.pending + [Operation(p, s.procs[p].passed, win, target)])
    case Deliver(j) => s.(pending := s.pending[..j] + s.pending[j + 1..])
    case Enter(p) => s.(procs := s.procs[p := s.procs[p].(phase := Fencing(0))])
    case FlushAll(p) => s.(procs := s.procs[p := s.procs[p].(phase := Fencing(s.procs[p].phase.k + 1))])
    case Arrive(p) => s.(procs := s.procs[p := s.procs[p].(phase := InBarrier)])
    case Leave(p) => s.(procs := s.procs[p := s.procs[p].(phase := Running, passed := s.procs[p].passed + 1)])
  }

  ghost predicate Init(s: State) {
    s.pending == [] && forall p :: 0 <= p < |s.procs| ==> s.procs[p].phase == Running && s.procs[p].passed == 0
  }

  ghost predicate IsRun(s: State, steps: seq<Step>)
    decreases |steps|
  {
    steps == [] || (Enabled(s, steps[0]) && IsRun(Apply(s, steps[0]), steps[1..]))
  }

  ghost function After(s: State, steps: seq<Step>): (t: State)
    requires IsRun(s, steps)
    ensures |t.procs| == |s.procs|
    decreases |steps|
  {
    if steps == [] then s else After(Apply(s, steps[0]), steps[1..])
  }

  // ----- What every step keeps

  /** A pending operation belongs to the epoch its owner is in, and the owner's fence has not passed it. */
  ghost predicate OperationOk(s: State, o: Operation) {
    && o.owner < |s.procs| && o.target < |s.procs|
    && o.win in s.procs[o.owner].windows && o.epoch == s.procs[o.owner].passed
    && s.procs[o.owner].phase != InBarrier
    && (s.procs[o.owner].phase.Fencing? ==>
          && s.procs[o.owner].phase.k <= |s.procs[o.owner].windows|
          && o.win !in s.procs[o.owner].windows[..s.procs[o.owner].phase.k])
  }

  /** Nobody is more than one barrier ahead of anybody's arrival. */
  ghost predicate Invariant(s: State) {
    && (forall j :: 0 <= j < |s.pending| ==> OperationOk(s, s.pending[j]))
    && (forall p, q :: 0 <= p < |s.procs| && 0 <= q < |s.procs| ==> s.procs[p].passed <= Arrived(s.procs[q]))
  }

  lemma {:induction false} StepKeeps(s: State, step: Step)
    requires Invariant(s) && Enabled(s, step)
    ensures Invariant(Apply(s, step))
  {
    var t := Apply(s, step);
    forall j | 0 <= j < |t.pending| ensures OperationOk(t, t.pending[j]) {
      match step
      case Issue(p, win, target) => if j < |s.pending| { assert OperationOk(s, s.pending[j]); }
      case Deliver(i) => assert OperationOk(s, s.pending[if j < i then j else j + 1]);
      case Enter(p) => assert OperationOk(s, s.pending[j]);
      case FlushAll(p) =>
        assert OperationOk(s, s.pending[j]);
        var ws, k := s.procs[p].windows, s.procs[p].phase.k;
        assert ws[..k + 1] == ws[..k] + [ws[k]];
      case Arrive(p) =>
        assert OperationOk(s, s.pending[j]);
        assert s.procs[p].windows[..|s.procs[p].windows|] == s.procs[p].windows;
      case Leave(p) => assert OperationOk(s, s.pending[j]);
    }
  }

  lemma {:induction false} RunKeeps(s: State, steps: seq<Step>)
    requires Invariant(s) && IsRun(s, steps)
    ensures Invariant(After(s, steps))
    decreases |steps|
  {
    if steps != [] {
      StepKeeps(s, steps[0]);
      RunKeeps(Apply(s, steps[0]), steps[1..]);
    }
  }

  // ----- Where the operations of a run are

  /** What a step issues, with the number of barriers that its process has returned from. */
  ghost function NewIn(s: State, step: Step): multiset<Operation>
    requires Enabled(s, step)
  {
    if step.Issue? then multiset{Operation(step.p, s.procs[step.p].passed, step.win, step.target)} else multiset{}
  }

  /** What a step delivers. */
  ghost function DoneIn(s: State, step: Step): multiset<Operation>
    requires Enabled(s, step)
  {
    if step.Deliver? then multiset{s.pending[step.j]} else multiset{}
  }

  /** The operations that a run issues. */
  ghost function Issued(s: State, steps: seq<Step>): multiset<Operation>
    requires IsRun(s, steps)
    decreases |steps|
  {
    if steps == [] then multiset{}
    else NewIn(s, steps[0]) + Issued(Apply(s, steps[0]), steps[1..])
  }

  /** The operations that a run delivers. */
  ghost function Delivered(s: State, steps: seq<Step>): multiset<Operation>
    requires IsRun(s, steps)
    decreases |steps|
  {
    if steps == [] then multiset{}
    else DoneIn(s, steps[0]) + Delivered(Apply(s, steps[0]), steps[1..])
  }

  /** How often p returns from PARMCI_Barrier in a run. */
  function Returns(steps: seq<Step>, p: nat): nat {
    if steps == [] then 0 else (if steps[0] == Leave(p) then 1 else 0) + Returns(steps[1..], p)
  }

  lemma {:induction false} StepConserves(s: State, step: Step)
    requires Enabled(s, step)
    ensures multiset(s.pending) + NewIn(s, step) == DoneIn(s, step) + multiset(Apply(s, step).pending)
  {
    if step.Deliver? {
      var j := step.j;
      assert s.pending == s.pending[..j] + [s.pending[j]] + s.pending[j + 1..];
    }
  }

  lemma {:induction false} Chained<T>(a: multiset<T>, new1: multiset<T>, done1: multiset<T>, b: multiset<T>,
                                      new2: multiset<T>, done2: multiset<T>, c: multiset<T>)
    requires a + new1 == done1 + b && b + new2 == done2 + c
    ensures a + (new1 + new2) == (done1 + done2) + c
  {
    assert a + (new1 + new2) == (a + new1) + new2;
    assert (done1 + b) + new2 == done1 + (b + new2);
    assert done1 + (done2 + c) == (done1 + done2) + c;
  }

  /** Nothing is lost and nothing is delivered twice. */
  lemma {:induction false} Conservation(s: State, steps: seq<Step>)
    requires IsRun(s, steps)
    ensures multiset(s.pending) + Issued(s, steps) == Delivered(s, steps) + multiset(After(s, steps).pending)
    decreases |steps|
  {
    if steps != [] {
      var t := Apply(s, steps[0]);
      StepConserves(s, steps[0]);
      Conservation(t, steps[1..]);
      Chained(multiset(s.pending), NewIn(s, steps[0]), DoneIn(s, steps[0]), multiset(t.pending),
              Issued(t, steps[1..]), Delivered(t, steps[1..]), multiset(After(t, steps[1..]).pending));
    }
  }

  lemma {:induction false} PassedCounts(s: State, steps: seq<Step>, p: nat)
    requires IsRun(s, steps) && p < |s.procs|
    ensures After(s, steps).procs[p].passed == s.procs[p].passed + Returns(steps, p)
    decreases |steps|
  {
    if steps != [] { PassedCounts(Apply(s, steps[0]), steps[1..], p); }
  }

  /** What is under way was issued after every barrier that anybody has returned from. */
  lemma {:induction false} PendingIsLate(s: State, steps: seq<Step>, q: nat, j: nat)
    requires Init(s) && IsRun(s, steps) && q < |s.procs| && j < |After(s, steps).pending|
    ensures After(s, steps).pending[j].epoch >= After(s, steps).procs[q].passed
  {
    RunKeeps(s, steps);
    var t := After(s, steps);
    assert OperationOk(t, t.pending[j]);
    assert t.procs[q].passed <= Arrived(t.procs[t.pending[j].owner]);
  }

  /** Once any process q has returned from its k-th barrier, everything that any process issued before it
      entered its own k-th barrier has been delivered, as often as it was issued. */
  lemma {:induction false} BarrierCompletes(s: State, steps: seq<Step>, q: nat, o: Operation)
    requires Init(s) && IsRun(s, steps) && q < |s.procs| && o.epoch < Returns(steps, q)
    ensures Delivered(s, steps)[o] == Issued(s, steps)[o]
  {
    var t := After(s, steps);
    PassedCounts(s, steps, q);
    Conservation(s, steps);
    forall j | 0 <= j < |t.pending| ensures t.pending[j] != o { PendingIsLate(s, steps, q, j); }
    assert multiset(s.pending) == multiset{} && multiset(t.pending)[o] == 0;
    assert (multiset{} + Issued(s, steps))[o] == (Delivered(s, steps) + multiset(t.pending))[o];
  }

  // ----- Nobody stays in a barrier that everyone has called

  /** A process outside the library can issue an operation on any of its windows, and can call the barrier,
      whatever the others do. */
  lemma {:induction false} RunningIsFree(s: State, p: nat, win: nat, target: nat)
    requires p < |s.procs| && target < |s.procs| && s.procs[p].phase == Running && win in s.procs[p].windows
    ensures Enabled(s, Issue(p, win, target)) && Apply(s, Issue(p, win, target)).procs == s.procs
    ensures Enabled(s, Enter(p)) && Apply(s, Enter(p)).pending == s.pending && Joined(Apply(s, Enter(p)), p, p)
    ensures forall q :: 0 <= q < |s.procs| && q != p ==> Apply(s, Enter(p)).procs[q] == s.procs[q]
  {
  }

  /** Process q has called the barrier that p is in, and may have returned from it. */
  ghost predicate Joined(s: State, p: nat, q: nat)
    requires p < |s.procs| && q < |s.procs|
  {
    || s.procs[q].passed > s.procs[p].passed
    || (s.procs[q].passed == s.procs[p].passed && s.procs[q].phase != Running)
  }

  ghost predicate AllJoined(s: State, p: nat)
    requires p < |s.procs|
  {
    forall q :: 0 <= q < |s.procs| ==> Joined(s, p, q)
  }

  /** Neither a new operation nor a new call of the barrier. */
  predicate Finishes(step: Step) { !step.Issue? && !step.Enter? }

  /** The fence's cursor stays within the list. */
  lemma {:induction false} FenceInRange(s: State, steps: seq<Step>)
    requires IsRun(s, steps) && CursorsOk(s)
    ensures CursorsOk(After(s, steps))
    decreases |steps|
  {
    if steps != [] { FenceInRange(Apply(s, steps[0]), steps[1..]); }
  }

  ghost predicate CursorsOk(s: State) {
    forall p :: 0 <= p < |s.procs| && s.procs[p].phase.Fencing? ==> s.procs[p].phase.k <= |s.procs[p].windows|
  }

  /** Of the processes in MPI_Barrier among the first k, one that has called it least often. */
  lemma {:induction false} Last(s: State, k: nat, p: nat) returns (q: nat)
    requires p < k <= |s.procs| && s.procs[p].phase == InBarrier
    ensures q < k && s.procs[q].phase == InBarrier
    ensures forall r :: 0 <= r < k && s.procs[r].phase == InBarrier ==> s.procs[q].passed <= s.procs[r].passed
    decreases k
  {
    if p == k - 1 {
      if r: nat :| r < k - 1 && s.procs[r].phase == InBarrier {
        q := Last(s, k - 1, r);
        if s.procs[p].passed < s.procs[q].passed { q := p; }
      } else {
        q := p;
      }
    } else {
      q := Last(s, k - 1, p);
      if s.procs[k - 1].phase == InBarrier && s.procs[k - 1].passed < s.procs[q].passed { q := k - 1; }
    }
  }

  /** Nobody is stuck in a barrier that everyone has called. */
  lemma {:induction false} BarrierEnds(s: State, p: nat) returns (step: Step)
    requires CursorsOk(s) && p < |s.procs| && AllJoined(s, p)
    ensures Enabled(s, step) && Finishes(step)
  {
    assert Joined(s, p, p);
    if s.pending != [] {
      step := Deliver(0);
    } else if q: nat :| q < |s.procs| && s.procs[q].phase.Fencing? {
      step := if s.procs[q].phase.k < |s.procs[q].windows| then FlushAll(q) else Arrive(q);
    } else {
      var q := Last(s, |s.procs|, p);
      forall r | 0 <= r < |s.procs| ensures Arrived(s.procs[r]) >= Arrived(s.procs[q]) {
        assert Joined(s, p, r);
      }
      step := Leave(q);
    }
  }

  /** What p has still to do for the barrier it is in. */
  function Left(p: Process): int {
    match p.phase
    case Running => 0
    case Fencing(k) => |p.windows| - k + 2
    case InBarrier => 1
  }

  function LeftOf(procs: seq<Process>): int {
    if procs == [] then 0 else Left(procs[0]) + LeftOf(procs[1..])
  }

  function Work(s: State): int { |s.pending| + LeftOf(s.procs) }

  lemma {:induction false} LeftUpdate(procs: seq<Process>, p: nat, pr: Process)
    requires p < |procs|
    ensures LeftOf(procs[p := pr]) == LeftOf(procs) - Left(procs[p]) + Left(pr)
  {
    if p == 0 {
      assert procs[p := pr][1..] == procs[1..];
    } else {
      assert procs[p := pr][1..] == procs[1..][p - 1 := pr];
      LeftUpdate(procs[1..], p - 1, pr);
    }
  }

  lemma {:induction false} LeftPositive(procs: seq<Process>)
    requires forall p :: 0 <= p < |procs| && procs[p].phase.Fencing? ==> procs[p].phase.k <= |procs[p].windows|
    ensures LeftOf(procs) >= 0
  {
    if procs != [] { LeftPositive(procs[1..]); }
  }

  lemma {:induction false} StepWorks(s: State, step: Step)
    requires Enabled(s, step) && Finishes(step)
    ensures Work(Apply(s, step)) == Work(s) - 1
  {
    if !step.Deliver? { LeftUpdate(s.procs, step.p, Apply(s, step).procs[step.p]); }
  }

  ghost predicate AllFinish(steps: seq<Step>) { forall i :: 0 <= i < |steps| ==> Finishes(steps[i]) }

  /** Runs without new operations and new calls are short. */
  lemma {:induction false} RunsEnd(s: State, steps: seq<Step>)
    requires CursorsOk(s) && IsRun(s, steps) && AllFinish(steps)
    ensures |steps| <= Work(s)
    decreases |steps|
  {
    LeftPositive(s.procs);
    if steps != [] {
      FenceInRange(s, [steps[0]]);
      StepWorks(s, steps[0]);
      RunsEnd(Apply(s, steps[0]), steps[1..]);
    }
  }

  lemma {:induction false} StaysJoined(s: State, step: Step, p: nat)
    requires p < |s.procs| && AllJoined(s, p) && Enabled(s, step) && Finishes(step)
    ensures |Apply(s, step).procs| == |s.procs|
    ensures var t := Apply(s, step);
            if step == Leave(p) then t.procs[p].phase == Running && t.procs[p].passed == s.procs[p].passed + 1
            else AllJoined(t, p) && t.procs[p].passed == s.procs[p].passed
  {
    var t := Apply(s, step);
    if step != Leave(p) {
      forall q | 0 <= q < |s.procs| ensures Joined(t, p, q) { assert Joined(s, p, q); }
    }
  }

  lemma {:induction false} OutStaysOut(s: State, steps: seq<Step>, p: nat)
    requires IsRun(s, steps) && AllFinish(steps) && p < |s.procs| && s.procs[p].phase == Running
    ensures After(s, steps).procs[p] == s.procs[p]
    decreases |steps|
  {
    if steps != [] {
      assert Finishes(steps[0]);
      OutStaysOut(Apply(s, steps[0]), steps[1..], p);
    }
  }

  /** Nothing but a new operation or a new call can happen. */
  ghost predicate AtRest(s: State) { forall step :: Enabled(s, step) ==> !Finishes(step) }

  /** Once everyone has called the barrier that p is in, p returns from it, exactly once: a run that goes on
      until nothing is left to do, and by RunsEnd every run does, has p outside again. */
  lemma {:induction false} BarrierReturns(s: State, steps: seq<Step>, p: nat)
    requires CursorsOk(s) && p < |s.procs| && AllJoined(s, p) && IsRun(s, steps) && AllFinish(steps)
    requires AtRest(After(s, steps))
    ensures After(s, steps).procs[p].phase == Running
    ensures After(s, steps).procs[p].passed == s.procs[p].passed + 1
    decreases |steps|
  {
    if steps == [] {
      var step := BarrierEnds(s, p);
      assert false;
    } else {
      assert Finishes(steps[0]);
      var t := Apply(s, steps[0]);
      StaysJoined(s, steps[0], p);
      FenceInRange(s, [steps[0]]);
      if steps[0] == Leave(p) {
        OutStaysOut(t, steps[1..], p);
      } else {
        BarrierReturns(t, steps[1..], p);
      }
    }
  }
}

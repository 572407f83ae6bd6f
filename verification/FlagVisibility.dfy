/** PARMCI_Put_flag and PARMCI_PutS_flag (src/onesided.c, src/strided.c): put the data, fence, put the
    flag, while puts arrive at the target in any order. */
module FlagVisibility {
  import opened Memory

  /** One cell on its way to the target, through one window. */
  datatype Put = Put(win: nat, addr: int, value: int)

  /** A call: the origin's gmr_list, the cells of the data, the flag, and whether each of the two goes
      by the local copy of PARMCI_Put (target is the caller, source private) or through a window. */
  datatype Call = Call(windows: seq<nat>, data: seq<Put>, flag: Put, dataLocal: bool, flagLocal: bool)

  /** Where the caller is: how many data cells are issued, how many windows the fence has flushed. */
  datatype Pc = Data(k: nat) | Fence(k: nat) | Done

  datatype State = State(mem: Mem, pending: seq<Put>, pc: Pc)

  /** Deliver is MPI's doing; the others are the caller's. The flush of a window returns once nothing
      is under way on it. */
  datatype Step = PutData | StartFence | FlushWindow | PutFlag | Deliver(j: nat)

  ghost predicate Quiet(s: State, win: nat) { forall j :: 0 <= j < |s.pending| ==> s.pending[j].win != win }

  ghost predicate Enabled(c: Call, s: State, step: Step) {
    match step
    case PutData => s.pc.Data? && s.pc.k < |c.data|
    case StartFence => s.pc == Data(|c.data|)
    case FlushWindow => s.pc.Fence? && s.pc.k < |c.windows| && Quiet(s, c.windows[s.pc.k])
    case PutFlag => s.pc == Fence(|c.windows|)
    case Deliver(j) => j < |s.pending|
  }

  function Store(s: State, p: Put): State { s.(mem := s.mem[p.addr := p.value]) }

  function Send(s: State, p: Put): State { s.(pending := s.pending + [p]) }

  function Apply(c: Call, s: State, step: Step): State
    requires Enabled(c, s, step)
  {
    match step
    case PutData => (if c.dataLocal then Store(s, c.data[s.pc.k]) else Send(s, c.data[s.pc.k])).(pc := Data(s.pc.k + 1))
    case StartFence => s.(pc := Fence(0))
    case FlushWindow => s.(pc := Fence(s.pc.k + 1))
    case PutFlag => (if c.flagLocal then Store(s, c.flag) else Send(s, c.flag)).(pc := Done)
    case Deliver(j) => Store(s, s.pending[j]).(pending := Without(s.pending, j))
  }

  /** Before the call: the flag is not set, and whatever is under way concerns other cells. */
  ghost predicate Before(c: Call, s: State) {
    && s.pc == Data(0) && (c.flag.addr in s.mem ==> s.mem[c.flag.addr] != c.flag.value)
    && forall j :: 0 <= j < |s.pending| ==> Elsewhere(c, s.pending[j])
  }

  ghost predicate Elsewhere(c: Call, p: Put) {
    p.addr != c.flag.addr && forall i :: 0 <= i < |c.data| ==> c.data[i].addr != p.addr
  }

  /** The data cells differ from each other and from the flag, and their windows are in the list. */
  ghost predicate WellFormed(c: Call) {
    && (forall i, j :: 0 <= i < j < |c.data| ==> c.data[i].addr != c.data[j].addr)
    && (forall i :: 0 <= i < |c.data| ==> c.data[i].addr != c.flag.addr && c.data[i].win in c.windows)
  }

  ghost predicate IsRun(c: Call, s: State, steps: seq<Step>)
    decreases |steps|
  {
    steps == [] || (Enabled(c, s, steps[0]) && IsRun(c, Apply(c, s, steps[0]), steps[1..]))
  }

  ghost function After(c: Call, s: State, steps: seq<Step>): State
    requires IsRun(c, s, steps)
    decreases |steps|
  {
    if steps == [] then s else After(c, Apply(c, s, steps[0]), steps[1..])
  }

  // ----- What every step keeps

  ghost function Issued(c: Call, pc: Pc): nat { if pc.Data? && pc.k <= |c.data| then pc.k else |c.data| }

  /** Data cell i has arrived, or is still under way on a window that the fence has not passed. */
  ghost predicate Arrived(c: Call, s: State, i: nat)
    requires i < |c.data|
  {
    c.data[i].addr in s.mem && s.mem[c.data[i].addr] == c.data[i].value
  }

  /** The fence has not yet passed the window of p. */
  ghost predicate Ahead(c: Call, pc: Pc, p: Put) {
    pc.Data? || (pc.Fence? && pc.k <= |c.windows| && p.win !in c.windows[..pc.k])
  }

  ghost predicate Waiting(c: Call, s: State, i: nat)
    requires i < |c.data|
  {
    c.data[i] in s.pending && Ahead(c, s.pc, c.data[i])
  }

  /** A pending put is one of the data cells ahead of the fence, the flag after it, or concerns other
      cells. */
  ghost predicate Known(c: Call, pc: Pc, p: Put) {
    Elsewhere(c, p) || (p in c.data && Ahead(c, pc, p)) || (p == c.flag && pc == Done)
  }

  ghost predicate Invariant(c: Call, s: State) {
    && (s.pc.Data? ==> s.pc.k <= |c.data|) && (s.pc.Fence? ==> s.pc.k <= |c.windows|)
    && (forall i :: 0 <= i < Issued(c, s.pc) ==> Arrived(c, s, i) || Waiting(c, s, i))
    && (forall j :: 0 <= j < |s.pending| ==> Known(c, s.pc, s.pending[j]))
    && (s.pc != Done && c.flag.addr in s.mem ==> s.mem[c.flag.addr] != c.flag.value)
  }

  lemma {:induction false} InitialInvariant(c: Call, s: State)
    requires Before(c, s)
    ensures Invariant(c, s)
  {
  }

  lemma {:induction false} PutDataKeeps(c: Call, s: State)
    requires WellFormed(c) && Invariant(c, s) && Enabled(c, s, PutData)
    ensures Invariant(c, Apply(c, s, PutData))
  {
    var t, k := Apply(c, s, PutData), s.pc.k;
    forall i | 0 <= i <= k ensures Arrived(c, t, i) || Waiting(c, t, i) {
      if i < k {
        assert Arrived(c, s, i) || Waiting(c, s, i);
        assert c.data[i].addr != c.data[k].addr;
      } else if !c.dataLocal {
        assert t.pending[|s.pending|] == c.data[k];
      }
    }
    forall j | 0 <= j < |t.pending| ensures Known(c, t.pc, t.pending[j]) {
      if j < |s.pending| { assert Known(c, s.pc, s.pending[j]); }
    }
  }

  lemma {:induction false} FlushKeeps(c: Call, s: State)
    requires WellFormed(c) && Invariant(c, s) && Enabled(c, s, FlushWindow)
    ensures Invariant(c, Apply(c, s, FlushWindow))
  {
    var t, k := Apply(c, s, FlushWindow), s.pc.k;
    assert c.windows[..k + 1] == c.windows[..k] + [c.windows[k]];
    forall j | 0 <= j < |t.pending| ensures Known(c, t.pc, t.pending[j]) {
      assert Known(c, s.pc, s.pending[j]);
    }
    forall i | 0 <= i < |c.data| ensures Arrived(c, t, i) || Waiting(c, t, i) {
      assert Arrived(c, s, i) || Waiting(c, s, i);
    }
  }

  /** Once the fence is through, no data cell is under way. */
  lemma {:induction false} FenceDone(c: Call, s: State)
    requires WellFormed(c) && Invariant(c, s) && s.pc == Fence(|c.windows|)
    ensures forall i :: 0 <= i < |c.data| ==> Arrived(c, s, i)
    ensures forall j :: 0 <= j < |s.pending| ==> Elsewhere(c, s.pending[j])
  {
    assert c.windows[..|c.windows|] == c.windows;
    forall i | 0 <= i < |c.data| ensures Arrived(c, s, i) {
      assert Arrived(c, s, i) || Waiting(c, s, i);
    }
    forall j | 0 <= j < |s.pending| ensures Elsewhere(c, s.pending[j]) {
      assert Known(c, s.pc, s.pending[j]);
    }
  }

  lemma {:induction false} PutFlagKeeps(c: Call, s: State)
    requires WellFormed(c) && Invariant(c, s) && Enabled(c, s, PutFlag)
    ensures Invariant(c, Apply(c, s, PutFlag))
  {
    FenceDone(c, s);
    var t := Apply(c, s, PutFlag);
    forall i | 0 <= i < |c.data| ensures Arrived(c, t, i) { assert Arrived(c, s, i); }
    forall j | 0 <= j < |t.pending| ensures Known(c, t.pc, t.pending[j]) {
      if j < |s.pending| { assert Elsewhere(c, s.pending[j]); }
    }
  }

  lemma {:induction false} DeliverKeeps(c: Call, s: State, j: nat)
    requires WellFormed(c) && Invariant(c, s) && Enabled(c, s, Deliver(j))
    ensures Invariant(c, Apply(c, s, Deliver(j)))
  {
    var t, p := Apply(c, s, Deliver(j)), s.pending[j];
    assert Known(c, s.pc, p);
    forall i | 0 <= i < Issued(c, s.pc) ensures Arrived(c, t, i) || Waiting(c, t, i) {
      assert Arrived(c, s, i) || Waiting(c, s, i);
      if c.data[i] != p {
        assert c.data[i].addr != p.addr;
        if c.data[i] in s.pending { StillThere(s.pending, j, c.data[i]); }
      }
    }
    forall l | 0 <= l < |t.pending| ensures Known(c, t.pc, t.pending[l]) {
      assert Known(c, s.pc, s.pending[if l < j then l else l + 1]);
    }
  }

  lemma {:induction false} StillThere(ps: seq<Put>, j: nat, p: Put)
    requires j < |ps| && p in ps && ps[j] != p
    ensures p in Without(ps, j)
  {
    var i :| 0 <= i < |ps| && ps[i] == p;
    assert Without(ps, j)[if i < j then i else i - 1] == p;
  }

  lemma {:induction false} StepKeeps(c: Call, s: State, step: Step)
    requires WellFormed(c) && Invariant(c, s) && Enabled(c, s, step)
    ensures Invariant(c, Apply(c, s, step))
  {
    match step
    case PutData => PutDataKeeps(c, s);
    case StartFence =>
      forall i | 0 <= i < |c.data| ensures Arrived(c, Apply(c, s, step), i) || Waiting(c, Apply(c, s, step), i) {
        assert Arrived(c, s, i) || Waiting(c, s, i);
      }
      forall j | 0 <= j < |s.pending| ensures Known(c, Fence(0), s.pending[j]) { assert Known(c, s.pc, s.pending[j]); }
    case FlushWindow => FlushKeeps(c, s);
    case PutFlag => PutFlagKeeps(c, s);
    case Deliver(j) => DeliverKeeps(c, s, j);
  }

  lemma {:induction false} RunKeeps(c: Call, s: State, steps: seq<Step>)
    requires WellFormed(c) && Invariant(c, s) && IsRun(c, s, steps)
    ensures Invariant(c, After(c, s, steps))
    decreases |steps|
  {
    if steps != [] {
      StepKeeps(c, s, steps[0]);
      RunKeeps(c, Apply(c, s, steps[0]), steps[1..]);
    }
  }

  /** Whoever sees the flag sees all the data, at every moment of every run. */
  lemma {:induction false} FlagAfterData(c: Call, s: State, steps: seq<Step>, i: nat)
    requires WellFormed(c) && Before(c, s) && IsRun(c, s, steps) && i < |c.data|
    ensures var t := After(c, s, steps);
            c.flag.addr in t.mem && t.mem[c.flag.addr] == c.flag.value ==>
              c.data[i].addr in t.mem && t.mem[c.data[i].addr] == c.data[i].value
  {
    InitialInvariant(c, s);
    RunKeeps(c, s, steps);
    var t := After(c, s, steps);
    if t.pc == Done { assert Arrived(c, t, i) || Waiting(c, t, i); }
  }

  // ----- The flag arrives, with the data, and nothing else changes

  /** Everything under way comes from the call or was under way before it. */
  ghost predicate Traced(c: Call, s0: State, s: State) {
    forall j :: 0 <= j < |s.pending| ==> s.pending[j] in s0.pending || s.pending[j] in c.data || s.pending[j] == c.flag
  }

  /** No put that the call made or found writes x. */
  ghost predicate Untouched(c: Call, s0: State, x: int) {
    && x != c.flag.addr && (forall i :: 0 <= i < |c.data| ==> c.data[i].addr != x)
    && (forall j :: 0 <= j < |s0.pending| ==> s0.pending[j].addr != x)
  }

  ghost predicate SameAt(m: Mem, m': Mem, x: int) { (x in m <==> x in m') && (x in m ==> m[x] == m'[x]) }

  /** The flag is stored, or on its way, once the call is done. */
  ghost predicate FlagSent(c: Call, s: State) {
    s.pc == Done ==> c.flag in s.pending || (c.flag.addr in s.mem && s.mem[c.flag.addr] == c.flag.value)
  }

  lemma {:induction false} TracedStep(c: Call, s0: State, s: State, step: Step)
    requires Traced(c, s0, s) && Enabled(c, s, step)
    ensures Traced(c, s0, Apply(c, s, step))
  {
    var t := Apply(c, s, step);
    forall j | 0 <= j < |t.pending|
      ensures t.pending[j] in s0.pending || t.pending[j] in c.data || t.pending[j] == c.flag
    {
      if step.Deliver? {
        assert t.pending[j] == s.pending[if j < step.j then j else j + 1];
      } else if j < |s.pending| {
        assert t.pending[j] == s.pending[j];
      }
    }
  }

  lemma {:induction false} UntouchedStep(c: Call, s0: State, s: State, step: Step, x: int)
    requires Traced(c, s0, s) && Enabled(c, s, step) && Untouched(c, s0, x)
    ensures SameAt(s.mem, Apply(c, s, step).mem, x)
  {
    if step.Deliver? { assert s.pending[step.j].addr != x; }
  }

  lemma {:induction false} FlagSentStep(c: Call, s: State, step: Step)
    requires WellFormed(c) && Invariant(c, s) && FlagSent(c, s) && Enabled(c, s, step)
    ensures FlagSent(c, Apply(c, s, step))
  {
    var t := Apply(c, s, step);
    match step
    case PutFlag => if !c.flagLocal { assert t.pending[|s.pending|] == c.flag; }
    case Deliver(j) =>
      assert Known(c, s.pc, s.pending[j]);
      if s.pc == Done && s.pending[j] != c.flag && c.flag in s.pending { StillThere(s.pending, j, c.flag); }
    case _ =>
  }

  lemma {:induction false} Delivery(c: Call, s0: State, s: State, steps: seq<Step>)
    requires WellFormed(c) && Invariant(c, s) && Traced(c, s0, s) && FlagSent(c, s) && IsRun(c, s, steps)
    ensures var t := After(c, s, steps);
            && Invariant(c, t) && FlagSent(c, t)
            && forall x :: Untouched(c, s0, x) ==> SameAt(s.mem, t.mem, x)
    decreases |steps|
  {
    if steps != [] {
      var s1 := Apply(c, s, steps[0]);
      StepKeeps(c, s, steps[0]);
      TracedStep(c, s0, s, steps[0]);
      FlagSentStep(c, s, steps[0]);
      Delivery(c, s0, s1, steps[1..]);
      forall x | Untouched(c, s0, x) ensures SameAt(s.mem, After(c, s, steps).mem, x) {
        UntouchedStep(c, s0, s, steps[0], x);
      }
    }
  }

  /** When the call has returned and nothing is under way, the flag and every data cell are there, and no
      address has changed that neither the call nor an earlier put writes. */
  lemma {:induction false} FlagArrives(c: Call, s: State, steps: seq<Step>)
    requires WellFormed(c) && Before(c, s) && IsRun(c, s, steps)
    requires After(c, s, steps).pc == Done && After(c, s, steps).pending == []
    ensures var t := After(c, s, steps);
            && c.flag.addr in t.mem && t.mem[c.flag.addr] == c.flag.value
            && (forall i :: 0 <= i < |c.data| ==> c.data[i].addr in t.mem && t.mem[c.data[i].addr] == c.data[i].value)
            && (forall x :: Untouched(c, s, x) ==> SameAt(s.mem, t.mem, x))
  {
    InitialInvariant(c, s);
    Delivery(c, s, s, steps);
    var t := After(c, s, steps);
    forall i | 0 <= i < |c.data| ensures c.data[i].addr in t.mem && t.mem[c.data[i].addr] == c.data[i].value {
      assert Arrived(c, t, i) || Waiting(c, t, i);
    }
  }

  /** Steps that are still to come: each data cell and the flag are put and delivered, each window flushed. */
  ghost function Work(c: Call, s: State): int {
    |s.pending| +
    match s.pc
    case Data(k) => 2 * (|c.data| - k) + 1 + |c.windows| + 2
    case Fence(k) => |c.windows| - k + 2
    case Done => 0
  }

  lemma {:induction false} StepWorks(c: Call, s: State, step: Step)
    requires Invariant(c, s) && Enabled(c, s, step)
    ensures 0 <= Work(c, Apply(c, s, step)) < Work(c, s)
  {
  }

  /** Every run is short. With NeverStuck and FlagArrives, the flag is there in the end. */
  lemma {:induction false} RunsEnd(c: Call, s: State, steps: seq<Step>)
    requires WellFormed(c) && Invariant(c, s) && IsRun(c, s, steps)
    ensures |steps| <= Work(c, s)
    decreases |steps|
  {
    if steps != [] {
      StepKeeps(c, s, steps[0]);
      StepWorks(c, s, steps[0]);
      RunsEnd(c, Apply(c, s, steps[0]), steps[1..]);
    }
  }

  /** The call cannot get stuck: until it is done and everything is delivered, some step is possible. */
  lemma {:induction false} NeverStuck(c: Call, s: State, steps: seq<Step>) returns (step: Step)
    requires WellFormed(c) && Before(c, s) && IsRun(c, s, steps)
    requires After(c, s, steps).pc != Done || After(c, s, steps).pending != []
    ensures Enabled(c, After(c, s, steps), step)
  {
    InitialInvariant(c, s);
    RunKeeps(c, s, steps);
    var t := After(c, s, steps);
    if t.pending != [] {
      step := Deliver(0);
    } else {
      step := match t.pc
      case Data(k) => if k < |c.data| then PutData else StartFence
      case Fence(k) => if k < |c.windows| then FlushWindow else PutFlag
      case Done => PutFlag;
    }
  }

  /** Without the fence the flag can be seen first: one data cell, still under way when the flag
      arrives. */
  lemma {:induction false} FenceIsNeeded()
    ensures var c := Call([], [Put(0, 0, 1)], Put(0, 1, 1), false, false);
            var s := State(map[0 := 0, 1 := 0], [], Data(0));
            var steps := [PutData, StartFence, PutFlag, Deliver(1)];
            Before(c, s) && IsRun(c, s, steps) && After(c, s, steps).mem == map[0 := 0, 1 := 1]
  {
    var c := Call([], [Put(0, 0, 1)], Put(0, 1, 1), false, false);
    var s := State(map[0 := 0, 1 := 0], [], Data(0));
    var steps := [PutData, StartFence, PutFlag, Deliver(1)];
    var s1 := Apply(c, s, PutData);
    var s2 := Apply(c, s1, StartFence);
    var s3 := Apply(c, s2, PutFlag);
    var s4 := Apply(c, s3, Deliver(1));
    assert steps[1..] == [StartFence, PutFlag, Deliver(1)];
    assert steps[1..][1..] == [PutFlag, Deliver(1)];
    assert steps[1..][1..][1..] == [Deliver(1)];
    assert steps[1..][1..][1..][1..] == [];
    assert IsRun(c, s4, []) && After(c, s4, []) == s4;
    assert IsRun(c, s3, [Deliver(1)]) && After(c, s3, [Deliver(1)]) == s4;
    assert IsRun(c, s2, [PutFlag, Deliver(1)]) && After(c, s2, [PutFlag, Deliver(1)]) == s4;
    assert IsRun(c, s1, steps[1..]) && After(c, s1, steps[1..]) == s4;
  }
}

/** The queueing mutexes of src/mutex_hdl_queue.c in a run of n processes.

    Every step is one exclusive epoch, one send or one receive.  A message carries a destination
    and a tag; the tag names the mutex number and not the home process, so a message also records,
    unseen by the protocol, which mutex it was sent for. */
module QueueProtocol {
  import opened LockSpec
  import opened Options
  import opened QueueMutex

  datatype Mutex = Mutex(num: nat, home: nat)

  /** What a process is doing inside the library, and which mutexes it holds. */
  datatype Activity = Idle | Waiting(m: Mutex) | Releasing(m: Mutex, buf: seq<byte>)

  datatype Process = Process(held: set<Mutex>, act: Activity)

  datatype Message = Message(dest: nat, tag: nat, sentFor: Mutex)

  datatype State = State(bytes: map<Mutex, seq<byte>>, procs: seq<Process>, msgs: seq<Message>)

  datatype Step =
    | Lock(p: nat, m: Mutex)       // the epoch of ARMCIX_Lock_hdl
    | Receive(p: nat, k: nat)      // its receive, matching message number k
    | Unlock(p: nat, m: Mutex)     // the epoch of ARMCIX_Unlock_hdl
    | Notify(p: nat)               // its scan and send

  /** A process has one call at a time, and only unlocks what it holds. */
  ghost predicate Enabled(s: State, step: Step) {
    && step.p < |s.procs|
    && match step
       case Lock(p, m) => m in s.bytes && p < |s.bytes[m]| && s.procs[p].act.Idle? && m !in s.procs[p].held
       case Receive(p, k) =>
         && s.procs[p].act.Waiting? && k < |s.msgs|
         && s.msgs[k].dest == p && s.msgs[k].tag == MUTEX_TAG + s.procs[p].act.m.num
       case Unlock(p, m) => m in s.bytes && p < |s.bytes[m]| && s.procs[p].act.Idle? && m in s.procs[p].held
       case Notify(p) => s.procs[p].act.Releasing?
  }

  /** What process p sends after the epoch of its unlock. */
  ghost function Notification(buf: seq<byte>, p: nat, m: Mutex): seq<Message> {
    match NextWaiter(buf, p)
    case None => []
    case Some(t) => [Message(t, MUTEX_TAG + m.num, m)]
  }

  ghost function Apply(s: State, step: Step): State
    requires Enabled(s, step)
  {
    var p := step.p;
    var pr := s.procs[p];
    match step
    case Lock(_, m) =>
      var vec := s.bytes[m][p := 1];
      var pr' := if OthersSet(vec, p) then pr.(act := Waiting(m)) else pr.(held := pr.held + {m});
      State(s.bytes[m := vec], s.procs[p := pr'], s.msgs)
    case Receive(_, k) =>
      State(s.bytes, s.procs[p := Process(pr.held + {pr.act.m}, Idle)], s.msgs[..k] + s.msgs[k + 1..])
    case Unlock(_, m) =>
      var vec := s.bytes[m][p := 0];
      State(s.bytes[m := vec], s.procs[p := Process(pr.held - {m}, Releasing(m, vec))], s.msgs)
    case Notify(_) =>
      State(s.bytes, s.procs[p := pr.(act := Idle)], s.msgs + Notification(pr.act.buf, p, pr.act.m))
  }

  ghost predicate Init(s: State) {
    && |s.procs| > 0 && s.msgs == []
    && (forall p :: 0 <= p < |s.procs| ==> s.procs[p] == Process({}, Idle))
    && (forall m | m in s.bytes :: |s.bytes[m]| == |s.procs| && forall i :: 0 <= i < |s.procs| ==> s.bytes[m][i] == 0)
  }

  /** steps can be taken one after the other from s. */
  ghost predicate IsRun(s: State, steps: seq<Step>)
    decreases |steps|
  {
    steps != [] ==> Enabled(s, steps[0]) && IsRun(Apply(s, steps[0]), steps[1..])
  }

  ghost function After(s: State, steps: seq<Step>): State
    requires IsRun(s, steps)
    decreases |steps|
  {
    if steps == [] then s else After(Apply(s, steps[0]), steps[1..])
  }

  // ----- The invariant: one token per mutex in use

  /** Messages in flight for m. */
  ghost function InFlight(msgs: seq<Message>, m: Mutex): seq<Message> {
    if msgs == [] then []
    else (if msgs[0].sentFor == m then [msgs[0]] else []) + InFlight(msgs[1..], m)
  }

  /** Process number p, in local state pr, has given m up and is about to notify some process. */
  ghost predicate Passes(pr: Process, p: nat, m: Mutex) {
    pr.act.Releasing? && pr.act.m == m && NextWaiter(pr.act.buf, p).Some?
  }

  datatype Token = Nowhere | HeldBy(p: nat) | FlyingTo(to: nat) | PassedBy(p: nat, to: nat)

  /** What process number p knows of mutex m and its byte there, given where m's token is. */
  ghost predicate Agrees(pr: Process, p: nat, b: byte, m: Mutex, tok: Token) {
    && b == (if m in pr.held || pr.act == Waiting(m) then 1 else 0)
    && (m in pr.held <==> tok == HeldBy(p))
    && (Passes(pr, p, m) <==> tok.PassedBy? && tok.p == p)
    && (tok == HeldBy(p) ==> pr.act != Waiting(m))
    && (tok == FlyingTo(p) ==> pr.act == Waiting(m))
    && (tok.PassedBy? && tok.to == p ==> pr.act == Waiting(m))
    && (tok.PassedBy? && tok.p == p ==> NextWaiter(pr.act.buf, p) == Some(tok.to))
    && (tok.Nowhere? ==> b == 0)
  }

  /** The whole state of mutex m, given where its token is. */
  ghost predicate TokenAt(s: State, m: Mutex, tok: Token)
    requires m in s.bytes
  {
    && |s.bytes[m]| == |s.procs|
    && (forall p :: 0 <= p < |s.procs| ==> Agrees(s.procs[p], p, s.bytes[m][p], m, tok))
    && InFlight(s.msgs, m) == (if tok.FlyingTo? then [Message(tok.to, MUTEX_TAG + m.num, m)] else [])
    && (tok.HeldBy? || tok.PassedBy? ==> tok.p < |s.procs|)
    && (tok.FlyingTo? || tok.PassedBy? ==> tok.to < |s.procs|)
  }

  ghost predicate Tokens(s: State, toks: map<Mutex, Token>) {
    toks.Keys == s.bytes.Keys && forall m | m in s.bytes :: TokenAt(s, m, toks[m])
  }

  /** Processes and messages only speak of mutexes that exist. */
  ghost predicate Scoped(s: State) {
    && (forall k :: 0 <= k < |s.msgs| ==> s.msgs[k].sentFor in s.bytes)
    && (forall p :: 0 <= p < |s.procs| ==>
         && s.procs[p].held <= s.bytes.Keys
         && (s.procs[p].act.Waiting? ==> s.procs[p].act.m in s.bytes)
         && (s.procs[p].act.Releasing? ==> s.procs[p].act.m in s.bytes))
  }

  ghost predicate Invariant(s: State, toks: map<Mutex, Token>) { Tokens(s, toks) && Scoped(s) }

  lemma {:induction false} InFlightConcat(a: seq<Message>, b: seq<Message>, m: Mutex)
    ensures InFlight(a + b, m) == InFlight(a, m) + InFlight(b, m)
  {
    if a == [] {
      assert a + b == b;
    } else {
      assert (a + b)[1..] == a[1..] + b;
      InFlightConcat(a[1..], b, m);
    }
  }

  lemma {:induction false} InFlightRemove(msgs: seq<Message>, k: nat, m: Mutex)
    requires k < |msgs|
    ensures var rest := msgs[..k] + msgs[k + 1..];
      && (msgs[k].sentFor != m ==> InFlight(rest, m) == InFlight(msgs, m))
      && (msgs[k].sentFor == m && |InFlight(msgs, m)| == 1 ==>
            InFlight(msgs, m) == [msgs[k]] && InFlight(rest, m) == [])
      && (msgs[k].sentFor == m ==> InFlight(msgs, m) != [])
  {
    assert msgs == msgs[..k] + ([msgs[k]] + msgs[k + 1..]);
    InFlightConcat(msgs[..k], [msgs[k]] + msgs[k + 1..], m);
    InFlightConcat([msgs[k]], msgs[k + 1..], m);
    InFlightConcat(msgs[..k], msgs[k + 1..], m);
    assert InFlight([msgs[k]], m) == if msgs[k].sentFor == m then [msgs[k]] else [];
  }

  /** A message matched by a waiting process was sent for the mutex it waits for, although the
      match only looks at the destination and the mutex number. */
  lemma {:induction false} ReceiveMatches(s: State, toks: map<Mutex, Token>, p: nat, k: nat)
    requires Invariant(s, toks) && Enabled(s, Receive(p, k))
    ensures s.msgs[k].sentFor == s.procs[p].act.m
    ensures toks[s.procs[p].act.m] == FlyingTo(p)
  {
    var m := s.msgs[k].sentFor;
    InFlightRemove(s.msgs, k, m);
    assert TokenAt(s, m, toks[m]);
  }

  lemma {:induction false} InitialInvariant(s: State)
    requires Init(s)
    ensures Invariant(s, map m | m in s.bytes :: Nowhere)
  {
  }

  /** s' differs from s in process p only, and not in what p knows of m. */
  ghost predicate Unconcerned(s: State, s': State, p: nat, m: Mutex)
    requires m in s.bytes && m in s'.bytes && p < |s.procs|
  {
    && s'.bytes[m] == s.bytes[m] && InFlight(s'.msgs, m) == InFlight(s.msgs, m)
    && |s'.procs| == |s.procs| && s'.procs == s.procs[p := s'.procs[p]]
    && (m in s'.procs[p].held <==> m in s.procs[p].held)
    && (s'.procs[p].act == Waiting(m) <==> s.procs[p].act == Waiting(m))
    && !Passes(s.procs[p], p, m) && !Passes(s'.procs[p], p, m)
  }

  ghost predicate OnlyConcerns(s: State, s': State, p: nat, m: Mutex)
    requires s'.bytes.Keys == s.bytes.Keys && p < |s.procs|
  {
    forall m' | m' in s.bytes && m' != m :: Unconcerned(s, s', p, m')
  }

  lemma {:induction false} OtherMutex(s: State, s': State, p: nat, m: Mutex, tok: Token)
    requires m in s.bytes && m in s'.bytes && TokenAt(s, m, tok) && p < |s.procs| && Unconcerned(s, s', p, m)
    ensures TokenAt(s', m, tok)
  {
    forall q | 0 <= q < |s.procs| ensures Agrees(s'.procs[q], q, s'.bytes[m][q], m, tok) {
      assert Agrees(s.procs[q], q, s.bytes[m][q], m, tok);
    }
  }

  /** All tokens but m's stay, m's moves to tok. */
  lemma {:induction false} TokensMove(s: State, s': State, toks: map<Mutex, Token>, p: nat, m: Mutex, tok: Token)
    requires Tokens(s, toks) && m in s.bytes && s'.bytes.Keys == s.bytes.Keys && p < |s.procs|
    requires TokenAt(s', m, tok)
    requires OnlyConcerns(s, s', p, m)
    ensures Tokens(s', toks[m := tok])
  {
    var toks' := toks[m := tok];
    assert toks'.Keys == s'.bytes.Keys;
    forall m' | m' in s'.bytes ensures TokenAt(s', m', toks'[m']) { TokenAfter(s, s', toks, p, m, tok, m'); }
  }

  lemma {:induction false} TokenAfter(s: State, s': State, toks: map<Mutex, Token>, p: nat, m: Mutex, tok: Token,
                                      m': Mutex)
    requires Tokens(s, toks) && m in s.bytes && s'.bytes.Keys == s.bytes.Keys && p < |s.procs|
    requires TokenAt(s', m, tok) && OnlyConcerns(s, s', p, m) && m' in s'.bytes
    ensures TokenAt(s', m', toks[m := tok][m'])
  {
    if m' != m {
      assert TokenAt(s, m', toks[m']);
      OtherMutex(s, s', p, m', toks[m']);
    }
  }

  ghost function AfterLock(s: State, p: nat, m: Mutex, tok: Token): Token
    requires Enabled(s, Lock(p, m))
  {
    if OthersSet(s.bytes[m][p := 1], p) then tok else HeldBy(p)
  }

  lemma {:induction false} LockLocal(s: State, p: nat, m: Mutex)
    requires Enabled(s, Lock(p, m))
    ensures Apply(s, Lock(p, m)).bytes.Keys == s.bytes.Keys && OnlyConcerns(s, Apply(s, Lock(p, m)), p, m)
  {
  }

  lemma {:induction false} LockKeeps(s: State, toks: map<Mutex, Token>, p: nat, m: Mutex)
    requires Tokens(s, toks) && Enabled(s, Lock(p, m))
    ensures Tokens(Apply(s, Lock(p, m)), toks[m := AfterLock(s, p, m, toks[m])])
  {
    LockOwn(s, p, m, toks[m]);
    LockLocal(s, p, m);
    TokensMove(s, Apply(s, Lock(p, m)), toks, p, m, AfterLock(s, p, m, toks[m]));
  }

  lemma {:induction false} LockOwn(s: State, p: nat, m: Mutex, tok: Token)
    requires Enabled(s, Lock(p, m)) && TokenAt(s, m, tok)
    ensures TokenAt(Apply(s, Lock(p, m)), m, AfterLock(s, p, m, tok))
  {
    var s', vec := Apply(s, Lock(p, m)), s.bytes[m][p := 1];
    var tok' := if OthersSet(vec, p) then tok else HeldBy(p);
    assert Agrees(s.procs[p], p, s.bytes[m][p], m, tok);
    if tok.FlyingTo? || tok.PassedBy? {
      assert Agrees(s.procs[tok.to], tok.to, s.bytes[m][tok.to], m, tok);
      assert vec[tok.to] != 0 && tok.to != p;
    }
    forall q | 0 <= q < |s.procs| ensures Agrees(s'.procs[q], q, s'.bytes[m][q], m, tok') {
      assert Agrees(s.procs[q], q, s.bytes[m][q], m, tok);
      assert q != p ==> vec[q] == s.bytes[m][q];
      if OthersSet(vec, p) {
        var o :| 0 <= o < |vec| && o != p && vec[o] != 0;
        assert Agrees(s.procs[o], o, s.bytes[m][o], m, tok);
      }
    }
  }

  lemma {:induction false} ReceiveLocal(s: State, p: nat, k: nat, m: Mutex)
    requires Enabled(s, Receive(p, k)) && s.procs[p].act == Waiting(m) && s.msgs[k].sentFor == m
    ensures OnlyConcerns(s, Apply(s, Receive(p, k)), p, m)
  {
    forall m' | m' in s.bytes && m' != m ensures Unconcerned(s, Apply(s, Receive(p, k)), p, m') {
      InFlightRemove(s.msgs, k, m');
    }
  }

  lemma {:induction false} ReceiveOwn(s: State, p: nat, k: nat, m: Mutex)
    requires Enabled(s, Receive(p, k)) && s.procs[p].act == Waiting(m) && s.msgs[k].sentFor == m
    requires m in s.bytes && TokenAt(s, m, FlyingTo(p))
    ensures TokenAt(Apply(s, Receive(p, k)), m, HeldBy(p))
  {
    InFlightRemove(s.msgs, k, m);
    var s' := Apply(s, Receive(p, k));
    forall q | 0 <= q < |s.procs| ensures Agrees(s'.procs[q], q, s'.bytes[m][q], m, HeldBy(p)) {
      assert Agrees(s.procs[q], q, s.bytes[m][q], m, FlyingTo(p));
    }
  }

  lemma {:induction false} ReceiveKeeps(s: State, toks: map<Mutex, Token>, p: nat, k: nat)
    requires Invariant(s, toks) && Enabled(s, Receive(p, k))
    ensures s.procs[p].act.m in s.bytes && Tokens(Apply(s, Receive(p, k)), toks[s.procs[p].act.m := HeldBy(p)])
  {
    var m := s.procs[p].act.m;
    ReceiveMatches(s, toks, p, k);
    ReceiveOwn(s, p, k, m);
    ReceiveLocal(s, p, k, m);
    TokensMove(s, Apply(s, Receive(p, k)), toks, p, m, HeldBy(p));
  }

  ghost function AfterUnlock(s: State, p: nat, m: Mutex): Token
    requires Enabled(s, Unlock(p, m))
  {
    match NextWaiter(s.bytes[m][p := 0], p)
    case None => Nowhere
    case Some(t) => PassedBy(p, t)
  }

  lemma {:induction false} UnlockLocal(s: State, p: nat, m: Mutex)
    requires Enabled(s, Unlock(p, m))
    ensures Apply(s, Unlock(p, m)).bytes.Keys == s.bytes.Keys && OnlyConcerns(s, Apply(s, Unlock(p, m)), p, m)
  {
  }

  lemma {:induction false} UnlockOwn(s: State, p: nat, m: Mutex, tok: Token)
    requires Enabled(s, Unlock(p, m)) && TokenAt(s, m, tok)
    ensures tok == HeldBy(p) && TokenAt(Apply(s, Unlock(p, m)), m, AfterUnlock(s, p, m))
  {
    var s', vec, tok' := Apply(s, Unlock(p, m)), s.bytes[m][p := 0], AfterUnlock(s, p, m);
    assert Agrees(s.procs[p], p, s.bytes[m][p], m, tok);
    NextWaiterIsNearest(vec, p);
    forall q | 0 <= q < |s.procs| ensures Agrees(s'.procs[q], q, s'.bytes[m][q], m, tok') {
      assert Agrees(s.procs[q], q, s.bytes[m][q], m, tok);
      assert q != p ==> vec[q] == s.bytes[m][q];
    }
  }

  lemma {:induction false} UnlockKeeps(s: State, toks: map<Mutex, Token>, p: nat, m: Mutex)
    requires Tokens(s, toks) && Enabled(s, Unlock(p, m))
    ensures Tokens(Apply(s, Unlock(p, m)), toks[m := AfterUnlock(s, p, m)])
  {
    UnlockOwn(s, p, m, toks[m]);
    UnlockLocal(s, p, m);
    TokensMove(s, Apply(s, Unlock(p, m)), toks, p, m, AfterUnlock(s, p, m));
  }

  ghost function AfterNotify(tok: Token, p: nat): Token {
    if tok.PassedBy? && tok.p == p then FlyingTo(tok.to) else tok
  }

  lemma {:induction false} NotifyLocal(s: State, p: nat)
    requires Enabled(s, Notify(p))
    ensures OnlyConcerns(s, Apply(s, Notify(p)), p, s.procs[p].act.m)
  {
    var s', m := Apply(s, Notify(p)), s.procs[p].act.m;
    forall m' | m' in s.bytes && m' != m ensures Unconcerned(s, s', p, m') {
      InFlightConcat(s.msgs, Notification(s.procs[p].act.buf, p, m), m');
    }
  }

  lemma {:induction false} NotifyOwn(s: State, p: nat, m: Mutex, tok: Token)
    requires Enabled(s, Notify(p)) && s.procs[p].act.m == m && m in s.bytes && TokenAt(s, m, tok)
    ensures TokenAt(Apply(s, Notify(p)), m, AfterNotify(tok, p))
  {
    var s', tok' := Apply(s, Notify(p)), AfterNotify(tok, p);
    assert Agrees(s.procs[p], p, s.bytes[m][p], m, tok);
    var out := Notification(s.procs[p].act.buf, p, m);
    InFlightConcat(s.msgs, out, m);
    assert InFlight(out, m) == out;
    assert InFlight(s'.msgs, m) == InFlight(s.msgs, m) + out;
    forall q | 0 <= q < |s.procs| ensures Agrees(s'.procs[q], q, s'.bytes[m][q], m, tok') {
      assert Agrees(s.procs[q], q, s.bytes[m][q], m, tok);
    }
  }

  lemma {:induction false} NotifyKeeps(s: State, toks: map<Mutex, Token>, p: nat)
    requires Invariant(s, toks) && Enabled(s, Notify(p))
    ensures s.procs[p].act.m in toks
    ensures Tokens(Apply(s, Notify(p)), toks[s.procs[p].act.m := AfterNotify(toks[s.procs[p].act.m], p)])
  {
    var m := s.procs[p].act.m;
    NotifyOwn(s, p, m, toks[m]);
    NotifyLocal(s, p);
    TokensMove(s, Apply(s, Notify(p)), toks, p, m, AfterNotify(toks[m], p));
  }

  lemma {:induction false} ScopedKeeps(s: State, step: Step)
    requires Scoped(s) && Enabled(s, step)
    ensures Scoped(Apply(s, step))
  {
    var s' := Apply(s, step);
    forall k | 0 <= k < |s'.msgs| ensures s'.msgs[k].sentFor in s'.bytes {
      if step.Receive? { assert s'.msgs[k] == if k < step.k then s.msgs[k] else s.msgs[k + 1]; }
    }
    forall p | 0 <= p < |s'.procs|
      ensures (s'.procs[p].act.Waiting? ==> s'.procs[p].act.m in s'.bytes)
           && (s'.procs[p].act.Releasing? ==> s'.procs[p].act.m in s'.bytes)
    {
      assert p != step.p ==> s'.procs[p] == s.procs[p];
    }
  }

  /** Where the tokens are after a step. */
  ghost function NextTokens(s: State, toks: map<Mutex, Token>, step: Step): map<Mutex, Token>
    requires Enabled(s, step) && toks.Keys == s.bytes.Keys && Scoped(s)
  {
    match step
    case Lock(p, m) => toks[m := AfterLock(s, p, m, toks[m])]
    case Receive(p, _) => toks[s.procs[p].act.m := HeldBy(p)]
    case Unlock(p, m) => toks[m := AfterUnlock(s, p, m)]
    case Notify(p) => toks[s.procs[p].act.m := AfterNotify(toks[s.procs[p].act.m], p)]
  }

  /** Where the token of m is after a step, given where it was. */
  ghost function NextToken(s: State, tok: Token, step: Step, m: Mutex): Token
    requires Enabled(s, step)
  {
    match step
    case Lock(p, m') => if m' == m then AfterLock(s, p, m, tok) else tok
    case Receive(p, _) => if s.procs[p].act.m == m then HeldBy(p) else tok
    case Unlock(p, m') => if m' == m then AfterUnlock(s, p, m) else tok
    case Notify(p) => if s.procs[p].act.m == m then AfterNotify(tok, p) else tok
  }

  lemma {:induction false} NextTokenOf(s: State, toks: map<Mutex, Token>, step: Step, m: Mutex)
    requires Enabled(s, step) && toks.Keys == s.bytes.Keys && Scoped(s) && m in toks
    ensures NextTokens(s, toks, step)[m] == NextToken(s, toks[m], step, m)
  {
  }

  lemma {:induction false} StepKeeps(s: State, toks: map<Mutex, Token>, step: Step)
    requires Invariant(s, toks) && Enabled(s, step)
    ensures Invariant(Apply(s, step), NextTokens(s, toks, step))
  {
    ScopedKeeps(s, step);
    match step
    case Lock(p, m) => LockKeeps(s, toks, p, m);
    case Receive(p, k) => ReceiveKeeps(s, toks, p, k);
    case Unlock(p, m) => UnlockKeeps(s, toks, p, m);
    case Notify(p) => NotifyKeeps(s, toks, p);
  }

  lemma {:induction false} RunKeeps(s: State, toks: map<Mutex, Token>, steps: seq<Step>)
    returns (toks': map<Mutex, Token>)
    requires Invariant(s, toks) && IsRun(s, steps)
    ensures Invariant(After(s, steps), toks')
    decreases |steps|
  {
    if steps == [] {
      toks' := toks;
    } else {
      StepKeeps(s, toks, steps[0]);
      toks' := RunKeeps(Apply(s, steps[0]), NextTokens(s, toks, steps[0]), steps[1..]);
    }
  }

  ghost predicate Reachable(s: State) {
    exists s0, steps :: Init(s0) && IsRun(s0, steps) && After(s0, steps) == s
  }

  lemma {:induction false} ReachableInvariant(s: State) returns (toks: map<Mutex, Token>)
    requires Reachable(s)
    ensures Invariant(s, toks)
  {
    var s0, steps :| Init(s0) && IsRun(s0, steps) && After(s0, steps) == s;
    InitialInvariant(s0);
    toks := RunKeeps(s0, map m | m in s0.bytes :: Nowhere, steps);
  }

  // ----- What every reachable state satisfies

  ghost function Holders(s: State, m: Mutex): set<nat> {
    set p: nat | p < |s.procs| && m in s.procs[p].held
  }

  ghost function Passers(s: State, m: Mutex): set<nat> {
    set p: nat | p < |s.procs| && Passes(s.procs[p], p, m)
  }

  ghost predicate AnySet(s: State, m: Mutex)
    requires m in s.bytes
  {
    exists i :: 0 <= i < |s.bytes[m]| && s.bytes[m][i] != 0
  }

  lemma {:induction false} TokenSets(s: State, m: Mutex, tok: Token)
    requires m in s.bytes && TokenAt(s, m, tok)
    ensures Holders(s, m) == if tok.HeldBy? then {tok.p} else {}
    ensures Passers(s, m) == if tok.PassedBy? then {tok.p} else {}
  {
    forall p: nat | p < |s.procs|
      ensures p in Holders(s, m) <==> tok == HeldBy(p)
      ensures p in Passers(s, m) <==> tok.PassedBy? && tok.p == p
    {
      assert Agrees(s.procs[p], p, s.bytes[m][p], m, tok);
    }
  }

  lemma {:induction false} TokenBytes(s: State, m: Mutex, tok: Token)
    requires m in s.bytes && TokenAt(s, m, tok)
    ensures AnySet(s, m) <==> !tok.Nowhere?
  {
    if tok.Nowhere? {
      forall p | 0 <= p < |s.procs| ensures s.bytes[m][p] == 0 {
        assert Agrees(s.procs[p], p, s.bytes[m][p], m, tok);
      }
    } else {
      var p := if tok.HeldBy? then tok.p else tok.to;
      assert Agrees(s.procs[p], p, s.bytes[m][p], m, tok);
      assert s.bytes[m][p] != 0;
    }
  }

  /** Holders, notifications in flight and releasers about to notify add up to one if any byte is
      set, and to none otherwise. */
  lemma {:induction false} OneToken(s: State, m: Mutex)
    requires Reachable(s) && m in s.bytes
    ensures |Holders(s, m)| + |InFlight(s.msgs, m)| + |Passers(s, m)| == if AnySet(s, m) then 1 else 0
  {
    var toks := ReachableInvariant(s);
    TokenSets(s, m, toks[m]);
    TokenBytes(s, m, toks[m]);
  }

  /** A step by which m comes nearer to its waiting processes, and who takes it: the receive of a
      notification sent for m, the send of one, or the holder's unlock. */
  ghost predicate Serves(s: State, step: Step, m: Mutex) {
    && step.p < |s.procs|
    && match step
       case Lock(_, _) => false
       case Receive(p, k) => k < |s.msgs| && s.msgs[k].sentFor == m && s.procs[p].act == Waiting(m)
       case Unlock(p, m') => m' == m && m in s.procs[p].held
       case Notify(p) => s.procs[p].act.Releasing? && s.procs[p].act.m == m
  }

  /** Some step serves m and can be taken now, unless it is the unlock of a holder that is itself inside
      a call. */
  ghost predicate Served(s: State, m: Mutex) {
    exists step :: Serves(s, step, m) && (Enabled(s, step) || (step.Unlock? && !s.procs[step.p].act.Idle?))
  }

  /** No two processes hold the mutex. A process that waits is never left behind: the notification under
      way can be received by its addressee, or a releaser can send one, or there is a holder, which can
      unlock unless it is inside a call. */
  lemma {:induction false} ExclusionAndNoLostWakeup(s: State, m: Mutex, q: nat)
    requires Reachable(s) && m in s.bytes && q < |s.procs|
    ensures forall p: nat :: p < |s.procs| && m in s.procs[p].held && m in s.procs[q].held ==> p == q
    ensures s.procs[q].act == Waiting(m) ==>
              Holders(s, m) != {} || InFlight(s.msgs, m) != [] || Passers(s, m) != {}
    ensures s.procs[q].act == Waiting(m) ==> Served(s, m)
  {
    var toks := ReachableInvariant(s);
    TokenExcludes(s, m, toks[m], q);
    if s.procs[q].act == Waiting(m) {
      TokenWaits(s, m, toks[m], q);
      TokenServes(s, m, toks[m], q);
    }
  }

  lemma {:induction false} TokenExcludes(s: State, m: Mutex, tok: Token, q: nat)
    requires m in s.bytes && TokenAt(s, m, tok) && q < |s.procs|
    ensures forall p: nat :: p < |s.procs| && m in s.procs[p].held && m in s.procs[q].held ==> p == q
  {
    assert Agrees(s.procs[q], q, s.bytes[m][q], m, tok);
    forall p: nat | p < |s.procs| && m in s.procs[p].held ensures tok == HeldBy(p) {
      assert Agrees(s.procs[p], p, s.bytes[m][p], m, tok);
    }
  }

  lemma {:induction false} TokenWaits(s: State, m: Mutex, tok: Token, q: nat)
    requires m in s.bytes && TokenAt(s, m, tok) && q < |s.procs| && s.procs[q].act == Waiting(m)
    ensures Holders(s, m) != {} || InFlight(s.msgs, m) != [] || Passers(s, m) != {}
  {
    TokenSets(s, m, tok);
    assert Agrees(s.procs[q], q, s.bytes[m][q], m, tok);
    if tok.HeldBy? { assert tok.p in Holders(s, m); }
    if tok.PassedBy? { assert tok.p in Passers(s, m); }
  }

  lemma {:induction false} TokenServes(s: State, m: Mutex, tok: Token, q: nat)
    requires m in s.bytes && TokenAt(s, m, tok) && q < |s.procs| && s.procs[q].act == Waiting(m)
    ensures Served(s, m)
  {
    assert Agrees(s.procs[q], q, s.bytes[m][q], m, tok);
    match tok
    case Nowhere => assert false;
    case HeldBy(p) =>
      assert Agrees(s.procs[p], p, s.bytes[m][p], m, tok);
      assert Serves(s, Unlock(p, m), m);
    case FlyingTo(t) =>
      assert Agrees(s.procs[t], t, s.bytes[m][t], m, tok);
      var k := InFlightFound(s.msgs, m);
      assert Serves(s, Receive(t, k), m) && Enabled(s, Receive(t, k));
    case PassedBy(p, _) =>
      assert Agrees(s.procs[p], p, s.bytes[m][p], m, tok);
      assert Serves(s, Notify(p), m) && Enabled(s, Notify(p));
  }

  /** A message in flight for m is one of the messages. */
  lemma {:induction false} InFlightFound(msgs: seq<Message>, m: Mutex) returns (k: nat)
    requires InFlight(msgs, m) != []
    ensures k < |msgs| && msgs[k] == InFlight(msgs, m)[0] && msgs[k].sentFor == m
  {
    if msgs[0].sentFor == m {
      k := 0;
    } else {
      k := InFlightFound(msgs[1..], m);
      k := k + 1;
    }
  }

  /** A notification is only ever received by a wait on the mutex it was sent for. */
  lemma {:induction false} NotificationsReachTheirMutex(s: State, p: nat, k: nat)
    requires Reachable(s) && Enabled(s, Receive(p, k))
    ensures s.msgs[k].sentFor == s.procs[p].act.m
  {
    var toks := ReachableInvariant(s);
    ReceiveMatches(s, toks, p, k);
  }

  /** Mutex m as the abstract lock: who holds it. */
  ghost function AsLock(s: State, m: Mutex): LockSpec.Lock {
    if Holders(s, m) == {} then Free else var p :| p in Holders(s, m); LockSpec.Held(p)
  }

  lemma {:induction false} AsLockToken(s: State, m: Mutex, tok: Token)
    requires m in s.bytes && TokenAt(s, m, tok)
    ensures AsLock(s, m) == if tok.HeldBy? then LockSpec.Held(tok.p) else Free
  {
    TokenSets(s, m, tok);
  }

  /** Only a mutex without a token is acquired at once. */
  lemma {:induction false} LockFree(s: State, p: nat, m: Mutex, tok: Token)
    requires Enabled(s, Lock(p, m)) && TokenAt(s, m, tok)
    ensures !tok.Nowhere? ==> OthersSet(s.bytes[m][p := 1], p)
  {
    var vec := s.bytes[m][p := 1];
    assert Agrees(s.procs[p], p, s.bytes[m][p], m, tok);
    if !tok.Nowhere? {
      var q := if tok.HeldBy? then tok.p else tok.to;
      assert Agrees(s.procs[q], q, s.bytes[m][q], m, tok);
      assert q != p && vec[q] != 0;
    }
  }

  ghost function TokenLock(tok: Token): LockSpec.Lock { if tok.HeldBy? then LockSpec.Held(tok.p) else Free }

  /** What a receive by p means for the token of the mutex p waits for. */
  ghost predicate Sound(s: State, tok: Token, step: Step, m: Mutex)
    requires Enabled(s, step)
  {
    step.Receive? && s.procs[step.p].act.m == m ==> tok == FlyingTo(step.p)
  }

  lemma {:induction false} StepIsSound(s: State, toks: map<Mutex, Token>, step: Step, m: Mutex)
    requires Invariant(s, toks) && Enabled(s, step) && m in s.bytes
    ensures Sound(s, toks[m], step, m) && TokenAt(s, m, toks[m])
    ensures NextTokens(s, toks, step)[m] == NextToken(s, toks[m], step, m)
  {
    if step.Receive? { ReceiveMatches(s, toks, step.p, step.k); }
    NextTokenOf(s, toks, step, m);
  }

  lemma {:induction false} TokenRefinesLock(s: State, tok: Token, step: Step, m: Mutex)
    requires Enabled(s, step) && m in s.bytes && TokenAt(s, m, tok) && Sound(s, tok, step, m)
    ensures LockSpec.Next(TokenLock(tok), TokenLock(NextToken(s, tok, step, m)), step.p)
  {
    match step
    case Lock(p, m') => if m' == m { LockFree(s, p, m, tok); }
    case Receive(p, k) =>
    case Unlock(p, m') => if m' == m { UnlockOwn(s, p, m, tok); }
    case Notify(p) =>
  }

  /** Every mutex behaves as the abstract lock: it is only acquired while free, by the process
      that takes the step, and only released by its holder. */
  lemma {:induction false} RefinesLock(s: State, step: Step, m: Mutex)
    requires Reachable(s) && Enabled(s, step) && m in s.bytes
    ensures LockSpec.Next(AsLock(s, m), AsLock(Apply(s, step), m), step.p)
  {
    var toks := ReachableInvariant(s);
    AsLockToken(s, m, toks[m]);
    StepIsSound(s, toks, step, m);
    TokenRefinesLock(s, toks[m], step, m);
    StepKeeps(s, toks, step);
    AsLockToken(Apply(s, step), m, NextTokens(s, toks, step)[m]);
  }

  // ----- What a call can do, and what it leaves behind

  lemma {:induction false} RunsConcat(s: State, a: seq<Step>, b: seq<Step>)
    requires IsRun(s, a) && IsRun(After(s, a), b)
    ensures IsRun(s, a + b) && After(s, a + b) == After(After(s, a), b)
    decreases |a|
  {
    if a == [] {
      assert a + b == b;
    } else {
      RunsConcat(Apply(s, a[0]), a[1..], b);
      assert (a + b)[0] == a[0] && (a + b)[1..] == a[1..] + b;
    }
  }

  lemma {:induction false} OneStep(s: State, step: Step)
    requires Enabled(s, step)
    ensures IsRun(s, [step]) && After(s, [step]) == Apply(s, step)
  {
    var t := Apply(s, step);
    assert [step][1..] == [] && IsRun(t, []) && After(t, []) == t;
  }

  lemma {:induction false} TwoSteps(s: State, a: Step, b: Step)
    requires Enabled(s, a) && Enabled(Apply(s, a), b)
    ensures IsRun(s, [a, b]) && After(s, [a, b]) == Apply(Apply(s, a), b)
  {
    OneStep(s, a);
    OneStep(Apply(s, a), b);
    RunsConcat(s, [a], [b]);
    assert [a] + [b] == [a, b];
  }

  lemma {:induction false} ReachableStep(s: State, step: Step)
    requires Reachable(s) && Enabled(s, step)
    ensures Reachable(Apply(s, step))
  {
    var s0, steps :| Init(s0) && IsRun(s0, steps) && After(s0, steps) == s;
    OneStep(s, step);
    RunsConcat(s0, steps, [step]);
    assert After(s0, steps + [step]) == Apply(s, step);
  }

  /** Process q has set its byte for m: it holds m, or waits for it. */
  ghost predicate Wants(s: State, q: nat, m: Mutex)
    requires q < |s.procs|
  {
    m in s.procs[q].held || s.procs[q].act == Waiting(m)
  }

  ghost predicate NobodyElse(s: State, p: nat, m: Mutex) {
    forall q :: 0 <= q < |s.procs| && q != p ==> !Wants(s, q, m)
  }

  /** The bytes say who holds a mutex or waits for it. */
  lemma {:induction false} BytesTell(s: State, m: Mutex)
    requires Reachable(s) && m in s.bytes
    ensures |s.bytes[m]| == |s.procs|
    ensures forall q :: 0 <= q < |s.procs| ==> s.bytes[m][q] == if Wants(s, q, m) then 1 else 0
  {
    var toks := ReachableInvariant(s);
    forall q | 0 <= q < |s.procs| ensures s.bytes[m][q] == if Wants(s, q, m) then 1 else 0 {
      assert Agrees(s.procs[q], q, s.bytes[m][q], m, toks[m]);
    }
  }

  /** What is held exists. */
  lemma {:induction false} ReachableHeld(s: State, p: nat, m: Mutex)
    requires Reachable(s) && p < |s.procs| && m in s.procs[p].held
    ensures m in s.bytes
  {
    var toks := ReachableInvariant(s);
    assert s.procs[p].held <= s.bytes.Keys;
  }

  /** Whatever else it holds, a process outside the library can ask for any mutex it does not hold. Its byte
      is set; it is the holder at once if and only if no other byte was, that is, nobody else holds the mutex
      or waits for it, and it waits otherwise. Nothing else changes. */
  lemma {:induction false} LockTakes(s: State, p: nat, m: Mutex)
    requires Reachable(s) && p < |s.procs| && s.procs[p].act.Idle? && m in s.bytes && m !in s.procs[p].held
    ensures Enabled(s, Lock(p, m)) && Reachable(Apply(s, Lock(p, m))) && |s.bytes[m]| == |s.procs|
    ensures var t := Apply(s, Lock(p, m));
      && t.bytes == s.bytes[m := s.bytes[m][p := 1]] && t.msgs == s.msgs
      && t.procs == s.procs[p := t.procs[p]]
      && (m in t.procs[p].held <==> forall q :: 0 <= q < |s.procs| && q != p ==> s.bytes[m][q] == 0)
      && (m in t.procs[p].held <==> NobodyElse(s, p, m))
      && t.procs[p] == (if m in t.procs[p].held then Process(s.procs[p].held + {m}, Idle)
                        else Process(s.procs[p].held, Waiting(m)))
  {
    BytesTell(s, m);
    var step := Lock(p, m);
    ReachableStep(s, step);
    var vec := s.bytes[m][p := 1];
    forall q | 0 <= q < |s.procs| && q != p ensures vec[q] != 0 <==> Wants(s, q, m) {}
  }

  /** The state after process p has unlocked m and has scanned for a process to notify. */
  ghost function Unlocked(s: State, p: nat, m: Mutex, news: seq<Message>): State
    requires p < |s.procs| && m in s.bytes && p < |s.bytes[m]|
  {
    State(s.bytes[m := s.bytes[m][p := 0]], s.procs[p := Process(s.procs[p].held - {m}, Idle)], s.msgs + news)
  }

  lemma {:induction false} UnlockRuns(s: State, p: nat, m: Mutex)
    requires Reachable(s) && p < |s.procs| && s.procs[p].act.Idle? && m in s.procs[p].held
    ensures m in s.bytes && |s.bytes[m]| == |s.procs|
    ensures IsRun(s, [Unlock(p, m), Notify(p)]) && Reachable(After(s, [Unlock(p, m), Notify(p)]))
    ensures var vec := s.bytes[m][p := 0];
            After(s, [Unlock(p, m), Notify(p)]) == Unlocked(s, p, m, Notification(vec, p, m))
  {
    ReachableHeld(s, p, m);
    BytesTell(s, m);
    var s1 := Apply(s, Unlock(p, m));
    ReachableStep(s, Unlock(p, m));
    ReachableStep(s1, Notify(p));
    TwoSteps(s, Unlock(p, m), Notify(p));
    assert Apply(s1, Notify(p)).procs == s.procs[p := Process(s.procs[p].held - {m}, Idle)];
  }

  /** A holder outside the library can unlock. If nobody waits, the mutex is free again and no message is
      sent, so the next process to ask holds it at once. */
  lemma {:induction false} UnlockFrees(s: State, p: nat, m: Mutex)
    requires Reachable(s) && p < |s.procs| && s.procs[p].act.Idle? && m in s.procs[p].held && NobodyElse(s, p, m)
    ensures IsRun(s, [Unlock(p, m), Notify(p)])
    ensures var t := After(s, [Unlock(p, m), Notify(p)]);
            && m in s.bytes && p < |s.bytes[m]| && t == Unlocked(s, p, m, [])
            && m in t.bytes && !AnySet(t, m) && Holders(t, m) == {}
  {
    UnlockRuns(s, p, m);
    BytesTell(s, m);
    var t := After(s, [Unlock(p, m), Notify(p)]);
    NextWaiterIsNearest(s.bytes[m][p := 0], p);
    assert t == Unlocked(s, p, m, []);
    OneToken(t, m);
  }

  /** q waits for m, and nobody who waits comes before q, going round from p. */
  ghost predicate NearestWaiter(s: State, p: nat, q: nat, m: Mutex)
    requires p < |s.procs| && q < |s.procs|
  {
    && s.procs[q].act == Waiting(m)
    && forall r :: 0 <= r < |s.procs| && s.procs[r].act == Waiting(m) ==>
         Distance(p, q, |s.procs|) <= Distance(p, r, |s.procs|)
  }

  lemma {:induction false} DistanceInjective(p: nat, q: nat, r: nat, n: nat)
    requires p < n && q < n && r < n && Distance(p, q, n) == Distance(p, r, n)
    ensures q == r
  {
  }

  lemma {:induction false} NotifiesNearest(s: State, p: nat, q: nat, m: Mutex)
    requires Reachable(s) && m in s.bytes && p < |s.procs| && q < |s.procs| && m in s.procs[p].held
    requires s.procs[p].act.Idle? && NearestWaiter(s, p, q, m)
    ensures |s.bytes[m]| == |s.procs|
    ensures Notification(s.bytes[m][p := 0], p, m) == [Message(q, MUTEX_TAG + m.num, m)]
  {
    BytesTell(s, m);
    ExclusionAndNoLostWakeup(s, m, q);
    var vec := s.bytes[m][p := 0];
    NextWaiterIsNearest(vec, p);
    assert vec[q] == 1;
    var t := NextWaiter(vec, p).value;
    assert s.bytes[m][t] == 1 && Wants(s, t, m);
    TokenOwner(s, p, t, m);
    DistanceInjective(p, q, t, |s.procs|);
  }

  lemma {:induction false} TokenOwner(s: State, p: nat, t: nat, m: Mutex)
    requires Reachable(s) && m in s.bytes && p < |s.procs| && t < |s.procs| && p != t
    requires m in s.procs[p].held && Wants(s, t, m)
    ensures s.procs[t].act == Waiting(m)
  {
    var toks := ReachableInvariant(s);
    assert Agrees(s.procs[p], p, s.bytes[m][p], m, toks[m]);
    assert Agrees(s.procs[t], t, s.bytes[m][t], m, toks[m]);
  }

  /** The hand-over: a holder unlocks and notifies the nearest waiting process, which can receive that
      message and then holds the mutex. */
  lemma {:induction false} HandsOver(s: State, p: nat, q: nat, m: Mutex)
    requires Reachable(s) && p < |s.procs| && q < |s.procs| && s.procs[p].act.Idle? && m in s.procs[p].held
    requires NearestWaiter(s, p, q, m)
    ensures IsRun(s, [Unlock(p, m), Notify(p)]) && m in s.bytes && |s.bytes[m]| == |s.procs| && p != q
    ensures var t := After(s, [Unlock(p, m), Notify(p)]);
            && t == Unlocked(s, p, m, [Message(q, MUTEX_TAG + m.num, m)]) && Enabled(t, Receive(q, |s.msgs|))
            && var u := Apply(t, Receive(q, |s.msgs|));
               && u.procs == t.procs[q := Process(s.procs[q].held + {m}, Idle)] && Holders(u, m) == {q}
               && u.bytes == t.bytes && u.msgs == s.msgs
  {
    UnlockRuns(s, p, m);
    NotifiesNearest(s, p, q, m);
    var t := After(s, [Unlock(p, m), Notify(p)]);
    var u := Apply(t, Receive(q, |s.msgs|));
    ReachableStep(t, Receive(q, |s.msgs|));
    var toks := ReachableInvariant(u);
    TokenSets(u, m, toks[m]);
    assert q in Holders(u, m);
  }

  /** A process that takes two mutexes, one after the other, from the start holds both. */
  lemma {:induction false} HoldsTwo(s: State, p: nat, a: Mutex, b: Mutex)
    requires Init(s) && p < |s.procs| && a in s.bytes && b in s.bytes && a != b
    ensures IsRun(s, [Lock(p, a), Lock(p, b)]) && Reachable(After(s, [Lock(p, a), Lock(p, b)]))
    ensures After(s, [Lock(p, a), Lock(p, b)]).procs == s.procs[p := Process({a, b}, Idle)]
  {
    assert IsRun(s, []) && After(s, []) == s;
    LockTakes(s, p, a);
    var s1 := Apply(s, Lock(p, a));
    assert NobodyElse(s, p, a);
    LockTakes(s1, p, b);
    assert NobodyElse(s1, p, b);
    assert {} + {a} + {b} == {a, b};
    TwoSteps(s, Lock(p, a), Lock(p, b));
  }

  /** Any number of processes can wait at a time: whoever asks for a mutex that another process holds or waits
      for joins those who wait. */
  lemma {:induction false} WaitersJoin(s: State, q: nat, r: nat, m: Mutex)
    requires Reachable(s) && m in s.bytes && q < |s.procs| && r < |s.procs| && q != r
    requires s.procs[q].act.Idle? && s.procs[r].act.Idle? && m !in s.procs[q].held + s.procs[r].held
    requires !NobodyElse(s, q, m)
    ensures IsRun(s, [Lock(q, m), Lock(r, m)]) && Reachable(After(s, [Lock(q, m), Lock(r, m)]))
    ensures After(s, [Lock(q, m), Lock(r, m)]).procs ==
            s.procs[q := s.procs[q].(act := Waiting(m))][r := s.procs[r].(act := Waiting(m))]
  {
    LockTakes(s, q, m);
    var s1 := Apply(s, Lock(q, m));
    LockTakes(s1, r, m);
    assert Wants(s1, q, m);
    TwoSteps(s, Lock(q, m), Lock(r, m));
  }

  /** So a reachable state has one process holding two mutexes and two others waiting for one of them. */
  lemma {:induction false} Contention(s: State, p: nat, q: nat, r: nat, a: Mutex, b: Mutex) returns (t: State)
    requires Init(s) && p < |s.procs| && q < |s.procs| && r < |s.procs| && p != q && q != r && p != r
    requires a in s.bytes && b in s.bytes && a != b
    ensures Reachable(t) && |t.procs| == |s.procs| && t.procs[p] == Process({a, b}, Idle)
    ensures t.procs[q].act == Waiting(a) && t.procs[r].act == Waiting(a)
  {
    HoldsTwo(s, p, a, b);
    var s2 := After(s, [Lock(p, a), Lock(p, b)]);
    ReachableHeld(s2, p, a);
    assert Wants(s2, p, a);
    WaitersJoin(s2, q, r, a);
    t := After(s2, [Lock(q, a), Lock(r, a)]);
  }

  // ----- Bounded bypass

  /** The step makes p the holder of m. */
  ghost predicate Acquires(s: State, step: Step, p: nat, m: Mutex)
    requires Enabled(s, step)
  {
    && step.p == p
    && match step
       case Lock(_, m') => m' == m && !OthersSet(s.bytes[m][p := 1], p)
       case Receive(_, _) => s.procs[p].act.m == m
       case _ => false
  }

  /** How often processes other than q acquire m in a run. */
  ghost function Bypasses(s: State, steps: seq<Step>, q: nat, m: Mutex): nat
    requires IsRun(s, steps)
    decreases |steps|
  {
    if steps == [] then 0 else
      (if steps[0].p != q && Acquires(s, steps[0], steps[0].p, m) then 1 else 0) +
      Bypasses(Apply(s, steps[0]), steps[1..], q, m)
  }

  ghost predicate Within(tok: Token, n: nat) {
    (tok.HeldBy? ==> tok.p < n) && (tok.FlyingTo? || tok.PassedBy? ==> tok.to < n)
  }

  /** How often m can still be acquired by others before it reaches q. */
  ghost function Budget(tok: Token, q: nat, n: nat): int
    requires q < n && Within(tok, n)
  {
    match tok
    case Nowhere => 0
    case HeldBy(p) => Distance(p, q, n) - 1
    case FlyingTo(t) => Distance(t, q, n)
    case PassedBy(_, t) => Distance(t, q, n)
  }

  /** The hand-off goes to a process between p and q, or to q itself. */
  lemma {:induction false} HandOff(s: State, p: nat, q: nat, m: Mutex, tok: Token)
    requires Enabled(s, Unlock(p, m)) && TokenAt(s, m, tok) && q < |s.procs| && s.procs[q].act == Waiting(m)
    ensures tok == HeldBy(p) && p != q
    ensures var tok' := AfterUnlock(s, p, m);
      tok'.PassedBy? && tok'.to < |s.procs| && Distance(tok'.to, q, |s.procs|) < Distance(p, q, |s.procs|)
  {
    var vec := s.bytes[m][p := 0];
    assert Agrees(s.procs[p], p, s.bytes[m][p], m, tok);
    assert Agrees(s.procs[q], q, s.bytes[m][q], m, tok);
    assert vec[q] == 1;
    NextWaiterIsNearest(vec, p);
  }

  /** A step of another process never raises the budget, and lowers it when that process acquires m. */
  lemma {:induction false} BypassStep(s: State, tok: Token, step: Step, q: nat, m: Mutex)
    requires Enabled(s, step) && m in s.bytes && TokenAt(s, m, tok) && Sound(s, tok, step, m)
    requires q < |s.procs| && s.procs[q].act == Waiting(m) && step.p != q
    ensures var n := |s.procs|; var tok' := NextToken(s, tok, step, m);
      && Within(tok, n) && Within(tok', n)
      && Budget(tok', q, n) + (if Acquires(s, step, step.p, m) then 1 else 0) <= Budget(tok, q, n)
  {
    assert Agrees(s.procs[q], q, s.bytes[m][q], m, tok);
    match step
    case Lock(p, m') => if m' == m { LockStands(s, p, q, m, tok); }
    case Receive(p, k) =>
    case Unlock(p, m') => if m' == m { HandOff(s, p, q, m, tok); }
    case Notify(p) =>
  }

  /** A lock attempt that comes after q leaves the token where it is. */
  lemma {:induction false} LockStands(s: State, p: nat, q: nat, m: Mutex, tok: Token)
    requires Enabled(s, Lock(p, m)) && m in s.bytes && TokenAt(s, m, tok) && q < |s.procs|
    requires s.procs[q].act == Waiting(m) && p != q
    ensures AfterLock(s, p, m, tok) == tok && !Acquires(s, Lock(p, m), p, m)
  {
    assert Agrees(s.procs[q], q, s.bytes[m][q], m, tok);
    assert s.bytes[m][p := 1][q] != 0;
  }

  lemma {:induction false} BudgetBounds(s: State, toks: map<Mutex, Token>, q: nat, m: Mutex)
    requires Invariant(s, toks) && m in s.bytes && q < |s.procs| && s.procs[q].act == Waiting(m)
    ensures Within(toks[m], |s.procs|) && 0 <= Budget(toks[m], q, |s.procs|) < |s.procs|
  {
    assert TokenAt(s, m, toks[m]);
    assert Agrees(s.procs[q], q, s.bytes[m][q], m, toks[m]);
  }

  lemma {:induction false} StepLeaves(s: State, step: Step, q: nat)
    requires Enabled(s, step) && q < |s.procs| && step.p != q
    ensures |Apply(s, step).procs| == |s.procs| && Apply(s, step).procs[q] == s.procs[q]
    ensures Apply(s, step).bytes.Keys == s.bytes.Keys
  {
  }

  /** No step of the run is taken by q. */
  ghost predicate Without(steps: seq<Step>, q: nat) {
    forall i :: 0 <= i < |steps| ==> steps[i].p != q
  }

  lemma {:induction false} BypassOne(s: State, toks: map<Mutex, Token>, step: Step, q: nat, m: Mutex)
    requires Invariant(s, toks) && Enabled(s, step) && m in s.bytes && q < |s.procs|
    requires s.procs[q].act == Waiting(m) && step.p != q
    ensures var s' := Apply(s, step); var toks' := NextTokens(s, toks, step); var n := |s.procs|;
      && Invariant(s', toks') && m in s'.bytes && |s'.procs| == n && s'.procs[q].act == Waiting(m)
      && Within(toks[m], n) && Within(toks'[m], n)
      && Budget(toks'[m], q, n) + (if Acquires(s, step, step.p, m) then 1 else 0) <= Budget(toks[m], q, n)
  {
    StepIsSound(s, toks, step, m);
    BypassStep(s, toks[m], step, q, m);
    StepLeaves(s, step, q);
    StepKeeps(s, toks, step);
  }

  lemma {:induction false} RunUnfolds(s: State, steps: seq<Step>, q: nat, m: Mutex)
    requires steps != [] && IsRun(s, steps) && Without(steps, q)
    ensures Enabled(s, steps[0]) && steps[0].p != q && Without(steps[1..], q) && IsRun(Apply(s, steps[0]), steps[1..])
    ensures Bypasses(s, steps, q, m) ==
      (if Acquires(s, steps[0], steps[0].p, m) then 1 else 0) + Bypasses(Apply(s, steps[0]), steps[1..], q, m)
  {
  }

  lemma {:induction false} BypassFirst(s: State, toks: map<Mutex, Token>, steps: seq<Step>, q: nat, m: Mutex)
    returns (s': State, toks': map<Mutex, Token>, b: nat)
    requires Invariant(s, toks) && steps != [] && IsRun(s, steps) && m in s.bytes && q < |s.procs|
    requires s.procs[q].act == Waiting(m) && Without(steps, q)
    ensures Invariant(s', toks') && IsRun(s', steps[1..]) && m in s'.bytes && |s'.procs| == |s.procs|
    ensures s'.procs[q].act == Waiting(m) && Without(steps[1..], q)
    ensures Within(toks[m], |s.procs|) && Within(toks'[m], |s.procs|)
    ensures b + Budget(toks'[m], q, |s.procs|) <= Budget(toks[m], q, |s.procs|)
    ensures Bypasses(s, steps, q, m) == b + Bypasses(s', steps[1..], q, m)
  {
    RunUnfolds(s, steps, q, m);
    BypassOne(s, toks, steps[0], q, m);
    s', toks' := Apply(s, steps[0]), NextTokens(s, toks, steps[0]);
    b := if Acquires(s, steps[0], steps[0].p, m) then 1 else 0;
  }

  lemma {:induction false} BypassRun(s: State, toks: map<Mutex, Token>, steps: seq<Step>, q: nat, m: Mutex)
    requires Invariant(s, toks) && IsRun(s, steps) && m in s.bytes && q < |s.procs|
    requires s.procs[q].act == Waiting(m) && Without(steps, q)
    ensures Within(toks[m], |s.procs|) && Bypasses(s, steps, q, m) <= Budget(toks[m], q, |s.procs|)
    decreases |steps|
  {
    if steps == [] {
      BudgetBounds(s, toks, q, m);
    } else {
      var s', toks', b := BypassFirst(s, toks, steps, q, m);
      BypassRun(s', toks', steps[1..], q, m);
    }
  }

  /** Bounded bypass: from any reachable state in which q waits for m, over any run in which q has
      not yet been notified, the other processes acquire m at most n - 1 times. */
  lemma {:induction false} BoundedBypass(s: State, steps: seq<Step>, q: nat, m: Mutex)
    requires Reachable(s) && IsRun(s, steps) && m in s.bytes && q < |s.procs|
    requires s.procs[q].act == Waiting(m) && Without(steps, q)
    ensures Bypasses(s, steps, q, m) <= |s.procs| - 1
  {
    var toks := ReachableInvariant(s);
    BypassRun(s, toks, steps, q, m);
    BudgetBounds(s, toks, q, m);
  }
}

/** ARMCI_Group_create_comm_noncollective (src/groups.c): the members of a group find each other by
    merging neighbouring communicators, each at its own pace. */
module GroupFormation {
  import opened GroupBlocks
  import Memory

  /** The scan of pid_list: the caller's group rank, or -1. */
  method GroupRank(me: int, pids: seq<int>) returns (rank: int)
    ensures rank < 0 <==> me !in pids
    ensures rank >= 0 ==> rank < |pids| && pids[rank] == me && me !in pids[..rank]
  {
    rank := -1;
    for i := 0 to |pids|
      invariant rank == -1 && me !in pids[..i]
    {
      if pids[i] == me {
        return i;
      }
    }
  }

  /** What a caller does: nothing (it gets MPI_COMM_NULL), a duplicate of MPI_COMM_SELF, or the loop. */
  datatype Entry = NotMember | Alone | Loop(rank: nat)

  /** The three cases before the loop: only members of a group of two or more take part in merges. */
  method Enter(me: int, pids: seq<int>) returns (entry: Entry)
    ensures entry == NotMember <==> me !in pids
    ensures entry == Alone <==> pids == [me]
    ensures entry.Loop? ==> |pids| > 1 && entry.rank < |pids| && pids[entry.rank] == me
  {
    var rank := GroupRank(me, pids);
    if rank < 0 {
      entry := NotMember;
    } else if |pids| == 1 && pids[0] == me {
      entry := Alone;
    } else {
      entry := Loop(rank);
    }
  }

  /** A member in round r (merge_size is Pow2(r)) with its communicator, as group ranks in order, and
      the communicators it has made and freed. It is posted while inside MPI_Intercomm_create and
      MPI_Intercomm_merge. */
  datatype Member = Member(r: nat, comm: seq<nat>, posted: bool, made: seq<seq<nat>>, freed: seq<seq<nat>>)

  /** `merged` maps a communicator that took part in a matched merge to what the merge returns. */
  datatype State = State(members: seq<Member>, merged: map<seq<nat>, seq<nat>>)

  datatype Step = Skip(i: nat) | Post(i: nat) | Match(a: nat, b: nat) | Complete(i: nat)

  /** Inside the loop. */
  predicate Looping(s: State, i: nat)
    requires i < |s.members|
  {
    Pow2(s.members[i].r) < |s.members|
  }

  /** Everyone in i's communicator has called with that communicator. */
  ghost predicate AllPosted(s: State, i: nat)
    requires i < |s.members|
  {
    forall k :: k in s.members[i].comm ==>
      k < |s.members| && s.members[k].posted && s.members[k].comm == s.members[i].comm
  }

  /** The process that i names as remote leader, as a rank in the peer communicator. */
  ghost predicate Names(s: State, pids: seq<int>, a: nat, b: nat)
    requires a < |s.members| == |pids| && b < |pids|
  {
    var p := Partner(a, Pow2(s.members[a].r));
    0 <= p < |pids| && pids[p] == pids[b]
  }

  ghost predicate Enabled(s: State, pids: seq<int>, step: Step)
    requires |s.members| == |pids|
  {
    var n := |pids|;
    match step
    case Skip(i) => i < n && Looping(s, i) && !s.members[i].posted && Skips(i, Pow2(s.members[i].r), n)
    case Post(i) => i < n && Looping(s, i) && !s.members[i].posted && !Skips(i, Pow2(s.members[i].r), n)
    // MPI pairs two calls whose leaders, rank 0 of their communicators, name each other in the peer
    // communicator (every call uses the same tag), once every process of both communicators has called.
    case Match(a, b) =>
      && a < n && b < n && s.members[a].posted && s.members[b].posted
      && s.members[a].comm != [] && s.members[a].comm[0] == a && s.members[b].comm != [] && s.members[b].comm[0] == b
      && s.members[a].comm !in s.merged && s.members[b].comm !in s.merged
      && Names(s, pids, a, b) && Names(s, pids, b, a) && AllPosted(s, a) && AllPosted(s, b)
    case Complete(i) => i < n && s.members[i].posted && s.members[i].comm in s.merged
  }

  /** MPI_Intercomm_merge: the group that passed LOW comes first. */
  function Joined(s: State, a: nat, b: nat): seq<nat>
    requires a < |s.members| && b < |s.members|
  {
    if High(a, Pow2(s.members[a].r)) then s.members[b].comm + s.members[a].comm
    else s.members[a].comm + s.members[b].comm
  }

  /** The end of a round: the new communicator replaces the old one, which is freed unless it is
      MPI_COMM_SELF. */
  function Advance(m: Member, i: nat, comm: seq<nat>): Member {
    Member(m.r + 1, comm, false, m.made + [comm], if m.comm == [i] then m.freed else m.freed + [m.comm])
  }

  ghost function Apply(s: State, pids: seq<int>, step: Step): State
    requires |s.members| == |pids| && Enabled(s, pids, step)
  {
    match step
    case Skip(i) => s.(members := s.members[i := s.members[i].(r := s.members[i].r + 1)])
    case Post(i) => s.(members := s.members[i := s.members[i].(posted := true)])
    case Match(a, b) =>
      var joined := Joined(s, a, b);
      s.(merged := s.merged[s.members[a].comm := joined][s.members[b].comm := joined])
    case Complete(i) => s.(members := s.members[i := Advance(s.members[i], i, s.merged[s.members[i].comm])])
  }

  function Start0(n: nat): State {
    State(seq(n, i requires 0 <= i < n => Member(0, [i], false, [], [])), map[])
  }

  ghost predicate IsRun(pids: seq<int>, s: State, steps: seq<Step>)
    requires |s.members| == |pids|
    decreases |steps|
  {
    steps == [] || (Enabled(s, pids, steps[0]) && IsRun(pids, Apply(s, pids, steps[0]), steps[1..]))
  }

  ghost function After(pids: seq<int>, s: State, steps: seq<Step>): (t: State)
    requires |s.members| == |pids| && IsRun(pids, s, steps)
    ensures |t.members| == |pids|
    decreases |steps|
  {
    if steps == [] then s else After(pids, Apply(s, pids, steps[0]), steps[1..])
  }

  // ----- What every step keeps

  /** The communicators that member i makes before round r: one for each round in which its block has a
      partner, and that is the block of the round after. */
  ghost function Chain(i: nat, r: nat, n: nat): seq<seq<nat>>
    requires i < n
  {
    if r == 0 then []
    else Chain(i, r - 1, n) + if InRound(i, r - 1, n) then [Block(i, Pow2(r), n)] else []
  }

  /** Member i has the block of its round and has freed every communicator it made but the last. */
  ghost predicate MemberOk(m: Member, i: nat, n: nat)
    requires i < n
  {
    && m.comm == Block(i, Pow2(m.r), n) && (m.posted ==> InRound(i, m.r, n)) && (m.r == 0 || Pow2(m.r - 1) < n)
    && (if m.comm == [i] then m.made == [] && m.freed == [] else m.made == m.freed + [m.comm])
    && m.made == Chain(i, m.r, n) && Growing(m.made)
  }

  /** No communicator in the list is there twice: each is larger than the one before. */
  ghost predicate Growing(made: seq<seq<nat>>) { forall k, l :: 0 <= k < l < |made| ==> |made[k]| < |made[l]| }

  /** A merged block has its partner merged, too, and the merge returned the next round's block. */
  ghost predicate MergeOk(merged: map<seq<nat>, seq<nat>>, i: nat, q: nat, n: nat)
    requires InRound(i, q, n)
  {
    var m := Pow2(q);
    Block(i, m, n) in merged ==>
      && merged[Block(i, m, n)] == Block(i, Pow2(q + 1), n)
      && 0 <= Partner(i, m) < n && Block(Partner(i, m), m, n) in merged
  }

  /** Member i has been through every earlier round. */
  ghost predicate PassedOk(s: State, i: nat, q: nat)
    requires i < |s.members|
  {
    q < s.members[i].r && InRound(i, q, |s.members|) ==> Block(i, Pow2(q), |s.members|) in s.merged
  }

  ghost predicate Invariant(s: State) {
    var n := |s.members|;
    && (forall i :: 0 <= i < n ==> MemberOk(s.members[i], i, n))
    && (forall i: nat, q: nat :: InRound(i, q, n) ==> MergeOk(s.merged, i, q, n))
    && (forall i: nat, q: nat :: i < n ==> PassedOk(s, i, q))
  }

  lemma {:induction false} InitialInvariant(n: nat)
    ensures Invariant(Start0(n))
  {
    var s := Start0(n);
    forall i | 0 <= i < n ensures MemberOk(s.members[i], i, n) {
      assert Block(i, 1, n) == [i];
    }
  }

  lemma {:induction false} SkipKeeps(s: State, pids: seq<int>, i: nat)
    requires |s.members| == |pids| && Enabled(s, pids, Skip(i)) && Invariant(s)
    ensures Invariant(Apply(s, pids, Skip(i)))
  {
    var t, n, m := Apply(s, pids, Skip(i)), |pids|, s.members[i];
    assert MemberOk(m, i, n);
    SkippedBlock(i, m.r, n);
    forall j | 0 <= j < n ensures MemberOk(t.members[j], j, n) { assert MemberOk(s.members[j], j, n); }
    forall j: nat, q: nat | j < n ensures PassedOk(t, j, q) { assert PassedOk(s, j, q); }
  }

  lemma {:induction false} PostKeeps(s: State, pids: seq<int>, i: nat)
    requires |s.members| == |pids| && Enabled(s, pids, Post(i)) && Invariant(s)
    ensures Invariant(Apply(s, pids, Post(i)))
  {
    var t, n := Apply(s, pids, Post(i)), |pids|;
    forall j | 0 <= j < n ensures MemberOk(t.members[j], j, n) { assert MemberOk(s.members[j], j, n); }
    forall j: nat, q: nat | j < n ensures PassedOk(t, j, q) { assert PassedOk(s, j, q); }
  }

  /** The next communicator is larger, and the one it replaces is freed. */
  lemma {:induction false} AdvanceKeeps(m: Member, i: nat, n: nat)
    requires i < n && MemberOk(m, i, n) && m.posted
    ensures MemberOk(Advance(m, i, Block(i, Pow2(m.r + 1), n)), i, n)
  {
    var comm := Block(i, Pow2(m.r + 1), n);
    MergedBlock(i, m.r, n);
    assert |comm| > |m.comm| >= 1;
    var t := Advance(m, i, comm);
    assert t.made == t.freed + [comm];
    assert Growing(t.made) by {
      forall k, l | 0 <= k < l < |t.made| ensures |t.made[k]| < |t.made[l]| {
        if l < |m.made| {
          assert t.made[k] == m.made[k] && t.made[l] == m.made[l];
        } else {
          LastIsLongest(m.made, k, m.comm);
        }
      }
    }
  }

  lemma {:induction false} LastIsLongest(made: seq<seq<nat>>, k: nat, last: seq<nat>)
    requires Growing(made) && k < |made| && made[|made| - 1] == last
    ensures |made[k]| <= |last|
  {
  }

  lemma {:induction false} CompleteKeeps(s: State, pids: seq<int>, i: nat)
    requires |s.members| == |pids| && Enabled(s, pids, Complete(i)) && Invariant(s)
    ensures Invariant(Apply(s, pids, Complete(i)))
  {
    var t, n, m := Apply(s, pids, Complete(i)), |pids|, s.members[i];
    assert MemberOk(m, i, n) && MergeOk(s.merged, i, m.r, n);
    AdvanceKeeps(m, i, n);
    forall j | 0 <= j < n ensures MemberOk(t.members[j], j, n) { assert MemberOk(s.members[j], j, n); }
    forall j: nat, q: nat | j < n ensures PassedOk(t, j, q) { assert PassedOk(s, j, q); }
  }

  lemma {:induction false} SameRoundBlock(i: nat, j: nat, r: nat, n: nat)
    requires i < n && j < n && Start(i, Pow2(r)) == Start(j, Pow2(r))
    ensures Partner(i, Pow2(r)) == Partner(j, Pow2(r)) && High(i, Pow2(r)) == High(j, Pow2(r))
    ensures Block(i, Pow2(r), n) == Block(j, Pow2(r), n) && Block(i, Pow2(r + 1), n) == Block(j, Pow2(r + 1), n)
    ensures InRound(i, r, n) == InRound(j, r, n)
  {
    SameBlock(i, j, Pow2(r));
    PartnerStart(i, Pow2(r), n);
    PartnerStart(j, Pow2(r), n);
  }

  /** Calls that MPI pairs come from the same round, name each other's leader, disagree on which side is
      low, and everyone on both sides is in that round. */
  lemma {:induction false} MatchedCalls(s: State, pids: seq<int>, a: nat, b: nat)
    requires |s.members| == |pids| && Memory.Distinct(pids)
    requires Invariant(s) && Enabled(s, pids, Match(a, b))
    ensures s.members[a].r == s.members[b].r
    ensures var m := Pow2(s.members[a].r); Partner(a, m) == b && Partner(b, m) == a && High(a, m) != High(b, m)
    ensures forall k :: k in s.members[a].comm + s.members[b].comm ==> k < |pids| && s.members[k].r == s.members[a].r
  {
    var n, ma, mb := |pids|, s.members[a], s.members[b];
    assert MemberOk(ma, a, n) && MemberOk(mb, b, n);
    assert ma.comm[0] == Start(a, Pow2(ma.r)) && mb.comm[0] == Start(b, Pow2(mb.r));
    NamedInSameRound(a, ma.r, b, mb.r, n);
    forall k | k in ma.comm + mb.comm ensures k < n && s.members[k].r == ma.r {
      assert k < n;
      assert MemberOk(s.members[k], k, n);
      if k in ma.comm {
        RoundUnique(k, s.members[k].r, a, ma.r, n);
      } else {
        RoundUnique(k, s.members[k].r, b, mb.r, n);
      }
    }
  }

  lemma {:induction false} JoinedBlock(s: State, pids: seq<int>, a: nat, b: nat)
    requires |s.members| == |pids| && Memory.Distinct(pids)
    requires Invariant(s) && Enabled(s, pids, Match(a, b))
    ensures Joined(s, a, b) == Block(a, Pow2(s.members[a].r + 1), |pids|)
    ensures Joined(s, a, b) == Block(b, Pow2(s.members[a].r + 1), |pids|)
  {
    var n, r := |pids|, s.members[a].r;
    MatchedCalls(s, pids, a, b);
    assert MemberOk(s.members[a], a, n) && MemberOk(s.members[b], b, n);
    MergedBlock(a, r, n);
    MergedBlock(b, r, n);
  }

  lemma {:induction false} MatchMerged(s: State, pids: seq<int>, a: nat, b: nat, i: nat, q: nat)
    requires |s.members| == |pids| && Memory.Distinct(pids)
    requires Invariant(s) && Enabled(s, pids, Match(a, b)) && InRound(i, q, |pids|)
    ensures MergeOk(Apply(s, pids, Match(a, b)).merged, i, q, |pids|)
  {
    var t, n, r := Apply(s, pids, Match(a, b)), |pids|, s.members[a].r;
    MatchedCalls(s, pids, a, b);
    JoinedBlock(s, pids, a, b);
    assert MemberOk(s.members[a], a, n) && MemberOk(s.members[b], b, n) && MergeOk(s.merged, i, q, n);
    var c := Block(i, Pow2(q), n);
    if c == s.members[a].comm {
      RoundUnique(i, q, a, r, n);
      SameRoundBlock(i, a, r, n);
    } else if c == s.members[b].comm {
      RoundUnique(i, q, b, r, n);
      SameRoundBlock(i, b, r, n);
    }
  }

  lemma {:induction false} MatchKeeps(s: State, pids: seq<int>, a: nat, b: nat)
    requires |s.members| == |pids| && Memory.Distinct(pids)
    requires Invariant(s) && Enabled(s, pids, Match(a, b))
    ensures Invariant(Apply(s, pids, Match(a, b)))
  {
    var t, n := Apply(s, pids, Match(a, b)), |pids|;
    forall i: nat, q: nat | InRound(i, q, n) ensures MergeOk(t.merged, i, q, n) { MatchMerged(s, pids, a, b, i, q); }
    forall i: nat, q: nat | i < n ensures PassedOk(t, i, q) { assert PassedOk(s, i, q); }
    forall i | 0 <= i < n ensures MemberOk(t.members[i], i, n) { assert MemberOk(s.members[i], i, n); }
  }

  lemma {:induction false} StepKeeps(s: State, pids: seq<int>, step: Step)
    requires |s.members| == |pids| && Memory.Distinct(pids) && Invariant(s) && Enabled(s, pids, step)
    ensures Invariant(Apply(s, pids, step))
  {
    match step
    case Skip(i) => SkipKeeps(s, pids, i);
    case Post(i) => PostKeeps(s, pids, i);
    case Match(a, b) => MatchKeeps(s, pids, a, b);
    case Complete(i) => CompleteKeeps(s, pids, i);
  }

  lemma {:induction false} RunKeeps(s: State, pids: seq<int>, steps: seq<Step>)
    requires |s.members| == |pids| && Memory.Distinct(pids) && Invariant(s) && IsRun(pids, s, steps)
    ensures Invariant(After(pids, s, steps))
    decreases |steps|
  {
    if steps != [] {
      StepKeeps(s, pids, steps[0]);
      RunKeeps(Apply(s, pids, steps[0]), pids, steps[1..]);
    }
  }

  ghost predicate Reachable(pids: seq<int>, s: State) {
    exists steps :: IsRun(pids, Start0(|pids|), steps) && After(pids, Start0(|pids|), steps) == s
  }

  lemma {:induction false} ReachableInvariant(pids: seq<int>, s: State)
    requires Memory.Distinct(pids) && Reachable(pids, s)
    ensures Invariant(s) && |s.members| == |pids|
  {
    var steps :| IsRun(pids, Start0(|pids|), steps) && After(pids, Start0(|pids|), steps) == s;
    InitialInvariant(|pids|);
    RunKeeps(Start0(|pids|), pids, steps);
  }

  // ----- The results

  /** In every reachable state, a member in round r has the block of its group rank at that size. */
  lemma {:induction false} BlockInEveryRound(pids: seq<int>, s: State, i: nat)
    requires Memory.Distinct(pids) && Reachable(pids, s) && i < |pids|
    ensures i < |s.members| && s.members[i].comm == Block(i, Pow2(s.members[i].r), |pids|)
  {
    ReachableInvariant(pids, s);
    assert MemberOk(s.members[i], i, |pids|);
  }

  /** A member that has left the loop has the whole group in pid_list order. It has made one communicator
      for each round in which its block had a partner, and has freed all of them except the last, none
      twice. */
  lemma {:induction false} WholeGroupAtTheEnd(pids: seq<int>, s: State, i: nat)
    requires Memory.Distinct(pids) && Reachable(pids, s) && i < |pids| == |s.members| && !Looping(s, i)
    ensures s.members[i].comm == Interval(0, |pids|)
    ensures s.members[i].made == Chain(i, s.members[i].r, |pids|)
    ensures |pids| > 1 ==> s.members[i].made == s.members[i].freed + [s.members[i].comm]
    ensures |pids| == 1 ==> s.members[i].made == s.members[i].freed == []
    ensures forall k, l :: 0 <= k < l < |s.members[i].freed| ==> s.members[i].freed[k] != s.members[i].freed[l]
    ensures s.members[i].comm !in s.members[i].freed
  {
    var m := s.members[i];
    ReachableInvariant(pids, s);
    assert MemberOk(m, i, |pids|);
    LastBlock(i, Pow2(m.r), |pids|);
    assert |m.comm| == |pids|;
    if |pids| > 1 {
      forall k | 0 <= k < |m.freed| ensures m.made[k] == m.freed[k] && |m.freed[k]| < |m.comm| {
        assert m.made[|m.made| - 1] == m.comm;
      }
    } else {
      assert m.comm == [i];
    }
  }

  // ----- Nobody waits for ever

  lemma {:induction false} Slowest(s: State, k: nat) returns (i: nat)
    requires 0 < k <= |s.members|
    ensures i < k && forall j :: 0 <= j < k ==> s.members[i].r <= s.members[j].r
  {
    if k == 1 {
      i := 0;
    } else {
      i := Slowest(s, k - 1);
      if s.members[k - 1].r < s.members[i].r { i := k - 1; }
    }
  }

  /** While some member is in the loop, some step can be taken. */
  lemma {:induction false} Progress(pids: seq<int>, s: State) returns (step: Step)
    requires Memory.Distinct(pids) && Reachable(pids, s) && |s.members| == |pids|
    requires exists i :: 0 <= i < |pids| && Looping(s, i)
    ensures Enabled(s, pids, step)
  {
    ReachableInvariant(pids, s);
    var n := |pids|;
    var slow := Slowest(s, n);
    SlowestLoops(s, slow);
    var r := s.members[slow].r;
    if j: nat :| j < n && s.members[j].r == r && !s.members[j].posted {
      step := if Skips(j, Pow2(r), n) then Skip(j) else Post(j);
    } else {
      assert MemberOk(s.members[slow], slow, n);
      if s.members[slow].comm in s.merged {
        step := Complete(slow);
      } else {
        MatchWaits(s, pids, slow);
        step := Match(Start(slow, Pow2(r)), Partner(slow, Pow2(r)));
      }
    }
  }

  lemma {:induction false} SlowestLoops(s: State, slow: nat)
    requires slow < |s.members| && (forall j :: 0 <= j < |s.members| ==> s.members[slow].r <= s.members[j].r)
    requires exists i :: 0 <= i < |s.members| && Looping(s, i)
    ensures Looping(s, slow)
  {
    var i :| 0 <= i < |s.members| && Looping(s, i);
    if s.members[slow].r < s.members[i].r { Pow2Monotone(s.members[slow].r, s.members[i].r); }
  }

  /** If the block of i is waiting and nobody is behind, its merge can be matched. */
  lemma {:induction false} MatchWaits(s: State, pids: seq<int>, i: nat)
    requires |s.members| == |pids| && Memory.Distinct(pids) && Invariant(s) && i < |pids| && s.members[i].posted
    requires s.members[i].comm !in s.merged
    requires forall j :: 0 <= j < |pids| ==> s.members[i].r <= s.members[j].r
    requires forall j :: 0 <= j < |pids| && s.members[j].r == s.members[i].r ==> s.members[j].posted
    ensures Partner(i, Pow2(s.members[i].r)) >= 0
    ensures Enabled(s, pids, Match(Start(i, Pow2(s.members[i].r)), Partner(i, Pow2(s.members[i].r))))
  {
    var n, r := |pids|, s.members[i].r;
    var m := Pow2(r);
    assert MemberOk(s.members[i], i, n);
    var a, b := Start(i, m), Partner(i, m);
    SameBlock(i, a, m);
    SameRoundBlock(i, a, r, n);
    PartnersNameEachOther(a, r, n);
    assert Block(b, m, n) !in s.merged by { assert MergeOk(s.merged, b, r, n); }
    SideReady(s, a, r);
    SideReady(s, b, r);
  }

  lemma {:induction false} SideReady(s: State, a: nat, r: nat)
    requires Invariant(s) && InRound(a, r, |s.members|) && Start(a, Pow2(r)) == a
    requires Block(a, Pow2(r), |s.members|) !in s.merged
    requires forall j :: 0 <= j < |s.members| ==> r <= s.members[j].r
    requires forall j :: 0 <= j < |s.members| && s.members[j].r == r ==> s.members[j].posted
    ensures s.members[a].r == r && s.members[a].comm == Block(a, Pow2(r), |s.members|) && AllPosted(s, a)
  {
    var n, m := |s.members|, Pow2(r);
    forall j | j in Block(a, m, n) ensures j < n && s.members[j].r == r && s.members[j].comm == Block(a, m, n) {
      SameBlock(a, j, m);
      SameRoundBlock(a, j, r, n);
      assert PassedOk(s, j, r) && MemberOk(s.members[j], j, n);
    }
    assert Block(a, m, n)[0] == a;
  }

  /** Rounds still to go for one member, in thirds: entering and being matched count one each. */
  ghost function Left(s: State, i: nat, rounds: nat): int
    requires i < |s.members|
  {
    var m := s.members[i];
    3 * (rounds - m.r) - (if m.posted then if m.comm in s.merged then 2 else 1 else 0)
  }

  ghost function Work(s: State, k: nat, rounds: nat): int
    requires k <= |s.members|
  {
    if k == 0 then 0 else Work(s, k - 1, rounds) + Left(s, k - 1, rounds)
  }

  lemma {:induction false} LessWork(s: State, t: State, k: nat, rounds: nat, i: nat)
    requires k <= |s.members| == |t.members|
    requires forall j :: 0 <= j < k ==> Left(t, j, rounds) <= Left(s, j, rounds)
    ensures Work(t, k, rounds) <= Work(s, k, rounds)
    ensures i < k && Left(t, i, rounds) < Left(s, i, rounds) ==> Work(t, k, rounds) < Work(s, k, rounds)
  {
    if k > 0 { LessWork(s, t, k - 1, rounds, i); }
  }

  lemma {:induction false} WorkLeft(s: State, k: nat, rounds: nat)
    requires Invariant(s) && k <= |s.members| <= Pow2(rounds)
    ensures Work(s, k, rounds) >= 0
  {
    if k > 0 {
      WorkLeft(s, k - 1, rounds);
      var m := s.members[k - 1];
      assert MemberOk(m, k - 1, |s.members|);
      if m.r > 0 && m.r - 1 >= rounds { if rounds < m.r - 1 { Pow2Monotone(rounds, m.r - 1); } assert false; }
      if m.posted && m.r >= rounds { if rounds < m.r { Pow2Monotone(rounds, m.r); } assert false; }
    }
  }

  lemma {:induction false} StepWorks(s: State, pids: seq<int>, step: Step, rounds: nat)
    requires |s.members| == |pids| && Enabled(s, pids, step)
    ensures Work(Apply(s, pids, step), |pids|, rounds) < Work(s, |pids|, rounds)
  {
    var t := Apply(s, pids, step);
    var i := if step.Match? then step.a else step.i;
    LessWork(s, t, |pids|, rounds, i);
  }

  lemma {:induction false} RunWorks(s: State, pids: seq<int>, steps: seq<Step>, rounds: nat)
    requires |s.members| == |pids| && IsRun(pids, s, steps)
    ensures Work(After(pids, s, steps), |pids|, rounds) + |steps| <= Work(s, |pids|, rounds)
    decreases |steps|
  {
    if steps != [] {
      StepWorks(s, pids, steps[0], rounds);
      RunWorks(Apply(s, pids, steps[0]), pids, steps[1..], rounds);
    }
  }

  lemma {:induction false} WorkAtStart(n: nat, k: nat, rounds: nat)
    requires k <= n
    ensures Work(Start0(n), k, rounds) == 3 * rounds * k
  {
    if k > 0 {
      WorkAtStart(n, k - 1, rounds);
      assert 3 * rounds * k == 3 * rounds * (k - 1) + 3 * rounds;
    }
  }

  /** Every run is short: three steps for each member and round. With Progress, every member gets its
      communicator. */
  lemma {:induction false} RunsEnd(pids: seq<int>, steps: seq<Step>, rounds: nat)
    requires Memory.Distinct(pids) && |pids| <= Pow2(rounds) && IsRun(pids, Start0(|pids|), steps)
    ensures |steps| <= 3 * rounds * |pids|
  {
    var s := Start0(|pids|);
    InitialInvariant(|pids|);
    RunKeeps(s, pids, steps);
    RunWorks(s, pids, steps, rounds);
    WorkAtStart(|pids|, |pids|, rounds);
    WorkLeft(After(pids, s, steps), |pids|, rounds);
  }
}

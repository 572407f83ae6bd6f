/** The process-wide bound on request-based RMA operations for Open MPI 5 (src/gmr.c). */
module RequestLimit {

  const LIMIT := 128   // ARMCII_OMPI_REQUEST_RMA_LIMIT

  const UNFINISHED_FLUSHES := 255   // the unfinished flush at which UCX gives up

  /** The counter, the windows of gmr_list, and the operations not yet locally complete: each window
      as often as it has such operations. */
  datatype State = State(issued: nat, windows: seq<nat>, pending: multiset<nat>)

  ghost predicate Valid(s: State) {
    && (forall w :: w in s.pending ==> w in s.windows)
    && |s.pending| <= s.issued <= LIMIT
  }

  /** MPI_Win_flush_local_all. */
  function Flushed(s: State, w: nat): State { s.(pending := s.pending[w := 0]) }

  class Limiter {
    var s: State

    constructor ()
      ensures s == State(0, [], multiset{}) && Valid(s)
    {
      s := State(0, [], multiset{});
    }

    /** gmr_request_rma_begin: at the limit, walk the list and complete everything. */
    method Begin()
      requires Valid(s)
      modifies this
      ensures Valid(s) && s.issued < LIMIT && s.windows == old(s.windows)
      ensures old(s.issued) < LIMIT ==> s == old(s)
      ensures old(s.issued) >= LIMIT ==> s == State(0, old(s.windows), multiset{})
    {
      if s.issued >= LIMIT {
        var i := 0;
        while i < |s.windows|
          invariant 0 <= i <= |s.windows| && s.windows == old(s.windows) && s.issued == old(s.issued)
          invariant forall w :: w in s.pending ==> w in s.windows[i..]
        {
          assert forall w :: w in s.windows[i..] ==> w == s.windows[i] || w in s.windows[i + 1..];
          s := Flushed(s, s.windows[i]);
          i := i + 1;
        }
        assert s.pending == multiset{};
        s := s.(issued := 0);
      }
    }

    /** The middle of gmr_put_typed and the like with a handle: begin, the MPI call, end. */
    method Issue(w: nat)
      requires Valid(s) && w in s.windows
      modifies this
      ensures Valid(s) && s == Apply(old(s), IssueOn(w))
    {
      Begin();
      s := s.(pending := s.pending + multiset{w});
      s := s.(issued := s.issued + 1);
    }
  }

  // ----- Over a whole run

  /** What a run is made of: an operation is issued, one completes (a wait, a test, or by itself), a
      region is created or destroyed. Destroying frees the window, which completes its operations. */
  datatype Event = IssueOn(w: nat) | CompleteOn(w: nat) | CreateWindow(w: nat) | DestroyWindow(w: nat)

  ghost predicate Enabled(s: State, e: Event) {
    match e
    case IssueOn(w) => w in s.windows
    case CompleteOn(w) => w in s.pending
    case CreateWindow(w) => w !in s.windows
    case DestroyWindow(w) => w in s.windows
  }

  function Apply(s: State, e: Event): State {
    match e
    case IssueOn(w) =>
      if s.issued >= LIMIT then State(1, s.windows, multiset{w})
      else s.(issued := s.issued + 1, pending := s.pending + multiset{w})
    case CompleteOn(w) => s.(pending := s.pending - multiset{w})
    case CreateWindow(w) => s.(windows := s.windows + [w])
    case DestroyWindow(w) => s.(windows := Dropped(s.windows, w), pending := s.pending[w := 0])
  }

  function Dropped(ws: seq<nat>, w: nat): (r: seq<nat>)
    ensures forall x :: x in r <==> x in ws && x != w
  {
    if ws == [] then [] else (if ws[0] == w then [] else [ws[0]]) + Dropped(ws[1..], w)
  }

  lemma {:induction false} StepKeeps(s: State, e: Event)
    requires Valid(s) && Enabled(s, e)
    ensures Valid(Apply(s, e))
  {
    if e.CompleteOn? { assert |s.pending - multiset{e.w}| <= |s.pending|; }
  }

  ghost predicate IsRun(s: State, events: seq<Event>)
    decreases |events|
  {
    events == [] || (Enabled(s, events[0]) && IsRun(Apply(s, events[0]), events[1..]))
  }

  ghost function After(s: State, events: seq<Event>): State
    decreases |events|
  {
    if events == [] then s else After(Apply(s, events[0]), events[1..])
  }

  lemma {:induction false} RunKeeps(s: State, events: seq<Event>)
    requires Valid(s) && IsRun(s, events)
    ensures Valid(After(s, events))
    decreases |events|
  {
    if events != [] {
      StepKeeps(s, events[0]);
      RunKeeps(Apply(s, events[0]), events[1..]);
    }
  }

  /** However the user behaves, never more than 128 operations are locally incomplete, over all windows
      together, which is below the 255 that UCX can count. */
  lemma {:induction false} NeverMoreThanLimit(events: seq<Event>)
    requires IsRun(State(0, [], multiset{}), events)
    ensures |After(State(0, [], multiset{}), events).pending| <= 128 < UNFINISHED_FLUSHES
  {
    RunKeeps(State(0, [], multiset{}), events);
  }

  ghost function Issues(w: nat, n: nat): seq<Event> { seq(n, _ => IssueOn(w)) }

  /** How many of n operations in a row are outstanding: the limit is never in the way of the next one, it
      only completes the earlier ones. */
  ghost function Outstanding(n: nat): nat { if n == 0 then 0 else (n - 1) % 128 + 1 }

  lemma {:induction false} NextOutstanding(n: nat)
    ensures Outstanding(n) <= 128 && Outstanding(n + 1) == if Outstanding(n) == 128 then 1 else Outstanding(n) + 1
  {
    if n > 0 {
      var q, r := (n - 1) / 128, (n - 1) % 128;
      assert n - 1 == 128 * q + r;
      if r == 127 { assert n == 128 * (q + 1); } else { assert n == 128 * q + (r + 1); }
    }
  }

  lemma {:induction false} IssuesFrom(s: State, w: nat, k: nat, n: nat)
    requires w in s.windows && s.issued == Outstanding(k) == |s.pending|
    ensures IsRun(s, Issues(w, n))
    ensures |After(s, Issues(w, n)).pending| == Outstanding(k + n)
    decreases n
  {
    if n > 0 {
      var es := Issues(w, n);
      assert es[1..] == Issues(w, n - 1) && es[0] == IssueOn(w);
      NextOutstanding(k);
      IssuesFrom(Apply(s, es[0]), w, k + 1, n - 1);
    }
  }

  ghost function Flood(n: nat): seq<Event> { [CreateWindow(0)] + Issues(0, n) }

  /** A user that never waits can issue any number of operations; how many are outstanding goes up to 128
      and starts again at one. */
  lemma {:induction false} NeverWaiting(n: nat)
    ensures IsRun(State(0, [], multiset{}), Flood(n))
    ensures |After(State(0, [], multiset{}), Flood(n)).pending| == Outstanding(n)
  {
    var s, es := State(0, [], multiset{}), Flood(n);
    assert es[0] == CreateWindow(0) && es[1..] == Issues(0, n);
    IssuesFrom(Apply(s, es[0]), 0, 0, n);
  }

  /** The bound is met. */
  lemma {:induction false} LimitIsReached()
    ensures exists events ::
              IsRun(State(0, [], multiset{}), events) && |After(State(0, [], multiset{}), events).pending| == 128
  {
    NeverWaiting(128);
    assert Outstanding(128) == 128;
  }
}

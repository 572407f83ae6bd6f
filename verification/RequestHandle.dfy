/** Non-blocking handles (src/gmr.c, src/onesided_nb.c): one request kept in the handle itself, more
    of them in an array that grows. */
module RequestHandle {

  type Request = int

  const REQUEST_NULL: Request := -1

  /** Which requests MPI has completed. */
  class Mpi {
    var done: set<Request>

    constructor ()
      ensures done == {}
    {
      done := {};
    }

    /** MPI_Wait and MPI_Waitall. */
    method WaitAll(rs: seq<Request>)
      modifies this
      ensures done == old(done) + set r | r in rs
    {
      done := done + set r | r in rs;
    }

    /** MPI completes requests by itself, between calls. */
    method Progress(rs: set<Request>)
      modifies this
      ensures done == old(done) + rs
    {
      done := done + rs;
    }

    /** MPI_Test and MPI_Testall. */
    method TestAll(rs: seq<Request>) returns (flag: bool)
      ensures flag <==> forall r :: r in rs ==> r in done
    {
      flag := forall r :: r in rs ==> r in done;
    }
  }

  class Handle {
    var batchSize: int
    var singleRequest: Request
    var requestArray: array?<Request>

    ghost predicate Valid()
      reads this
    {
      && (batchSize == 0 ==> singleRequest == REQUEST_NULL)
      && (batchSize == 1 ==> singleRequest != REQUEST_NULL)
      && (batchSize > 1 ==> singleRequest == REQUEST_NULL && requestArray != null && requestArray.Length == batchSize)
    }

    /** The requests the handle stands for, oldest first. */
    ghost function Requests(): seq<Request>
      requires Valid()
      reads this, requestArray
    {
      if batchSize <= 0 then [] else if batchSize == 1 then [singleRequest] else requestArray[..]
    }

    /** ARMCI_INIT_HANDLE. */
    constructor ()
      ensures Valid() && batchSize == 0 && Requests() == [] && requestArray == null
    {
      batchSize, singleRequest, requestArray := 0, REQUEST_NULL, null;
    }

    /** gmr_handle_add_request; a handle that was never initialized is left alone. */
    method Add(req: Request)
      requires Valid() && req != REQUEST_NULL
      modifies this
      ensures Valid() && (requestArray == old(requestArray) || fresh(requestArray))
      ensures old(batchSize) >= 0 ==> Requests() == Kept(old(Requests()), AddCall(req)) && batchSize == |Requests()|
      ensures old(batchSize) < 0 ==>
                batchSize == old(batchSize) && singleRequest == old(singleRequest) && requestArray == old(requestArray)
    {
      if batchSize < 0 {
      } else if batchSize == 0 {
        batchSize := 1;
        singleRequest := req;
      } else if batchSize == 1 {
        batchSize := batchSize + 1;
        requestArray := new Request[batchSize];
        requestArray[0] := singleRequest;
        requestArray[1] := req;
        singleRequest := REQUEST_NULL;
        assert requestArray[..] == [requestArray[0], requestArray[1]];
      } else {
        batchSize := batchSize + 1;
        var grown := new Request[batchSize];
        for i := 0 to batchSize - 1
          invariant batchSize == old(batchSize) + 1 && requestArray == old(requestArray)
          invariant singleRequest == old(singleRequest)
          invariant grown[..i] == requestArray[..i]
        {
          grown[i] := requestArray[i];
        }
        grown[batchSize - 1] := req;
        assert grown[..] == grown[..batchSize - 1] + [req];
        requestArray := grown;
      }
    }

    /** PARMCI_Wait. */
    method Wait(mpi: Mpi)
      requires Valid()
      modifies this, mpi
      ensures Valid() && Requests() == [] && Requests() == Kept(old(Requests()), WaitCall)
      ensures mpi.done == old(mpi.done) + set r | r in old(Requests())
      ensures old(batchSize) > 0 ==> batchSize == 0 && requestArray == null
      ensures old(batchSize) <= 0 ==> batchSize == old(batchSize) && requestArray == old(requestArray)
    {
      if batchSize == 1 {
        mpi.WaitAll([singleRequest]);
        batchSize, singleRequest, requestArray := 0, REQUEST_NULL, null;
      } else if batchSize > 1 {
        mpi.WaitAll(requestArray[..batchSize]);
        batchSize, singleRequest, requestArray := 0, REQUEST_NULL, null;
      }
    }

    /** PARMCI_Test: zero when the handle's requests were all complete, and then it is empty; one when
        they were not, or when there were none. */
    method Test(mpi: Mpi) returns (result: int)
      requires Valid()
      modifies this
      ensures Valid() && (result == 0 || result == 1)
      ensures result == 0 <==> old(Requests()) != [] && forall r :: r in old(Requests()) ==> r in mpi.done
      ensures result == 0 ==> Requests() == [] && batchSize == 0 && requestArray == null
      ensures result == 1 ==>
                batchSize == old(batchSize) && requestArray == old(requestArray) && Requests() == old(Requests())
      ensures Requests() == Kept(old(Requests()), TestCall(mpi.done))
    {
      var flag := false;
      if batchSize == 1 {
        flag := mpi.TestAll([singleRequest]);
        if flag { batchSize, singleRequest, requestArray := 0, REQUEST_NULL, null; }
      } else if batchSize > 1 {
        flag := mpi.TestAll(requestArray[..batchSize]);
        if flag { batchSize, singleRequest, requestArray := 0, REQUEST_NULL, null; }
      }
      result := if flag then 0 else 1;
    }
  }

  // ----- Over a whole run

  /** A call on an initialized handle; a test comes with the requests that are complete by then. */
  datatype Call = AddCall(req: Request) | WaitCall | TestCall(done: set<Request>)

  /** What a call leaves in the handle. */
  ghost function Kept(rs: seq<Request>, c: Call): seq<Request> {
    match c
    case AddCall(req) => rs + [req]
    case WaitCall => []
    case TestCall(done) => if rs != [] && (forall r :: r in rs ==> r in done) then [] else rs
  }

  ghost function KeptAll(calls: seq<Call>): seq<Request> {
    if calls == [] then [] else Kept(KeptAll(calls[..|calls| - 1]), calls[|calls| - 1])
  }

  ghost function Added(calls: seq<Call>): seq<Request> {
    if calls == [] then []
    else Added(calls[..|calls| - 1]) + NewRequest(calls[|calls| - 1])
  }

  ghost function LastEmpty(calls: seq<Call>): nat {
    if calls == [] then 0 else if KeptAll(calls) == [] then |calls| else LastEmpty(calls[..|calls| - 1])
  }

  /** What is there is what was added since it was last empty. */
  lemma {:induction false} HoldsSinceEmpty(calls: seq<Call>)
    ensures LastEmpty(calls) <= |calls| && KeptAll(calls[..LastEmpty(calls)]) == []
    ensures Added(calls) == Added(calls[..LastEmpty(calls)]) + KeptAll(calls)
  {
    if calls == [] || KeptAll(calls) == [] {
      assert calls[..|calls|] == calls;
    } else {
      var k := |calls| - 1;
      var before, e := calls[..k], LastEmpty(calls[..k]);
      HoldsSinceEmpty(before);
      assert before[..e] == calls[..e];
    }
  }

  /** A request that left a handle, and what MPI had completed at that moment. */
  datatype Departure = Departure(req: Request, done: set<Request>)

  ghost function Departed(log: seq<Departure>): (r: seq<Request>)
    ensures |r| == |log| && forall i :: 0 <= i < |log| ==> r[i] == log[i].req
  {
    seq(|log|, i requires 0 <= i < |log| => log[i].req)
  }

  ghost function Departing(rs: seq<Request>, done: set<Request>): (log: seq<Departure>)
    ensures |log| == |rs| && forall i :: 0 <= i < |rs| ==> log[i] == Departure(rs[i], done)
  {
    seq(|rs|, i requires 0 <= i < |rs| => Departure(rs[i], done))
  }

  /** The calls as they happened: before a test MPI may have completed more than the run asks for. */
  ghost predicate Happened(calls: seq<Call>, trace: seq<Call>) {
    |calls| == |trace| && forall i :: 0 <= i < |calls| ==> As(calls[i], trace[i])
  }

  ghost predicate As(c: Call, t: Call) {
    if c.TestCall? then t.TestCall? && c.done <= t.done else t == c
  }

  ghost function NewRequest(c: Call): seq<Request> { if c.AddCall? then [c.req] else [] }

  lemma {:induction false} SameAdded(calls: seq<Call>, trace: seq<Call>)
    requires Happened(calls, trace)
    ensures Added(calls) == Added(trace)
  {
    if calls != [] {
      var k := |calls| - 1;
      SameAdded(calls[..k], trace[..k]);
      assert As(calls[k], trace[k]);
    }
  }

  ghost predicate Played(calls: seq<Call>, trace: seq<Call>, log: seq<Departure>, left: seq<Request>) {
    && Happened(calls, trace) && left == KeptAll(trace)
    && Departed(log) + left == Added(calls)
    && forall i :: 0 <= i < |log| ==> log[i].req in log[i].done
  }

  /** One call more: `before` was in the handle, `left` is now, `gone` was taken out. */
  lemma {:induction false} PlayedNext(calls: seq<Call>, trace: seq<Call>, log: seq<Departure>, before: seq<Request>,
                                      c: Call, t: Call, gone: seq<Departure>, left: seq<Request>)
    requires Played(calls, trace, log, before) && left == Kept(before, t) && As(c, t)
    requires Departed(gone) + left == before + NewRequest(c)
    requires forall i :: 0 <= i < |gone| ==> gone[i].req in gone[i].done
    ensures Played(calls + [c], trace + [t], log + gone, left)
  {
    KeptNext(trace, t);
    AddedNext(calls, c);
    DepartedConcat(log, gone);
    Regroup(Departed(log), Departed(gone), left, before, NewRequest(c));
  }

  lemma {:induction false} KeptNext(trace: seq<Call>, t: Call)
    ensures KeptAll(trace + [t]) == Kept(KeptAll(trace), t)
  {
    var ts := trace + [t];
    assert ts[..|ts| - 1] == trace;
  }

  lemma {:induction false} DepartedConcat(a: seq<Departure>, b: seq<Departure>)
    ensures Departed(a + b) == Departed(a) + Departed(b)
  {
  }

  lemma {:induction false} AddedNext(calls: seq<Call>, c: Call)
    ensures Added(calls + [c]) == Added(calls) + NewRequest(c)
  {
    var cs := calls + [c];
    assert cs[..|cs| - 1] == calls;
  }

  lemma {:induction false} Regroup(a: seq<Request>, b: seq<Request>, c: seq<Request>, d: seq<Request>, e: seq<Request>)
    requires b + c == d + e
    ensures (a + b) + c == (a + d) + e
  {
    assert (a + b) + c == a + (b + c) && (a + d) + e == a + (d + e);
  }

  /** Any run of calls on a fresh handle. No request is lost and none leaves twice: those that left, in
      order, followed by those still there are those that were added; each was complete when it left;
      and the handle stands for what was added since it was last empty. */
  method Play(h: Handle, mpi: Mpi, calls: seq<Call>) returns (ghost trace: seq<Call>, ghost log: seq<Departure>)
    requires h.Valid() && h.batchSize == 0
    requires forall i :: 0 <= i < |calls| && calls[i].AddCall? ==> calls[i].req != REQUEST_NULL
    modifies h, mpi
    ensures h.Valid() && h.batchSize == |h.Requests()| && Happened(calls, trace)
    ensures Departed(log) + h.Requests() == Added(calls)
    ensures forall i :: 0 <= i < |log| ==> log[i].req in log[i].done && log[i].req in mpi.done
    ensures h.Requests() == KeptAll(trace)
    ensures LastEmpty(trace) <= |calls| && Added(calls) == Added(calls[..LastEmpty(trace)]) + h.Requests()
  {
    trace, log := [], [];
    for i := 0 to |calls|
      invariant h.Valid() && h.batchSize == |h.Requests()| && Played(calls[..i], trace, log, h.Requests())
      invariant forall j :: 0 <= j < |log| ==> log[j].done <= mpi.done
    {
      ghost var t, gone := PlayOne(h, mpi, calls[i]);
      PlayedNext(calls[..i], trace, log, KeptAll(trace), calls[i], t, gone, h.Requests());
      trace, log := trace + [t], log + gone;
      assert calls[..i + 1] == calls[..i] + [calls[i]];
    }
    assert calls[..|calls|] == calls;
    HoldsSinceEmpty(trace);
    SameAdded(calls, trace);
    SameAdded(calls[..LastEmpty(trace)], trace[..LastEmpty(trace)]);
  }

  method PlayOne(h: Handle, mpi: Mpi, c: Call) returns (ghost t: Call, ghost gone: seq<Departure>)
    requires h.Valid() && h.batchSize == |h.Requests()| && (c.AddCall? ==> c.req != REQUEST_NULL)
    modifies h, mpi
    ensures h.Valid() && h.batchSize == |h.Requests()|
    ensures As(c, t)
    ensures h.Requests() == Kept(old(h.Requests()), t)
    ensures Departed(gone) + h.Requests() == old(h.Requests()) + NewRequest(c)
    ensures old(mpi.done) <= mpi.done
    ensures forall i :: 0 <= i < |gone| ==> gone[i].req in gone[i].done && gone[i].done <= mpi.done
  {
    ghost var before := h.Requests();
    t, gone := c, [];
    match c {
      case AddCall(req) =>
        h.Add(req);
      case WaitCall =>
        h.Wait(mpi);
        gone := Departing(before, mpi.done);
      case TestCall(done) =>
        mpi.Progress(done);
        t := TestCall(mpi.done);
        var result := h.Test(mpi);
        if result == 0 { gone := Departing(before, mpi.done); }
    }
  }
}

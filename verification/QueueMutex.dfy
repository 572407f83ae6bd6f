/** src/mutex_hdl_queue.c: mutexes as byte vectors.

    Mutex (num, home) is a vector of one byte per process, in the window number num of process
    home.  Locking and unlocking each make one exclusive epoch, which is atomic (section 11.5.3 of
    MPI 3.1): it writes the caller's byte and reads all others.  A process that finds another byte
    set waits for a zero-byte message; a process that unlocks sends one to the next set byte to
    its right. */
module QueueMutex {
  import opened Options

  type byte = x: int | 0 <= x < 256

  const MUTEX_TAG := 100

  // ----- The loops over the local copy of the vector

  /** Some process other than rank has its byte set. */
  predicate OthersSet(buf: seq<byte>, rank: nat) {
    exists i :: 0 <= i < |buf| && i != rank && buf[i] != 0
  }

  /** The process the scan starting i places to the right of rank settles on. */
  function NextFrom(buf: seq<byte>, rank: nat, i: nat): Option<nat>
    decreases |buf| - i
  {
    if i >= |buf| then None
    else if buf[(rank + i) % |buf|] == 1 then Some((rank + i) % |buf|)
    else NextFrom(buf, rank, i + 1)
  }

  function NextWaiter(buf: seq<byte>, rank: nat): Option<nat> { NextFrom(buf, rank, 1) }

  /** How far b is to the right of a, going round n places. */
  function Distance(a: nat, b: nat, n: nat): nat
    requires a < n && b < n
  {
    if a <= b then b - a else b + n - a
  }

  lemma {:induction false} DistanceInverse(a: nat, i: nat, n: nat)
    requires a < n && i < n
    ensures (a + i) % n < n && Distance(a, (a + i) % n, n) == i
    ensures (a + i) % n == if a + i < n then a + i else a + i - n
  {
    var x := a + i;
    var q := x / n;
    assert x == n * q + x % n;
    assert q >= 2 ==> n * q >= 2 * n;
    assert q <= 0 ==> n * q <= 0;
    assert q == 1 ==> n * q == n;
  }

  lemma {:induction false} NextFromMeaning(buf: seq<byte>, rank: nat, i: nat)
    requires rank < |buf| && 1 <= i
    ensures var t := NextFrom(buf, rank, i);
      match t
      case None => forall q :: 0 <= q < |buf| && Distance(rank, q, |buf|) >= i ==> buf[q] != 1
      case Some(p) =>
        && p < |buf| && buf[p] == 1 && Distance(rank, p, |buf|) >= i
        && (forall q :: 0 <= q < |buf| && i <= Distance(rank, q, |buf|) < Distance(rank, p, |buf|) ==> buf[q] != 1)
    decreases |buf| - i
  {
    if i < |buf| {
      DistanceInverse(rank, i, |buf|);
      var p := (rank + i) % |buf|;
      if buf[p] != 1 {
        NextFromMeaning(buf, rank, i + 1);
        forall q | 0 <= q < |buf| && Distance(rank, q, |buf|) == i ensures q == p {}
      }
    }
  }

  /** Notification goes to the nearest set byte on the right: None exactly when no other byte is
      set, and no set byte lies between the releasing process and the one it notifies. */
  lemma {:induction false} NextWaiterIsNearest(buf: seq<byte>, rank: nat)
    requires rank < |buf|
    ensures match NextWaiter(buf, rank)
      case None => forall q :: 0 <= q < |buf| && q != rank ==> buf[q] != 1
      case Some(p) =>
        && p < |buf| && p != rank && buf[p] == 1
        && forall q :: 0 <= q < |buf| && q != rank && buf[q] == 1 ==>
             Distance(rank, p, |buf|) <= Distance(rank, q, |buf|)
  {
    NextFromMeaning(buf, rank, 1);
    forall q | 0 <= q < |buf| && q != rank ensures Distance(rank, q, |buf|) >= 1 {}
  }

  /** The exclusive epoch of both calls: put one byte, get the bytes to its left and right. */
  method Epoch(window: array<byte>, rank: nat, value: byte) returns (buf: array<byte>)
    requires rank < window.Length
    modifies window
    ensures window[..] == old(window[..])[rank := value] && buf[..] == window[..] && fresh(buf)
  {
    var nproc := window.Length;
    buf := new byte[nproc];
    buf[rank] := value;
    window[rank] := buf[rank];
    if rank > 0 {
      for i := 0 to rank
        modifies buf
        invariant forall j :: 0 <= j < i || j == rank ==> buf[j] == window[j]
      {
        buf[i] := window[i];
      }
    }
    if rank < nproc - 1 {
      for i := rank + 1 to nproc
        modifies buf
        invariant forall j :: 0 <= j < i ==> buf[j] == window[j]
      {
        buf[i] := window[i];
      }
    }
  }

  /** ARMCIX_Lock_hdl up to the decision whether to wait. */
  method LockEpoch(window: array<byte>, rank: nat) returns (alreadyLocked: bool)
    requires rank < window.Length
    modifies window
    ensures window[..] == old(window[..])[rank := 1]
    ensures alreadyLocked == OthersSet(window[..], rank)
  {
    var buf := Epoch(window, rank, 1);
    assert buf[..][rank] == 1;
    alreadyLocked := false;
    for i := 0 to buf.Length
      invariant alreadyLocked == exists j :: 0 <= j < i && j != rank && buf[j] != 0
    {
      if buf[i] != 0 && i != rank {
        alreadyLocked := true;
      }
    }
    assert window[..] == buf[..];
  }

  /** ARMCIX_Unlock_hdl up to the choice of the process to notify. */
  method UnlockEpoch(window: array<byte>, rank: nat) returns (target: Option<nat>)
    requires rank < window.Length
    modifies window
    ensures window[..] == old(window[..])[rank := 0]
    ensures target == NextWaiter(window[..], rank)
  {
    var buf := Epoch(window, rank, 0);
    assert buf[..][rank] == 0;
    ghost var b := buf[..];
    var nproc := buf.Length;
    for i := 1 to nproc
      invariant NextWaiter(b, rank) == NextFrom(b, rank, i)
    {
      var p := (rank + i) % nproc;
      if buf[p] == 1 {
        return Some(p);
      }
    }
    target := None;
  }
}

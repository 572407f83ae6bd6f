/** The list of shared memory regions (src/gmr.c): append, remove, lookup, and the agreement that a
    collective gmr_destroy reaches. */
module RegionList {
  import opened Options
  import Rma

  /** What one process contributes to a region. */
  datatype Slice = Slice(base: int, size: nat)

  predicate Contains(s: Slice, ptr: int) { s.base <= ptr < s.base + s.size }

  /** A region as every member knows it: one slice for each process. */
  datatype Region = Region(id: nat, slices: seq<Slice>)

  /** What it means that an address on proc belongs to a region: it is one of the slice's bytes. */
  ghost predicate Covers(r: Region, ptr: int, proc: nat) {
    proc < |r.slices| && ptr in Rma.Extent(r.slices[proc].base, r.slices[proc].size)
  }

  /** The comparisons of gmr_lookup pick out exactly the slice's bytes. */
  lemma {:induction false} ContainsIsExtent(s: Slice, ptr: int)
    ensures Contains(s, ptr) <==> ptr in Rma.Extent(s.base, s.size)
  {
  }

  /** No address on proc belongs to two regions. */
  ghost predicate DisjointOn(regions: seq<Region>, proc: nat) {
    forall i, j, ptr :: 0 <= i < j < |regions| && Covers(regions[i], ptr, proc) ==> !Covers(regions[j], ptr, proc)
  }

  /** The first region that covers an address. */
  function Find(regions: seq<Region>, ptr: int, proc: nat): (r: Option<Region>)
    ensures r.Some? ==> r.value in regions && Covers(r.value, ptr, proc)
    ensures r.None? ==> forall x :: x in regions ==> !Covers(x, ptr, proc)
  {
    if regions == [] then None
    else if proc < |regions[0].slices| && Contains(regions[0].slices[proc], ptr) then Some(regions[0])
    else Find(regions[1..], ptr, proc)
  }

  /** With disjoint slices the first region that covers an address is the only one. */
  lemma {:induction false} FindUnique(regions: seq<Region>, ptr: int, proc: nat, i: nat)
    requires DisjointOn(regions, proc) && i < |regions| && Covers(regions[i], ptr, proc)
    ensures Find(regions, ptr, proc) == Some(regions[i])
  {
    if i > 0 {
      assert !Covers(regions[0], ptr, proc);
      DisjointTail(regions, proc);
      FindUnique(regions[1..], ptr, proc, i - 1);
    }
  }

  /** Slices end where they end: the last byte of a slice is found in its region, the address one past it
      never; that is found in the region whose slice starts there, and in none when no region covers it. */
  lemma {:induction false} SliceEnds(regions: seq<Region>, proc: nat, i: nat)
    requires DisjointOn(regions, proc) && i < |regions| && proc < |regions[i].slices|
    ensures var s := regions[i].slices[proc];
            && (s.size > 0 ==> Find(regions, s.base + s.size - 1, proc) == Some(regions[i]))
            && Find(regions, s.base + s.size, proc) != Some(regions[i])
            && (forall j :: 0 <= j < |regions| && proc < |regions[j].slices| && regions[j].slices[proc].size > 0
                            && regions[j].slices[proc].base == s.base + s.size ==>
                  Find(regions, s.base + s.size, proc) == Some(regions[j]))
  {
    var s := regions[i].slices[proc];
    if s.size > 0 { FindUnique(regions, s.base + s.size - 1, proc, i); }
    forall j | 0 <= j < |regions| && proc < |regions[j].slices| && regions[j].slices[proc].size > 0
               && regions[j].slices[proc].base == s.base + s.size
      ensures Find(regions, s.base + s.size, proc) == Some(regions[j])
    {
      FindUnique(regions, s.base + s.size, proc, j);
    }
  }

  lemma {:induction false} DisjointTail(regions: seq<Region>, proc: nat)
    requires regions != [] && DisjointOn(regions, proc)
    ensures DisjointOn(regions[1..], proc)
  {
    var t := regions[1..];
    forall i, j, ptr | 0 <= i < j < |t| && Covers(t[i], ptr, proc) ensures !Covers(t[j], ptr, proc) {
      assert t[i] == regions[i + 1] && t[j] == regions[j + 1];
    }
  }

  // ----- The doubly linked list of one process

  class Gmr {
    var prev: Gmr?
    var next: Gmr?
    const region: Region

    constructor (region: Region)
      ensures this.region == region && prev == null && next == null
    {
      this.region, prev, next := region, null, null;
    }
  }

  ghost function Regions(s: seq<Gmr>): (r: seq<Region>)
    ensures |r| == |s| && forall i :: 0 <= i < |s| ==> r[i] == s[i].region
  {
    seq(|s|, i requires 0 <= i < |s| => s[i].region)
  }

  ghost function At(s: seq<Gmr>, i: int): Gmr? { if 0 <= i < |s| then s[i] else null }

  ghost predicate Linked(s: seq<Gmr>, head: Gmr?)
    reads s
  {
    && head == At(s, 0)
    && (forall i, j :: 0 <= i < j < |s| ==> s[i] != s[j])
    && (forall i {:trigger s[i].prev} :: 0 <= i < |s| ==> s[i].prev == At(s, i - 1))
    && (forall i {:trigger s[i].next} :: 0 <= i < |s| ==> s[i].next == At(s, i + 1))
  }

  ghost function Drop(s: seq<Gmr>, x: Gmr): seq<Gmr> {
    if s == [] then [] else if s[0] == x then s[1..] else [s[0]] + Drop(s[1..], x)
  }

  lemma {:induction false} DropAt(s: seq<Gmr>, k: nat)
    requires k < |s| && forall i, j :: 0 <= i < j < |s| ==> s[i] != s[j]
    ensures Drop(s, s[k]) == s[..k] + s[k + 1..]
  {
    if k > 0 {
      DropAt(s[1..], k - 1);
      assert s[1..][k - 1] == s[k] && [s[0]] + s[1..][..k - 1] == s[..k] && s[1..][k..] == s[k + 1..];
    }
  }

  lemma {:induction false} AtDrop(s: seq<Gmr>, k: nat, i: int)
    requires k < |s|
    ensures At(s[..k] + s[k + 1..], i) == At(s, if i < k then i else i + 1)
  {
  }

  /** The neighbours of entry k point past it. */
  ghost predicate Bypassed(s: seq<Gmr>, k: nat)
    requires k < |s|
    reads s
  {
    && (forall i {:trigger s[i].prev} :: 0 <= i < |s| ==> s[i].prev == At(s, if i == k + 1 then k - 1 else i - 1))
    && (forall i {:trigger s[i].next} :: 0 <= i < |s| ==> s[i].next == At(s, if i == k - 1 then k + 1 else i + 1))
  }

  lemma {:induction false} BypassedAt(s: seq<Gmr>, k: nat, i: nat)
    requires k < |s| && Bypassed(s, k) && i < |s| - 1
    ensures var t := s[..k] + s[k + 1..]; t[i].prev == At(t, i - 1) && t[i].next == At(t, i + 1)
  {
    var t := s[..k] + s[k + 1..];
    AtDrop(s, k, i - 1);
    AtDrop(s, k, i + 1);
    if i < k {
      assert t[i] == s[i] && s[i].prev == At(s, i - 1);
      assert s[i].next == At(s, if i == k - 1 then k + 1 else i + 1);
    } else {
      assert t[i] == s[i + 1];
      assert s[i + 1].prev == At(s, if i == k then k - 1 else i);
      assert s[i + 1].next == At(s, i + 2);
    }
  }

  lemma {:induction false} BypassedIsLinked(s: seq<Gmr>, k: nat)
    requires k < |s| && Bypassed(s, k) && forall i, j :: 0 <= i < j < |s| ==> s[i] != s[j]
    ensures Linked(s[..k] + s[k + 1..], At(s[..k] + s[k + 1..], 0))
  {
    var t := s[..k] + s[k + 1..];
    forall i {:trigger t[i].prev} {:trigger t[i].next} | 0 <= i < |t|
      ensures t[i].prev == At(t, i - 1) && t[i].next == At(t, i + 1)
    {
      BypassedAt(s, k, i);
    }
    forall i, j | 0 <= i < j < |t| ensures t[i] != t[j] {
      assert t[i] == s[if i < k then i else i + 1] && t[j] == s[if j < k then j else j + 1];
    }
  }

  class RegionList {
    var head: Gmr?              // gmr_list
    ghost var list: seq<Gmr>

    ghost predicate Valid()
      reads this, list
    {
      Linked(list, head)
    }

    constructor ()
      ensures Valid() && list == []
    {
      head, list := null, [];
    }

    method Tail() returns (parent: Gmr)
      requires Valid() && head != null
      ensures list != [] && parent == list[|list| - 1]
    {
      parent := head;
      ghost var k := 0;
      while parent.next != null
        invariant 0 <= k < |list| && parent == list[k]
        decreases |list| - k
      {
        parent := parent.next;
        k := k + 1;
      }
    }

    /** The entry at position k. */
    method Nth(k: nat) returns (mreg: Gmr)
      requires Valid() && k < |list|
      ensures mreg == list[k]
    {
      mreg := head;
      for i := 0 to k
        invariant mreg == list[i]
      {
        mreg := mreg.next;
      }
    }

    /** The append at the end of gmr_create. */
    method Append(mreg: Gmr)
      requires Valid() && mreg !in list && mreg.prev == null && mreg.next == null
      modifies this, list, mreg
      ensures Valid() && list == old(list) + [mreg]
    {
      if head == null {
        assert list == [];
        head := mreg;
        list := [mreg];
      } else {
        var parent := Tail();
        ghost var s, n := list, |list|;
        parent.next := mreg;
        mreg.prev := parent;
        list := list + [mreg];
        forall i | 0 <= i <= n ensures list[i].prev == At(list, i - 1) && list[i].next == At(list, i + 1) {
          if i < n { assert list[i] == s[i] && s[i] != mreg; }
        }
      }
    }

    /** The unlinking in gmr_destroy: only the neighbours change. */
    method Unlink(mreg: Gmr, ghost k: nat)
      requires Valid() && k < |list| && list[k] == mreg
      modifies this`head, list
      ensures head == if k == 0 then At(list, 1) else old(head)
      ensures Bypassed(list, k)
    {
      if mreg.prev == null {
        assert head == mreg;
        head := mreg.next;
        if mreg.next != null {
          mreg.next.prev := null;
        }
      } else {
        mreg.prev.next := mreg.next;
        if mreg.next != null {
          mreg.next.prev := mreg.prev;
        }
      }
    }

    method RemoveAt(mreg: Gmr, ghost k: nat)
      requires Valid() && k < |list| && list[k] == mreg
      modifies this, list
      ensures Valid() && list == old(list[..k] + list[k + 1..])
    {
      ghost var s := list;
      Unlink(mreg, k);
      BypassedIsLinked(s, k);
      AtDrop(s, k, 0);
      list := s[..k] + s[k + 1..];
    }

    method Remove(mreg: Gmr)
      requires Valid() && mreg in list
      modifies this, list
      ensures Valid() && list == Drop(old(list), mreg)
    {
      ghost var k :| 0 <= k < |list| && list[k] == mreg;
      DropAt(list, k);
      RemoveAt(mreg, k);
    }

    /** What gmr_destroy does on one process once the group has agreed on searchProcOut and on
        searchBase: `gone` is null when there is nothing to free or the region is not found. */
    method Destroy(mreg: Gmr?, searchProcOut: int, searchBase: int) returns (gone: Gmr?)
      requires Valid() && (mreg != null ==> mreg in list) && forall g :: g in list ==> searchProcOut < |g.region.slices|
      modifies this, list
      ensures Valid()
      ensures searchProcOut < 0 ==> gone == null
      ensures searchProcOut >= 0 && mreg != null ==> gone == mreg
      ensures searchProcOut >= 0 && mreg == null ==>
                (if gone == null then None else Some(gone.region)) ==
                Find(Regions(old(list)), searchBase, searchProcOut)
      ensures gone == null ==> list == old(list)
      ensures gone != null ==> gone in old(list) && list == Drop(old(list), gone)
    {
      gone := mreg;
      if searchProcOut < 0 { return null; }
      if gone == null { gone := Lookup(searchBase, searchProcOut); }
      if gone != null { Remove(gone); }
    }

    /** gmr_lookup. */
    method Lookup(ptr: int, proc: nat) returns (mreg: Gmr?)
      requires Valid() && forall g :: g in list ==> proc < |g.region.slices|
      ensures mreg == null <==> Find(Regions(list), ptr, proc) == None
      ensures mreg != null ==> mreg in list && Find(Regions(list), ptr, proc) == Some(mreg.region)
      ensures mreg != null ==> var s := mreg.region.slices[proc]; s.base <= ptr < s.base + s.size
      ensures mreg == null ==>
                forall g :: g in list ==> var s := g.region.slices[proc]; !(s.base <= ptr < s.base + s.size)
    {
      mreg := head;
      ghost var k := 0;
      ghost var all := Regions(list);
      assert all[0..] == all;
      while mreg != null
        invariant 0 <= k <= |list| && mreg == At(list, k)
        invariant Find(all, ptr, proc) == Find(all[k..], ptr, proc)
        invariant forall i :: 0 <= i < k ==> !Contains(list[i].region.slices[proc], ptr)
        decreases |list| - k
      {
        assert all[k..][0] == mreg.region && all[k..][1..] == all[k + 1..];
        if Contains(mreg.region.slices[proc], ptr) {
          break;
        }
        mreg := mreg.next;
        k := k + 1;
      }
    }
  }

  // ----- Runs of creates and destroys

  /** Creating a region whose slices are new ground, and destroying any region, keep slices disjoint. */
  lemma {:induction false} DisjointAppend(regions: seq<Region>, r: Region, proc: nat)
    requires DisjointOn(regions, proc)
    requires forall x, ptr :: x in regions && Covers(x, ptr, proc) ==> !Covers(r, ptr, proc)
    ensures DisjointOn(regions + [r], proc)
  {
    var t := regions + [r];
    forall i, j, ptr | 0 <= i < j < |t| && Covers(t[i], ptr, proc) ensures !Covers(t[j], ptr, proc) {
      assert t[i] == regions[i] && regions[i] in regions;
      if j < |regions| { assert t[j] == regions[j]; }
    }
  }

  lemma {:induction false} DisjointRemove(regions: seq<Region>, k: nat, proc: nat)
    requires DisjointOn(regions, proc) && k < |regions|
    ensures DisjointOn(regions[..k] + regions[k + 1..], proc)
  {
    var t := regions[..k] + regions[k + 1..];
    forall i, j, ptr | 0 <= i < j < |t| && Covers(t[i], ptr, proc) ensures !Covers(t[j], ptr, proc) {
      assert t[i] == regions[if i < k then i else i + 1] && t[j] == regions[if j < k then j else j + 1];
    }
  }

  datatype Event = Create(r: Region) | Destroy(k: nat)

  /** A new region takes only addresses that no live region has. */
  ghost predicate CanHappen(regions: seq<Region>, e: Event) {
    match e
    case Create(r) => forall x, ptr, proc: nat :: x in regions && Covers(x, ptr, proc) ==> !Covers(r, ptr, proc)
    case Destroy(k) => k < |regions|
  }

  ghost function Happen(regions: seq<Region>, e: Event): seq<Region>
    requires CanHappen(regions, e)
  {
    match e
    case Create(r) => regions + [r]
    case Destroy(k) => regions[..k] + regions[k + 1..]
  }

  ghost predicate IsHistory(regions: seq<Region>, events: seq<Event>)
    decreases |events|
  {
    events == [] || (CanHappen(regions, events[0]) && IsHistory(Happen(regions, events[0]), events[1..]))
  }

  ghost function AfterAll(regions: seq<Region>, events: seq<Event>): seq<Region>
    requires IsHistory(regions, events)
    decreases |events|
  {
    if events == [] then regions else AfterAll(Happen(regions, events[0]), events[1..])
  }

  lemma {:induction false} HistoryKeepsDisjoint(regions: seq<Region>, events: seq<Event>, proc: nat)
    requires IsHistory(regions, events) && DisjointOn(regions, proc)
    ensures DisjointOn(AfterAll(regions, events), proc)
    decreases |events|
  {
    if events != [] {
      match events[0] {
        case Create(r) => DisjointAppend(regions, r, proc);
        case Destroy(k) => DisjointRemove(regions, k, proc);
      }
      HistoryKeepsDisjoint(Happen(regions, events[0]), events[1..], proc);
    }
  }

  /** After any creates and destroys, a lookup finds a region exactly when one covers the address, and
      then it is the only one. */
  lemma {:induction false} LookupAfterHistory(events: seq<Event>, ptr: int, proc: nat, i: nat)
    requires IsHistory([], events) && i < |AfterAll([], events)|
    ensures Covers(AfterAll([], events)[i], ptr, proc) ==>
              Find(AfterAll([], events), ptr, proc) == Some(AfterAll([], events)[i])
    ensures Find(AfterAll([], events), ptr, proc).None? ==> !Covers(AfterAll([], events)[i], ptr, proc)
  {
    var regions := AfterAll([], events);
    HistoryKeepsDisjoint([], events, proc);
    if Covers(regions[i], ptr, proc) { FindUnique(regions, ptr, proc, i); }
  }

  lemma {:induction false} RegionsWithout(s: seq<Gmr>, k: nat)
    requires k < |s|
    ensures Regions(s[..k] + s[k + 1..]) == Regions(s)[..k] + Regions(s)[k + 1..]
  {
  }

  lemma {:induction false} AfterPrefix(regions: seq<Region>, events: seq<Event>, i: nat)
    requires IsHistory(regions, events) && i < |events|
    ensures IsHistory(regions, events[..i]) && CanHappen(AfterAll(regions, events[..i]), events[i])
    ensures IsHistory(regions, events[..i + 1])
    ensures AfterAll(regions, events[..i + 1]) == Happen(AfterAll(regions, events[..i]), events[i])
    decreases i
  {
    if i == 0 {
      assert events[..1] == [events[0]] && events[..1][1..] == [];
    } else {
      var r := Happen(regions, events[0]);
      AfterPrefix(r, events[1..], i - 1);
      assert events[..i][1..] == events[1..][..i - 1] && events[..i + 1][1..] == events[1..][..i];
    }
  }

  ghost function Elements(s: seq<Gmr>): set<Gmr> { set g | g in s }

  method ReplayOne(l: RegionList, e: Event)
    requires l.Valid() && CanHappen(Regions(l.list), e)
    modifies l, Elements(l.list)
    ensures l.Valid() && Regions(l.list) == Happen(old(Regions(l.list)), e)
    ensures fresh(Elements(l.list) - old(Elements(l.list)))
  {
    ghost var s := l.list;
    match e {
      case Create(r) =>
        var mreg := new Gmr(r);
        l.Append(mreg);
        assert Regions(s + [mreg]) == Regions(s) + [r];
      case Destroy(k) =>
        var mreg := l.Nth(k);
        l.Remove(mreg);
        DropAt(s, k);
        RegionsWithout(s, k);
    }
  }

  /** Creates and destroys on the heap, one after the other: the list holds what the history says. */
  method Replay(l: RegionList, events: seq<Event>)
    requires l.Valid() && l.list == [] && IsHistory([], events)
    modifies l
    ensures l.Valid() && Regions(l.list) == AfterAll([], events)
  {
    for i := 0 to |events|
      invariant l.Valid() && fresh(Elements(l.list)) && IsHistory([], events[..i])
      invariant Regions(l.list) == AfterAll([], events[..i])
    {
      AfterPrefix([], events, i);
      ReplayOne(l, events[i]);
    }
    assert events[..|events|] == events;
  }

  /** After any creates and destroys on the heap list, a lookup finds the only region that covers the
      address, and null exactly when none does. */
  method LookupAfterReplay(l: RegionList, events: seq<Event>, ptr: int, proc: nat) returns (mreg: Gmr?)
    requires l.Valid() && l.list == [] && IsHistory([], events)
    requires forall r :: r in AfterAll([], events) ==> proc < |r.slices|
    modifies l
    ensures mreg == null <==> forall r :: r in AfterAll([], events) ==> !Covers(r, ptr, proc)
    ensures mreg != null ==> mreg in l.list && proc < |mreg.region.slices|
    ensures mreg != null ==> var s := mreg.region.slices[proc]; s.base <= ptr < s.base + s.size
    ensures mreg != null ==> forall r :: r in AfterAll([], events) && Covers(r, ptr, proc) ==> r == mreg.region
  {
    Replay(l, events);
    ghost var all := AfterAll([], events);
    forall g | g in l.list ensures proc < |g.region.slices| {
      var i :| 0 <= i < |l.list| && l.list[i] == g;
      assert Regions(l.list)[i] in all;
    }
    mreg := l.Lookup(ptr, proc);
    forall r | r in all && Covers(r, ptr, proc) ensures Find(all, ptr, proc) == Some(r) {
      var i :| 0 <= i < |all| && all[i] == r;
      LookupAfterHistory(events, ptr, proc, i);
    }
  }

  // ----- Which region a collective destroy removes

  /** MPI_Allreduce with MPI_MAX: each member contributes its world rank, or -1 when it passed NULL. */
  function SearchProc(args: seq<Option<Region>>, ranks: seq<nat>): (p: int)
    requires |args| == |ranks|
    ensures p >= -1
    ensures forall q :: 0 <= q < |args| && args[q].Some? ==> ranks[q] <= p
    ensures p >= 0 ==> exists q :: 0 <= q < |args| && args[q].Some? && ranks[q] == p
  {
    if args == [] then -1
    else
      var k := |args| - 1;
      var p := SearchProc(args[..k], ranks[..k]);
      assert p >= 0 ==> exists q :: 0 <= q < k && args[..k][q].Some? && ranks[..k][q] == p;
      if args[k].Some? && ranks[k] > p then ranks[k] else p
  }

  /** What member q removes: its own argument, or what it finds at the broadcast base. */
  ghost function Removed(lists: seq<seq<Region>>, args: seq<Option<Region>>, q: nat, base: int,
                         proc: nat): Option<Region>
    requires q < |lists| == |args|
  {
    if args[q].Some? then args[q] else Find(lists[q], base, proc)
  }

  /** Every non-NULL argument is r, and there is one; every member has r in its list; slices of live
      regions are disjoint. */
  ghost predicate Callers(lists: seq<seq<Region>>, args: seq<Option<Region>>, ranks: seq<nat>, r: Region) {
    && |lists| == |args| == |ranks|
    && (forall q :: 0 <= q < |args| && args[q].Some? ==> args[q] == Some(r))
    && (exists q :: 0 <= q < |args| && args[q].Some?)
    && (forall q :: 0 <= q < |args| ==> ranks[q] < |r.slices|)
    && (forall q :: 0 <= q < |args| ==> r in lists[q])
    && (forall q, proc :: 0 <= q < |args| && proc in ranks ==> DisjointOn(lists[q], proc))
  }

  /** All members remove the same region if and only if nobody passed NULL or the highest ranked
      caller that did not owns a nonempty slice. */
  lemma {:induction false} DestroyAgreement(lists: seq<seq<Region>>, args: seq<Option<Region>>, ranks: seq<nat>,
                                            r: Region)
    requires Callers(lists, args, ranks, r)
    ensures 0 <= SearchProc(args, ranks) < |r.slices|
    ensures var proc := SearchProc(args, ranks);
            (forall q :: 0 <= q < |args| ==> Removed(lists, args, q, r.slices[proc].base, proc) == Some(r))
            <==> (forall q :: 0 <= q < |args| ==> args[q].Some?) || r.slices[proc].size > 0
  {
    var proc := SearchProc(args, ranks);
    var top :| 0 <= top < |args| && args[top].Some?;
    assert ranks[top] <= proc;
    assert proc in ranks by {
      var o :| 0 <= o < |args| && args[o].Some? && ranks[o] == proc;
    }
    var owner :| 0 <= owner < |args| && args[owner].Some? && ranks[owner] == proc;
    var base := r.slices[proc].base;
    forall q | 0 <= q < |args| && args[q].None?
      ensures Removed(lists, args, q, base, proc) == Some(r) <==> r.slices[proc].size > 0
    {
      NullCaller(lists[q], r, base, proc);
    }
  }

  lemma {:induction false} NullCaller(list: seq<Region>, r: Region, base: int, proc: nat)
    requires proc < |r.slices| && base == r.slices[proc].base && r in list && DisjointOn(list, proc)
    ensures Find(list, base, proc) == Some(r) <==> r.slices[proc].size > 0
  {
    if r.slices[proc].size > 0 {
      var i :| 0 <= i < |list| && list[i] == r;
      FindUnique(list, base, proc, i);
    }
  }

  /** Two members, the first passes NULL: the second one's slice is empty and its base is nowhere, so
      the first finds nothing and stops. */
  lemma {:induction false} EmptySliceIsNotFound()
    ensures var r := Region(0, [Slice(1, 1), Slice(0, 0)]);
            Callers([[r], [r]], [None, Some(r)], [0, 1], r) && Removed([[r], [r]], [None, Some(r)], 0, 0, 1) == None
  {
    var r := Region(0, [Slice(1, 1), Slice(0, 0)]);
    var args: seq<Option<Region>> := [None, Some(r)];
    assert args[1].Some?;
    assert Find([r][1..], 0, 1) == None;
  }
}

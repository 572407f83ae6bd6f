/** Cells at addresses, and the remote updates that MPI may deliver in any order. */
module Memory {
  type Mem = map<int, int>

  predicate Inside(a: seq<int>, m: Mem) { forall i :: 0 <= i < |a| ==> a[i] in m }

  predicate Distinct(a: seq<int>) { forall i, j :: 0 <= i < j < |a| ==> a[i] != a[j] }

  /** The cells at the given addresses, in order. */
  function Gather(m: Mem, a: seq<int>): (v: seq<int>)
    requires Inside(a, m)
    ensures |v| == |a| && forall i :: 0 <= i < |a| ==> v[i] == m[a[i]]
  {
    seq(|a|, i requires 0 <= i < |a| => m[a[i]])
  }

  /** Store values at addresses one after the other. */
  function Scatter(m: Mem, a: seq<int>, v: seq<int>): (r: Mem)
    requires |a| == |v| && Inside(a, m)
    ensures r.Keys == m.Keys
  {
    if a == [] then m
    else Scatter(m, a[..|a| - 1], v[..|a| - 1])[a[|a| - 1] := v[|a| - 1]]
  }

  lemma {:induction false} ScatterNext(m: Mem, a: seq<int>, v: seq<int>, j: nat)
    requires |a| == |v| && Inside(a, m) && j < |a|
    ensures Inside(a[..j], m) && Inside(a[..j + 1], m)
    ensures Scatter(m, a[..j + 1], v[..j + 1]) == Scatter(m, a[..j], v[..j])[a[j] := v[j]]
  {
    assert a[..j + 1][..j] == a[..j] && v[..j + 1][..j] == v[..j];
  }

  lemma {:induction false} ScatterElsewhere(m: Mem, a: seq<int>, v: seq<int>, x: int)
    requires |a| == |v| && Inside(a, m) && x in m && x !in a
    ensures Scatter(m, a, v)[x] == m[x]
  {
    if a != [] {
      var n := |a| - 1;
      assert a[n] in a && forall y :: y in a[..n] ==> y in a;
      ScatterElsewhere(m, a[..n], v[..n], x);
    }
  }

  lemma {:induction false} ScatterInto(m: Mem, a: seq<int>, v: seq<int>, i: nat)
    requires |a| == |v| && Inside(a, m) && Distinct(a) && i < |a|
    ensures Scatter(m, a, v)[a[i]] == v[i]
  {
    var n := |a| - 1;
    if i < n {
      ScatterInto(m, a[..n], v[..n], i);
      assert a[i] != a[n];
    }
  }

  lemma {:induction false} ConcatPrefix<T>(a: seq<T>, b: seq<T>)
    requires b != []
    ensures var c := a + b; c[..|c| - 1] == a + b[..|b| - 1] && c[|c| - 1] == b[|b| - 1]
  {
  }

  lemma {:induction false} ScatterConcat(m: Mem, a: seq<int>, b: seq<int>, v: seq<int>, w: seq<int>)
    requires |a| == |v| && |b| == |w| && Inside(a, m) && Inside(b, m)
    ensures Inside(a + b, m) && Scatter(m, a + b, v + w) == Scatter(Scatter(m, a, v), b, w)
  {
    if b == [] {
      assert a + b == a && v + w == v;
    } else {
      var n := |b| - 1;
      ScatterConcat(m, a, b[..n], v, w[..n]);
      var ab, vw := a + b, v + w;
      ConcatPrefix(a, b);
      ConcatPrefix(v, w);
      assert Scatter(m, ab, vw) == Scatter(m, a + b[..n], v + w[..n])[b[n] := w[n]];
    }
  }

  /** What is stored at distinct addresses is what is read back. */
  lemma {:induction false} GatherScattered(m: Mem, a: seq<int>, v: seq<int>)
    requires |a| == |v| && Inside(a, m) && Distinct(a)
    ensures Gather(Scatter(m, a, v), a) == v
  {
    forall i | 0 <= i < |a| ensures Scatter(m, a, v)[a[i]] == v[i] { ScatterInto(m, a, v, i); }
  }

  /** Storing into m' what was read from m makes m' agree with m at those addresses and nowhere
      else, even where an address is named twice. */
  lemma {:induction false} ScatterGathered(m: Mem, m': Mem, a: seq<int>, x: int)
    requires Inside(a, m) && Inside(a, m') && x in m'
    ensures Scatter(m', a, Gather(m, a))[x] == if x in a then m[x] else m'[x]
  {
    if a != [] {
      var n := |a| - 1;
      ScatterGathered(m, m', a[..n], x);
      assert Gather(m, a)[..n] == Gather(m, a[..n]);
      assert a == a[..n] + [a[n]];
    }
  }

  /** m is m0 with the keys in `extra` added. */
  ghost predicate Extends<V>(m0: map<int, V>, m: map<int, V>, extra: set<int>) {
    m.Keys == m0.Keys + extra && m0.Keys !! extra && forall a :: a in m0 ==> m[a] == m0[a]
  }

  lemma {:induction false} ExtendsRemove<V>(m0: map<int, V>, m: map<int, V>, extra: set<int>)
    requires Extends(m0, m, extra)
    ensures m - extra == m0
  {
    var r := m - extra;
    assert forall a :: a in r <==> a in m0;
    assert forall a :: a in m0 ==> r[a] == m0[a];
    assert r == m0;
  }

  lemma {:induction false} ExtendsMore<V>(m0: map<int, V>, m: map<int, V>, m': map<int, V>, x: set<int>, y: set<int>)
    requires Extends(m0, m, x) && Extends(m, m', y)
    ensures Extends(m0, m', x + y)
  {
  }

  lemma {:induction false} ExtendsGather(m0: Mem, m: Mem, extra: set<int>, a: seq<int>)
    requires Extends(m0, m, extra) && Inside(a, m0)
    ensures Inside(a, m) && Gather(m, a) == Gather(m0, a)
  {
    forall i | 0 <= i < |a| ensures a[i] in m && m[a[i]] == m0[a[i]] {
      var x := a[i];
      assert x in m0 && x in m;
      ExtendsAt(m0, m, extra, x);
    }
  }

  lemma {:induction false} ExtendsAt<V>(m0: map<int, V>, m: map<int, V>, extra: set<int>, x: int)
    requires Extends(m0, m, extra) && x in m0
    ensures x in m && m[x] == m0[x]
  {
  }

  lemma {:induction false} ExtendsScatter(m0: Mem, m: Mem, extra: set<int>, a: seq<int>, v: seq<int>)
    requires Extends(m0, m, extra) && |a| == |v| && Inside(a, m0)
    ensures Inside(a, m) && Extends(Scatter(m0, a, v), Scatter(m, a, v), extra)
  {
    ExtendsGather(m0, m, extra, a);
    if a != [] { ExtendsScatter(m0, m, extra, a[..|a| - 1], v[..|a| - 1]); }
  }

  // ----- Pending updates

  datatype Update = Write(addr: int, value: int) | Add(addr: int, value: int)

  predicate Fits(us: seq<Update>, m: Mem) { forall i :: 0 <= i < |us| ==> us[i].addr in m }

  function Apply(m: Mem, u: Update): (r: Mem)
    requires u.addr in m
    ensures r.Keys == m.Keys
  {
    m[u.addr := if u.Write? then u.value else m[u.addr] + u.value]
  }

  function ApplyAll(m: Mem, us: seq<Update>): (r: Mem)
    requires Fits(us, m)
    ensures r.Keys == m.Keys
  {
    if us == [] then m else Apply(ApplyAll(m, us[..|us| - 1]), us[|us| - 1])
  }

  predicate Commute(u: Update, v: Update) { u.addr == v.addr ==> u.Add? && v.Add? }

  /** No two outstanding updates conflict: MPI leaves the outcome open otherwise. */
  predicate Compatible(us: seq<Update>) { forall i, j :: 0 <= i < j < |us| ==> Commute(us[i], us[j]) }

  lemma {:induction false} ApplySwap(m: Mem, u: Update, v: Update)
    requires u.addr in m && v.addr in m && Commute(u, v)
    ensures Apply(Apply(m, u), v) == Apply(Apply(m, v), u)
  {
  }

  lemma {:induction false} ApplyFirst(m: Mem, u: Update, us: seq<Update>)
    requires u.addr in m && Fits(us, m) && forall i :: 0 <= i < |us| ==> Commute(us[i], u)
    ensures ApplyAll(Apply(m, u), us) == Apply(ApplyAll(m, us), u)
  {
    if us != [] {
      var n := |us| - 1;
      ApplyFirst(m, u, us[..n]);
      ApplySwap(ApplyAll(m, us[..n]), us[n], u);
    }
  }

  function Without<T>(s: seq<T>, i: nat): seq<T>
    requires i < |s|
  {
    s[..i] + s[i + 1..]
  }

  lemma {:induction false} WithoutKeeps(us: seq<Update>, i: nat, m: Mem)
    requires Fits(us, m) && Compatible(us) && i < |us|
    ensures Fits(Without(us, i), m) && Compatible(Without(us, i))
  {
  }

  lemma {:induction false} ApplyConcat(m: Mem, us: seq<Update>, vs: seq<Update>)
    requires Fits(us, m) && Fits(vs, m)
    ensures Fits(us + vs, m) && ApplyAll(m, us + vs) == ApplyAll(ApplyAll(m, us), vs)
  {
    var all := us + vs;
    if vs == [] {
      assert all == us;
    } else {
      var n := |vs| - 1;
      ApplyConcat(m, us, vs[..n]);
      assert all[..|all| - 1] == us + vs[..n] && all[|all| - 1] == vs[n];
    }
  }

  lemma {:induction false} ApplyOne(m: Mem, us: seq<Update>, u: Update)
    requires Fits(us, m) && u.addr in m
    ensures Fits(us + [u], m) && ApplyAll(m, us + [u]) == Apply(ApplyAll(m, us), u)
  {
    var all := us + [u];
    assert all[..|all| - 1] == us && all[|all| - 1] == u;
  }

  /** Whichever pending update is delivered first, the outcome is the same. */
  lemma {:induction false} DeliverAny(m: Mem, us: seq<Update>, i: nat)
    requires Fits(us, m) && Compatible(us) && i < |us|
    ensures Fits(Without(us, i), m) && Compatible(Without(us, i))
    ensures ApplyAll(Apply(m, us[i]), Without(us, i)) == ApplyAll(m, us)
  {
    WithoutKeeps(us, i, m);
    DeliverFirst(m, us[..i], us[i], us[i + 1..], us);
  }

  lemma {:induction false} DeliverFirst(m: Mem, a: seq<Update>, u: Update, b: seq<Update>, us: seq<Update>)
    requires us == a + [u] + b && Fits(a, m) && Fits(b, m) && u.addr in m
    requires forall i :: 0 <= i < |a| ==> Commute(a[i], u)
    ensures Fits(us, m) && Fits(a + b, m) && ApplyAll(Apply(m, u), a + b) == ApplyAll(m, us)
  {
    ApplyFirst(m, u, a);
    ApplyConcat(Apply(m, u), a, b);
    ApplyOne(m, a, u);
    ApplyConcat(m, a + [u], b);
  }

  lemma {:induction false} ApplyElsewhere(m: Mem, us: seq<Update>, x: int)
    requires Fits(us, m) && x in m && forall i :: 0 <= i < |us| ==> us[i].addr != x
    ensures ApplyAll(m, us)[x] == m[x]
  {
    if us != [] { ApplyElsewhere(m, us[..|us| - 1], x); }
  }
}

/** Sums over finite maps, and counting by injections. */
module Sums {
  ghost function Total(f: map<nat, nat>): nat
    decreases |f|
  {
    if f == map[] then 0
    else
      var k :| k in f;
      assert (f - {k}).Keys == f.Keys - {k};
      f[k] + Total(f - {k})
  }

  lemma {:induction false} TotalWithout(f: map<nat, nat>, k: nat)
    requires k in f
    ensures Total(f) == f[k] + Total(f - {k})
    decreases |f|
  {
    var x :| x in f && Total(f) == f[x] + Total(f - {x});
    if x != k {
      var without := f - {x};
      assert without.Keys == f.Keys - {x};
      assert (f - {k}).Keys == f.Keys - {k};
      TotalWithout(without, k);
      TotalWithout(f - {k}, x);
      assert f - {x} - {k} == f - {k} - {x};
    }
  }

  /** `m` takes the keys of `f` to different keys of `g` with values that are not smaller. */
  ghost predicate Injected(f: map<nat, nat>, g: map<nat, nat>, m: map<nat, nat>) {
    && f.Keys <= m.Keys
    && (forall i :: i in f ==> m[i] in g && f[i] <= g[m[i]])
    && (forall i, j :: i in f && j in f && m[i] == m[j] ==> i == j)
  }

  lemma {:induction false} TotalInjected(f: map<nat, nat>, g: map<nat, nat>, m: map<nat, nat>)
    requires Injected(f, g, m)
    ensures Total(f) <= Total(g)
    decreases |f|
  {
    if f != map[] {
      var k :| k in f;
      assert (f - {k}).Keys == f.Keys - {k};
      TotalWithout(f, k);
      TotalWithout(g, m[k]);
      TotalInjected(f - {k}, g - {m[k]}, m);
    }
  }

  lemma TotalMonotone(f: map<nat, nat>, g: map<nat, nat>)
    requires forall i :: i in f ==> i in g && f[i] <= g[i]
    ensures Total(f) <= Total(g)
  {
    TotalInjected(f, g, map i | i in f :: i);
  }

  /** One more at one key. */
  lemma TotalStep(f: map<nat, nat>, g: map<nat, nat>, k: nat)
    requires f.Keys == g.Keys && k in f && g[k] == f[k] + 1 && forall i :: i in f && i != k ==> g[i] == f[i]
    ensures Total(g) == Total(f) + 1
  {
    TotalWithout(f, k);
    TotalWithout(g, k);
    assert f - {k} == g - {k};
  }

  lemma {:induction false} NothingTotal(f: map<nat, nat>)
    requires forall i :: i in f ==> f[i] == 0
    ensures Total(f) == 0
    decreases |f|
  {
    if f != map[] {
      var k :| k in f;
      assert (f - {k}).Keys == f.Keys - {k};
      TotalWithout(f, k);
      NothingTotal(f - {k});
    }
  }

  /** Values of at most one and three times what two other maps have together. */
  lemma {:induction false} TotalAtMost(f: map<nat, nat>, g: map<nat, nat>, h: map<nat, nat>)
    requires f.Keys == g.Keys == h.Keys && forall i :: i in f ==> f[i] <= 1 + 3 * g[i] + 3 * h[i]
    ensures Total(f) <= |f| + 3 * Total(g) + 3 * Total(h)
    decreases |f|
  {
    if f != map[] {
      var k :| k in f;
      assert (f - {k}).Keys == f.Keys - {k} && (g - {k}).Keys == g.Keys - {k} && (h - {k}).Keys == h.Keys - {k};
      TotalWithout(f, k);
      TotalWithout(g, k);
      TotalWithout(h, k);
      TotalAtMost(f - {k}, g - {k}, h - {k});
    }
  }

  lemma {:induction false} InjectedSet<T>(a: set<nat>, b: set<T>, m: map<nat, T>)
    requires a <= m.Keys && (forall i :: i in a ==> m[i] in b)
    requires forall i, j :: i in a && j in a && m[i] == m[j] ==> i == j
    ensures |a| <= |b|
    decreases |a|
  {
    if a != {} {
      var k :| k in a;
      InjectedSet(a - {k}, b - {m[k]}, m);
    }
  }

  lemma {:induction false} NumbersBelow(a: set<nat>, n: nat)
    requires forall i :: i in a ==> i < n
    ensures |a| <= n
  {
    if n == 0 {
      assert a == {};
    } else {
      NumbersBelow(a - {n - 1}, n - 1);
    }
  }

  ghost function Sizes(t: map<nat, set<nat>>): map<nat, nat> {
    map i | i in t :: |t[i]|
  }

  ghost predicate DisjointSets(t: map<nat, set<nat>>) {
    forall i, j, c {:trigger c in t[i], c in t[j]} :: i in t && j in t && c in t[i] && c in t[j] ==> i == j
  }

  ghost predicate AllWithin(t: map<nat, set<nat>>, z: set<nat>) {
    forall i :: i in t ==> t[i] <= z
  }

  lemma WithoutOne(t: map<nat, set<nat>>, z: set<nat>, k: nat)
    requires DisjointSets(t) && AllWithin(t, z) && k in t
    ensures DisjointSets(t - {k}) && AllWithin(t - {k}, z - t[k]) && |z - t[k]| + |t[k]| == |z|
  {
    assert z == (z - t[k]) + t[k];
  }

  lemma SizesWithout(t: map<nat, set<nat>>, k: nat)
    requires k in t
    ensures Total(Sizes(t)) == |t[k]| + Total(Sizes(t - {k}))
  {
    TotalWithout(Sizes(t), k);
    assert Sizes(t) - {k} == Sizes(t - {k});
  }

  /** Disjoint sets of numbers from `z` have together no more than `z` has. */
  lemma {:induction false} DisjointBound(t: map<nat, set<nat>>, z: set<nat>)
    requires DisjointSets(t) && AllWithin(t, z)
    ensures Total(Sizes(t)) <= |z|
    decreases |t|
  {
    if t != map[] {
      var k :| k in t;
      assert (t - {k}).Keys == t.Keys - {k};
      WithoutOne(t, z, k);
      SizesWithout(t, k);
      DisjointBound(t - {k}, z - t[k]);
    }
  }
}

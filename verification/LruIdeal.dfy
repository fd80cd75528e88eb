/** What least recently used means, said of the operations alone, and that the list of `LruCache` is that. */
module LruIdeal {
  import opened Common
  import opened Lru

  /** A cached value, and the operation that used it last, counted from one. */
  datatype Use<V> = Use(value: V, at: nat)

  /** No other key was used longer ago. */
  ghost predicate IsOldest<K, V>(m: map<K, Use<V>>, k: K) {
    k in m && forall j :: j in m ==> m[k].at <= m[j].at
  }

  ghost function WithoutOldest<K, V>(m: map<K, Use<V>>): map<K, Use<V>> {
    map k | k in m && !IsOldest(m, k) :: m[k]
  }

  /** A cache that keeps no list: it notes when each key was inserted or hit last, and a new key that finds
      no room takes the place of the one used longest ago. */
  ghost function Ideal<K, V>(capacity: nat, ops: seq<Op<K, V>>): map<K, Use<V>> {
    if ops == [] then map[] else Noted(capacity, Ideal(capacity, ops[..|ops| - 1]), ops[|ops| - 1], |ops|)
  }

  /** What becomes of the notes with operation `n`. */
  ghost function Noted<K, V>(capacity: nat, m: map<K, Use<V>>, op: Op<K, V>, n: nat): map<K, Use<V>> {
    match op
    case Insert(k, v) => (if k !in m && |m| == capacity then WithoutOldest(m) else m)[k := Use(v, n)]
    case Get(k) => if k in m then m[k := Use(m[k].value, n)] else m
    case Erase(k) => m - {k}
  }

  /** The keys and values of `m`, in the order of their last use, the latest first. */
  ghost predicate Lists<K, V>(es: Entries<K, V>, m: map<K, Use<V>>) {
    && Unique(es) && Keys(es) == m.Keys
    && (forall i :: 0 <= i < |es| ==> es[i].0 in m && m[es[i].0].value == es[i].1)
    && forall i, j :: 0 <= i < j < |es| ==> m[es[i].0].at > m[es[j].0].at
  }

  ghost predicate UsedBefore<K, V>(m: map<K, Use<V>>, n: nat) {
    forall k :: k in m ==> m[k].at < n
  }

  lemma {:induction false} KeyCount<K, V>(es: Entries<K, V>)
    requires Unique(es)
    ensures |Keys(es)| == |es|
  {
    if es == [] {
      assert Keys(es) == {};
    } else {
      PopKeeps(es);
      KeyCount(es[..|es| - 1]);
      assert es[|es| - 1].0 in Keys(es);
    }
  }

  lemma ListsDropAt<K, V>(es: Entries<K, V>, m: map<K, Use<V>>, i: nat)
    requires Lists(es, m) && i < |es|
    ensures Lists(es[..i] + es[i + 1..], m - {es[i].0})
  {
    DropAt(es, i);
    var rest := es[..i] + es[i + 1..];
    forall j | 0 <= j < |rest| ensures rest[j] == es[if j < i then j else j + 1] && rest[j].0 != es[i].0 {
    }
  }

  lemma ListsRemove<K, V>(es: Entries<K, V>, m: map<K, Use<V>>, k: K)
    requires Lists(es, m)
    ensures Lists(Remove(es, k), m - {k})
  {
    if k in Keys(es) {
      var i :| 0 <= i < |es| && es[i].0 == k;
      RemoveAt(es, i);
      ListsDropAt(es, m, i);
    } else {
      AbsentKey(es, k);
      assert m - {k} == m;
    }
  }

  lemma ListsPush<K, V>(es: Entries<K, V>, m: map<K, Use<V>>, k: K, v: V, n: nat)
    requires Lists(es, m) && k !in m && UsedBefore(m, n)
    ensures Lists([(k, v)] + es, m[k := Use(v, n)])
  {
    PushKeeps(es, k, v);
    var all := [(k, v)] + es;
    assert forall j :: 0 < j < |all| ==> all[j] == es[j - 1];
  }

  /** The last entry is the oldest. */
  lemma LastIsOldest<K, V>(es: Entries<K, V>, m: map<K, Use<V>>, k: K)
    requires Lists(es, m) && es != []
    ensures IsOldest(m, k) <==> k == es[|es| - 1].0
  {
    var last := es[|es| - 1].0;
    assert last in Keys(es);
    forall j | j in m ensures m[last].at <= m[j].at && (j != last ==> m[last].at < m[j].at) {
      assert j in Keys(es);
      var i :| 0 <= i < |es| && es[i].0 == j;
    }
  }

  lemma ListsPop<K, V>(es: Entries<K, V>, m: map<K, Use<V>>)
    requires Lists(es, m) && es != []
    ensures Lists(es[..|es| - 1], WithoutOldest(m))
  {
    PopKeeps(es);
    forall k | k in m ensures IsOldest(m, k) <==> k == es[|es| - 1].0 {
      LastIsOldest(es, m, k);
    }
  }

  /** Only one list has the entries in that order. */
  lemma {:induction false} ListsOnce<K, V>(es: Entries<K, V>, fs: Entries<K, V>, m: map<K, Use<V>>)
    requires Lists(es, m) && Lists(fs, m)
    ensures es == fs
    decreases |es|
  {
    SameLength(es, fs, m);
    if es != [] {
      var n: nat := |es| - 1;
      SameLast(es, fs, m);
      ListsPop(es, m);
      ListsPop(fs, m);
      ListsOnce(es[..n], fs[..n], WithoutOldest(m));
      LongerSame(es, fs, n);
    }
  }

  lemma LongerSame<T>(s: seq<T>, t: seq<T>, n: nat)
    requires |s| == |t| == n + 1 && s[..n] == t[..n] && s[n] == t[n]
    ensures s == t
  {
    assert s == s[..n] + [s[n]] && t == t[..n] + [t[n]];
  }

  lemma SameLength<K, V>(es: Entries<K, V>, fs: Entries<K, V>, m: map<K, Use<V>>)
    requires Lists(es, m) && Lists(fs, m)
    ensures |es| == |fs|
  {
    KeyCount(es);
    KeyCount(fs);
  }

  lemma SameLast<K, V>(es: Entries<K, V>, fs: Entries<K, V>, m: map<K, Use<V>>)
    requires Lists(es, m) && Lists(fs, m) && es != [] && fs != []
    ensures es[|es| - 1] == fs[|fs| - 1]
  {
    LastIsOldest(es, m, es[|es| - 1].0);
    LastIsOldest(fs, m, es[|es| - 1].0);
  }

  lemma ListsInsert<K, V>(c: nat, es: Entries<K, V>, m: map<K, Use<V>>, k: K, v: V, n: nat)
    requires Lists(es, m) && UsedBefore(m, n) && c > 0
    ensures Lists(Inserted(c, es, k, v), (if k !in m && |m| == c then WithoutOldest(m) else m)[k := Use(v, n)])
  {
    LookupMeans(es, k);
    KeyCount(es);
    assert |m| == |m.Keys|;
    if k !in m && |m| == c {
      ListsPop(es, m);
      ListsPush(es[..|es| - 1], WithoutOldest(m), k, v, n);
    } else {
      ListsRemove(es, m, k);
      ListsPush(Remove(es, k), m - {k}, k, v, n);
      assert (m - {k})[k := Use(v, n)] == m[k := Use(v, n)];
    }
  }

  lemma ListsGet<K, V>(es: Entries<K, V>, m: map<K, Use<V>>, k: K, n: nat)
    requires Lists(es, m) && UsedBefore(m, n)
    ensures Lists(Touched(es, k), if k in m then m[k := Use(m[k].value, n)] else m)
  {
    LookupListed(es, m, k);
    if k in m {
      var v := m[k].value;
      ListsRemove(es, m, k);
      ListsPush(Remove(es, k), m - {k}, k, v, n);
      assert (m - {k})[k := Use(v, n)] == m[k := Use(v, n)];
    }
  }

  lemma LookupListed<K, V>(es: Entries<K, V>, m: map<K, Use<V>>, k: K)
    requires Lists(es, m)
    ensures Lookup(es, k) == if k in m then Some(m[k].value) else None
  {
    LookupMeans(es, k);
    if k in m {
      assert k in Keys(es);
      var i :| 0 <= i < |es| && es[i].0 == k;
      LookupAt(es, i);
    }
  }

  lemma ListsApply<K, V>(c: nat, es: Entries<K, V>, m: map<K, Use<V>>, op: Op<K, V>, n: nat)
    requires Lists(es, m) && UsedBefore(m, n) && c > 0
    ensures Lists(Apply(c, es, op), Noted(c, m, op, n)) && UsedBefore(Noted(c, m, op, n), n + 1)
  {
    match op
    case Insert(k, v) => ListsInsert(c, es, m, k, v, n);
    case Get(k) => ListsGet(es, m, k, n);
    case Erase(k) => ListsRemove(es, m, k);
  }

  /** After any run the list holds what the ideal cache holds, the latest used first. */
  lemma {:induction false} RunIsIdeal<K, V>(c: nat, ops: seq<Op<K, V>>)
    requires c > 0
    ensures Lists(Run(c, ops), Ideal(c, ops)) && UsedBefore(Ideal(c, ops), |ops| + 1)
  {
    if ops == [] {
      assert Keys(Run(c, ops)) == {};
    } else {
      var before := ops[..|ops| - 1];
      var es, m := Run(c, before), Ideal(c, before);
      RunIsIdeal(c, before);
      ListsApply(c, es, m, ops[|ops| - 1], |ops|);
    }
  }

  /** So a lookup answers what the ideal cache holds, and an insertion evicts the key used longest ago, iff a
      new key finds the cache full. */
  lemma HitsAndEvictions<K, V>(c: nat, ops: seq<Op<K, V>>, k: K)
    requires c > 0
    ensures var m := Ideal(c, ops);
            && Lookup(Run(c, ops), k) == (if k in m then Some(m[k].value) else None)
            && (Evicted(c, Run(c, ops), k).Some? <==> k !in m && |m| == c)
            && (Evicted(c, Run(c, ops), k).Some? ==> IsOldest(m, Evicted(c, Run(c, ops), k).value))
  {
    var es, m := Run(c, ops), Ideal(c, ops);
    RunIsIdeal(c, ops);
    LookupListed(es, m, k);
    KeyCount(es);
    assert |m| == |m.Keys|;
    if k !in m && |m| == c {
      LastIsOldest(es, m, es[|es| - 1].0);
    }
  }

  /** The operation is an insertion or a lookup of the key. */
  ghost predicate Asks<K, V>(op: Op<K, V>, k: K) {
    !op.Erase? && op.k == k
  }

  /** The key was last used by operation `n`: a hit or an insertion, with nothing about the key since. */
  ghost predicate LastUsedBy<K, V>(c: nat, ops: seq<Op<K, V>>, k: K, n: nat) {
    && 0 < n <= |ops| && Asks(ops[n - 1], k) && (ops[n - 1].Get? ==> k in Ideal(c, ops[..n - 1]))
    && forall i :: n <= i < |ops| ==> ops[i].k != k
  }

  /** The last insertion of the key, not erased since, gave it this value. */
  ghost predicate LastGiven<K, V>(ops: seq<Op<K, V>>, k: K, v: V, p: nat) {
    p < |ops| && ops[p] == Insert(k, v) && forall i :: p < i < |ops| ==> ops[i].k != k || ops[i].Get?
  }

  /** What the ideal cache notes about a key that it holds. */
  lemma {:induction false} IdealNotes<K, V>(c: nat, ops: seq<Op<K, V>>, k: K) returns (p: nat)
    requires k in Ideal(c, ops)
    ensures LastUsedBy(c, ops, k, Ideal(c, ops)[k].at) && LastGiven(ops, k, Ideal(c, ops)[k].value, p)
  {
    var n: nat := |ops| - 1;
    var before, op := ops[..n], ops[n];
    assert ops == before + [op];
    if op.Insert? && op.k == k {
      p := n;
    } else {
      p := IdealNotes(c, before, k);
      var u := Ideal(c, before)[k];
      StillGiven(before, op, k, u.value, p);
      if op.k != k {
        StillLast(c, before, op, k, u.at);
      }
    }
  }

  lemma StillGiven<K, V>(before: seq<Op<K, V>>, op: Op<K, V>, k: K, v: V, p: nat)
    requires LastGiven(before, k, v, p) && (op.k != k || op.Get?)
    ensures LastGiven(before + [op], k, v, p)
  {
  }

  lemma StillLast<K, V>(c: nat, before: seq<Op<K, V>>, op: Op<K, V>, k: K, n: nat)
    requires LastUsedBy(c, before, k, n) && op.k != k
    ensures LastUsedBy(c, before + [op], k, n)
  {
    assert (before + [op])[..n - 1] == before[..n - 1];
  }
}

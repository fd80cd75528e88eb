/** `LruCache` of cache.h: a list in order of recency and an index into it. */
module Lru {
  import opened Common

  // The cache as a recency list, most recently used first

  type Entries<K, V> = seq<(K, V)>

  ghost function Keys<K, V>(es: Entries<K, V>): set<K> {
    set i | 0 <= i < |es| :: es[i].0
  }

  ghost predicate Unique<K, V>(es: Entries<K, V>) {
    forall i, j :: 0 <= i < j < |es| ==> es[i].0 != es[j].0
  }

  ghost function Lookup<K, V>(es: Entries<K, V>, k: K): Option<V> {
    if es == [] then None else if es[0].0 == k then Some(es[0].1) else Lookup(es[1..], k)
  }

  /** The entries without the one for `k`. */
  ghost function Remove<K, V>(es: Entries<K, V>, k: K): Entries<K, V> {
    if es == [] then [] else if es[0].0 == k then Remove(es[1..], k) else [es[0]] + Remove(es[1..], k)
  }

  /** `get`: a hit becomes most recently used. */
  ghost function Touched<K, V>(es: Entries<K, V>, k: K): Entries<K, V> {
    match Lookup(es, k)
    case None => es
    case Some(v) => [(k, v)] + Remove(es, k)
  }

  /** `insert`: the entry becomes most recently used; a new one may push the last one out. */
  ghost function Inserted<K, V>(capacity: nat, es: Entries<K, V>, k: K, v: V): Entries<K, V> {
    if Lookup(es, k).None? && |es| > 0 && |es| == capacity then [(k, v)] + es[..|es| - 1]
    else [(k, v)] + Remove(es, k)
  }

  /** The key pushed out by an insertion. */
  ghost function Evicted<K, V>(capacity: nat, es: Entries<K, V>, k: K): Option<K> {
    if Lookup(es, k).None? && |es| > 0 && |es| == capacity then Some(es[|es| - 1].0) else None
  }

  // Facts about the list

  lemma {:induction false} LookupMeans<K, V>(es: Entries<K, V>, k: K)
    ensures Lookup(es, k).Some? <==> k in Keys(es)
    ensures Lookup(es, k).Some? ==> (k, Lookup(es, k).value) in es
  {
    if es != [] && es[0].0 != k {
      LookupMeans(es[1..], k);
      if k in Keys(es) {
        var i :| 0 <= i < |es| && es[i].0 == k;
        assert es[1..][i - 1].0 == k;
      }
      if k in Keys(es[1..]) {
        var i :| 0 <= i < |es| - 1 && es[1..][i].0 == k;
        assert es[i + 1].0 == k;
      }
    } else if es != [] {
      assert es[0].0 in Keys(es);
    }
  }

  lemma LookupAt<K, V>(es: Entries<K, V>, i: nat)
    requires Unique(es) && i < |es|
    ensures Lookup(es, es[i].0) == Some(es[i].1)
  {
    LookupMeans(es, es[i].0);
    assert es[i].0 in Keys(es);
    var j :| 0 <= j < |es| && es[j] == (es[i].0, Lookup(es, es[i].0).value);
  }

  /** In a list without repetition, removing a key takes out one place. */
  lemma {:induction false} RemoveAt<K, V>(es: Entries<K, V>, i: nat)
    requires Unique(es) && i < |es|
    ensures Remove(es, es[i].0) == es[..i] + es[i + 1..]
  {
    if i == 0 {
      RemoveAbsent(es[1..], es[0].0);
    } else {
      RemoveAt(es[1..], i - 1);
      assert es[..i] == [es[0]] + es[1..][..i - 1] && es[1..][i..] == es[i + 1..];
    }
  }

  lemma {:induction false} RemoveAbsent<K, V>(es: Entries<K, V>, k: K)
    requires forall i :: 0 <= i < |es| ==> es[i].0 != k
    ensures Remove(es, k) == es
  {
    if es != [] {
      RemoveAbsent(es[1..], k);
      assert es == [es[0]] + es[1..];
    }
  }

  lemma DropAt<K, V>(es: Entries<K, V>, i: nat)
    requires Unique(es) && i < |es|
    ensures Unique(es[..i] + es[i + 1..]) && Keys(es[..i] + es[i + 1..]) == Keys(es) - {es[i].0}
  {
    var rest := es[..i] + es[i + 1..];
    assert forall j :: 0 <= j < |rest| ==> rest[j] == es[if j < i then j else j + 1];
    forall x ensures x in Keys(rest) <==> x in Keys(es) && x != es[i].0 {
      if x in Keys(es) && x != es[i].0 {
        var j :| 0 <= j < |es| && es[j].0 == x;
        assert rest[if j < i then j else j - 1].0 == x;
      }
    }
  }

  lemma RemoveKeeps<K, V>(es: Entries<K, V>, k: K)
    requires Unique(es)
    ensures Unique(Remove(es, k)) && Keys(Remove(es, k)) == Keys(es) - {k}
    ensures |Remove(es, k)| == |es| - if k in Keys(es) then 1 else 0
  {
    if k in Keys(es) {
      var i :| 0 <= i < |es| && es[i].0 == k;
      RemoveAt(es, i);
      DropAt(es, i);
    } else {
      forall i | 0 <= i < |es| ensures es[i].0 != k {
        assert es[i].0 in Keys(es);
      }
      RemoveAbsent(es, k);
    }
  }

  lemma PushKeeps<K, V>(es: Entries<K, V>, k: K, v: V)
    requires Unique(es) && k !in Keys(es)
    ensures Unique([(k, v)] + es) && Keys([(k, v)] + es) == Keys(es) + {k}
  {
    var all := [(k, v)] + es;
    assert all[0].0 == k && forall i :: 0 < i < |all| ==> all[i] == es[i - 1];
    forall i | 0 < i < |all| ensures all[i].0 != k {
      assert es[i - 1].0 in Keys(es);
    }
    forall x ensures x in Keys(all) <==> x == k || x in Keys(es) {
      if x in Keys(es) {
        var i :| 0 <= i < |es| && es[i].0 == x;
        assert all[i + 1].0 == x;
      }
    }
  }

  lemma PopKeeps<K, V>(es: Entries<K, V>)
    requires Unique(es) && |es| > 0
    ensures Unique(es[..|es| - 1]) && Keys(es[..|es| - 1]) == Keys(es) - {es[|es| - 1].0}
  {
    var rest := es[..|es| - 1];
    forall x ensures x in Keys(rest) <==> x in Keys(es) && x != es[|es| - 1].0 {
      if x in Keys(es) && x != es[|es| - 1].0 {
        var i :| 0 <= i < |es| && es[i].0 == x;
        assert rest[i].0 == x;
      }
    }
  }

  lemma TouchedKeeps<K, V>(es: Entries<K, V>, k: K)
    requires Unique(es)
    ensures Unique(Touched(es, k)) && Keys(Touched(es, k)) == Keys(es) && |Touched(es, k)| == |es|
  {
    LookupMeans(es, k);
    if k in Keys(es) {
      RemoveKeeps(es, k);
      PushKeeps(Remove(es, k), k, Lookup(es, k).value);
    }
  }

  /** Insertion never exceeds the capacity and loses no key but the evicted one. */
  lemma InsertedKeeps<K, V>(capacity: nat, es: Entries<K, V>, k: K, v: V)
    requires Unique(es) && |es| <= capacity && (k in Keys(es) || capacity > 0)
    ensures var r := Inserted(capacity, es, k, v);
            && Unique(r) && |r| <= capacity
            && Keys(r) == Keys(es) + {k} - (if Evicted(capacity, es, k).Some? then {Evicted(capacity, es, k).value} else {})
            && (Evicted(capacity, es, k).Some? ==> Evicted(capacity, es, k).value in Keys(es) - {k})
  {
    LookupMeans(es, k);
    if k !in Keys(es) && |es| == capacity {
      PopKeeps(es);
      PushKeeps(es[..|es| - 1], k, v);
      assert es[|es| - 1].0 in Keys(es);
    } else {
      RemoveKeeps(es, k);
      PushKeeps(Remove(es, k), k, v);
    }
  }

  // Inclusion: a larger cache never misses where a smaller one hits

  datatype Op<K, V> = Insert(k: K, v: V) | Get(k: K) | Erase(k: K)

  ghost function Apply<K, V>(capacity: nat, es: Entries<K, V>, op: Op<K, V>): Entries<K, V> {
    match op
    case Insert(k, v) => Inserted(capacity, es, k, v)
    case Get(k) => Touched(es, k)
    case Erase(k) => Remove(es, k)
  }

  ghost function Run<K, V>(capacity: nat, ops: seq<Op<K, V>>): Entries<K, V> {
    if ops == [] then [] else Apply(capacity, Run(capacity, ops[..|ops| - 1]), ops[|ops| - 1])
  }

  /** The entries whose keys are in `s`, in the same order. */
  ghost function Restrict<K, V>(es: Entries<K, V>, s: set<K>): Entries<K, V> {
    if es == [] then [] else if es[0].0 in s then [es[0]] + Restrict(es[1..], s) else Restrict(es[1..], s)
  }

  /** `small` is a subsequence of `large`, values included, and no more than the difference in
      capacity is missing. */
  ghost predicate Included<K, V>(c: nat, small: Entries<K, V>, d: nat, large: Entries<K, V>) {
    && Unique(small) && Unique(large) && |small| <= c && |large| <= d
    && small == Restrict(large, Keys(small))
    && |large| - |small| <= d - c
  }

  lemma {:induction false} RestrictAppend<K, V>(es: Entries<K, V>, e: (K, V), s: set<K>)
    ensures Restrict(es + [e], s) == Restrict(es, s) + if e.0 in s then [e] else []
  {
    if es == [] {
      assert ([] + [e])[1..] == [];
    } else {
      RestrictAppend(es[1..], e, s);
      assert (es + [e])[1..] == es[1..] + [e];
    }
  }

  lemma {:induction false} RestrictRemove<K, V>(es: Entries<K, V>, s: set<K>, k: K)
    ensures Restrict(Remove(es, k), s) == Remove(Restrict(es, s), k)
  {
    if es != [] {
      RestrictRemove(es[1..], s, k);
      var rest := Restrict(es[1..], s);
      if es[0].0 == k {
        assert Remove(es, k) == Remove(es[1..], k);
        assert es[0].0 in s ==> ([es[0]] + rest)[1..] == rest;
      } else {
        assert ([es[0]] + Remove(es[1..], k))[1..] == Remove(es[1..], k);
        assert ([es[0]] + rest)[1..] == rest;
      }
    }
  }

  /** Only the keys that are there matter. */
  lemma {:induction false} RestrictSame<K, V>(es: Entries<K, V>, s: set<K>, t: set<K>)
    requires forall i :: 0 <= i < |es| ==> (es[i].0 in s <==> es[i].0 in t)
    ensures Restrict(es, s) == Restrict(es, t)
  {
    if es != [] {
      RestrictSame(es[1..], s, t);
    }
  }

  lemma {:induction false} RestrictLookup<K, V>(es: Entries<K, V>, s: set<K>, k: K)
    requires k in s
    ensures Lookup(Restrict(es, s), k) == Lookup(es, k)
  {
    if es != [] {
      RestrictLookup(es[1..], s, k);
      assert ([es[0]] + Restrict(es[1..], s))[1..] == Restrict(es[1..], s);
    }
  }

  /** A hit in the smaller cache is a hit in the larger one, with the same value. */
  lemma IncludedHits<K, V>(c: nat, small: Entries<K, V>, d: nat, large: Entries<K, V>, k: K)
    requires Included(c, small, d, large) && Lookup(small, k).Some?
    ensures Lookup(large, k) == Lookup(small, k)
  {
    LookupMeans(small, k);
    RestrictLookup(large, Keys(small), k);
  }

  /** Taking a key out of both. */
  lemma IncludedRemove<K, V>(c: nat, small: Entries<K, V>, d: nat, large: Entries<K, V>, k: K)
    requires Included(c, small, d, large)
    ensures Included(c, Remove(small, k), d, Remove(large, k))
    ensures k in Keys(small) ==> k in Keys(large)
    ensures Remove(small, k) == Restrict(Remove(large, k), Keys(small))
  {
    RemoveKeeps(small, k);
    RemoveKeeps(large, k);
    RestrictRemove(large, Keys(small), k);
    var rest := Remove(large, k);
    forall i | 0 <= i < |rest| ensures rest[i].0 in Keys(small) <==> rest[i].0 in Keys(small) - {k} {
      assert rest[i].0 in Keys(rest);
    }
    RestrictSame(rest, Keys(small), Keys(small) - {k});
    if k in Keys(small) {
      LookupMeans(small, k);
      IncludedHits(c, small, d, large, k);
      LookupMeans(large, k);
    }
  }

  /** Putting the same entry in front of both. */
  lemma RestrictPush<K, V>(small: Entries<K, V>, large: Entries<K, V>, k: K, v: V)
    requires Unique(small) && Unique(large) && k !in Keys(small) && k !in Keys(large)
    requires small == Restrict(large, Keys(small))
    ensures [(k, v)] + small == Restrict([(k, v)] + large, Keys([(k, v)] + small))
  {
    PushKeeps(small, k, v);
    forall i | 0 <= i < |large| ensures large[i].0 in Keys(small) <==> large[i].0 in Keys(small) + {k} {
      assert large[i].0 in Keys(large);
    }
    RestrictSame(large, Keys(small), Keys(small) + {k});
    assert ([(k, v)] + large)[1..] == large;
  }

  /** Pushing the last entry out of the larger cache. */
  lemma RestrictPop<K, V>(small: Entries<K, V>, large: Entries<K, V>)
    requires Unique(small) && Unique(large) && |large| > 0 && small == Restrict(large, Keys(small))
    ensures var last := large[|large| - 1];
            var rest := large[..|large| - 1];
            if last.0 in Keys(small)
            then |small| > 0 && small[|small| - 1] == last && small[..|small| - 1] == Restrict(rest, Keys(small[..|small| - 1]))
            else small == Restrict(rest, Keys(small))
  {
    var last := large[|large| - 1];
    var rest := large[..|large| - 1];
    assert large == rest + [last];
    RestrictAppend(rest, last, Keys(small));
    if last.0 in Keys(small) {
      PopKeeps(small);
      forall i | 0 <= i < |rest| ensures rest[i].0 != last.0 {
      }
      RestrictSame(rest, Keys(small), Keys(small) - {last.0});
    }
  }

  /** Pushing the last entry out of the smaller cache only. */
  lemma RestrictShrink<K, V>(small: Entries<K, V>, large: Entries<K, V>)
    requires Unique(small) && Unique(large) && |small| > 0 && small == Restrict(large, Keys(small))
    ensures small[..|small| - 1] == Restrict(large, Keys(small[..|small| - 1]))
  {
    var k := small[|small| - 1].0;
    var s := Keys(small);
    PopKeeps(small);
    RemoveAt(small, |small| - 1);
    assert small[..|small| - 1] + small[|small|..] == small[..|small| - 1];
    RestrictRemove(large, s, k);
    RestrictWithout(large, s, k);
  }

  lemma {:induction false} RestrictWithout<K, V>(es: Entries<K, V>, s: set<K>, k: K)
    ensures Restrict(Remove(es, k), s) == Restrict(es, s - {k})
  {
    if es != [] {
      RestrictWithout(es[1..], s, k);
      if es[0].0 != k {
        assert ([es[0]] + Remove(es[1..], k))[1..] == Remove(es[1..], k);
      }
    }
  }

  lemma IncludedGet<K, V>(c: nat, small: Entries<K, V>, d: nat, large: Entries<K, V>, k: K)
    requires Included(c, small, d, large)
    ensures Included(c, Touched(small, k), d, Touched(large, k))
  {
    LookupMeans(small, k);
    LookupMeans(large, k);
    TouchedKeeps(small, k);
    TouchedKeeps(large, k);
    IncludedRemove(c, small, d, large, k);
    RemoveKeeps(small, k);
    RemoveKeeps(large, k);
    if k in Keys(small) {
      IncludedHits(c, small, d, large, k);
      RestrictPush(Remove(small, k), Remove(large, k), k, Lookup(small, k).value);
    } else if k in Keys(large) {
      RestrictPushAbsent(small, Remove(large, k), k, Lookup(large, k).value);
      AbsentKey(small, k);
    }
  }

  lemma AbsentKey<K, V>(es: Entries<K, V>, k: K)
    requires k !in Keys(es)
    ensures Remove(es, k) == es
  {
    forall i | 0 <= i < |es| ensures es[i].0 != k {
      assert es[i].0 in Keys(es);
    }
    RemoveAbsent(es, k);
  }

  lemma RestrictPushAbsent<K, V>(small: Entries<K, V>, large: Entries<K, V>, k: K, v: V)
    requires k !in Keys(small)
    ensures Restrict([(k, v)] + large, Keys(small)) == Restrict(large, Keys(small))
  {
    assert ([(k, v)] + large)[1..] == large;
  }

  /** A key that neither holds: the smaller cache is full whenever the larger one is. */
  lemma IncludedInsertNew<K, V>(c: nat, small: Entries<K, V>, d: nat, large: Entries<K, V>, k: K, v: V)
    requires Included(c, small, d, large) && 0 < c <= d && k !in Keys(small) && k !in Keys(large)
    ensures Included(c, Inserted(c, small, k, v), d, Inserted(d, large, k, v))
  {
    LookupMeans(small, k);
    LookupMeans(large, k);
    AbsentKey(small, k);
    AbsentKey(large, k);
    InsertedKeeps(c, small, k, v);
    InsertedKeeps(d, large, k, v);
    var s := if |small| == c then small[..|small| - 1] else small;
    var l := if |large| == d then large[..|large| - 1] else large;
    PushedOut(c, small, d, large);
    if |small| == c {
      PopKeeps(small);
    }
    if |large| == d {
      PopKeeps(large);
    }
    RestrictPush(s, l, k, v);
  }

  lemma PushedOut<K, V>(c: nat, small: Entries<K, V>, d: nat, large: Entries<K, V>)
    requires Included(c, small, d, large) && 0 < c <= d
    ensures var s := if |small| == c then small[..|small| - 1] else small;
            var l := if |large| == d then large[..|large| - 1] else large;
            s == Restrict(l, Keys(s))
  {
    if |large| == d {
      RestrictPop(small, large);
      if large[|large| - 1].0 !in Keys(small) {
        PopKeeps(large);
        RestrictShrink(small, large[..|large| - 1]);
      }
    } else if |small| == c {
      RestrictShrink(small, large);
    }
  }

  lemma IncludedInsert<K, V>(c: nat, small: Entries<K, V>, d: nat, large: Entries<K, V>, k: K, v: V)
    requires Included(c, small, d, large) && 0 < c <= d
    ensures Included(c, Inserted(c, small, k, v), d, Inserted(d, large, k, v))
  {
    LookupMeans(small, k);
    LookupMeans(large, k);
    IncludedRemove(c, small, d, large, k);
    RemoveKeeps(small, k);
    RemoveKeeps(large, k);
    if k in Keys(small) {
      InsertedKeeps(c, small, k, v);
      InsertedKeeps(d, large, k, v);
      RestrictPush(Remove(small, k), Remove(large, k), k, v);
    } else if k in Keys(large) {
      InsertedKeeps(c, small, k, v);
      InsertedKeeps(d, large, k, v);
      AbsentKey(small, k);
      if |small| == c {
        RestrictShrink(small, Remove(large, k));
        PopKeeps(small);
        RestrictPush(small[..|small| - 1], Remove(large, k), k, v);
      } else {
        RestrictPush(small, Remove(large, k), k, v);
      }
    } else {
      IncludedInsertNew(c, small, d, large, k, v);
    }
  }

  /** Two caches fed the same operations: the smaller one's recency list stays a subsequence of the
      larger one's, with equal values. */
  lemma {:induction false} LruInclusion<K, V>(c: nat, d: nat, ops: seq<Op<K, V>>)
    requires 0 < c <= d
    ensures Included(c, Run(c, ops), d, Run(d, ops))
  {
    if ops != [] {
      var before, op := ops[..|ops| - 1], ops[|ops| - 1];
      LruInclusion(c, d, before);
      match op
      case Insert(k, v) => IncludedInsert(c, Run(c, before), d, Run(d, before), k, v);
      case Get(k) => IncludedGet(c, Run(c, before), d, Run(d, before), k);
      case Erase(k) => IncludedRemove(c, Run(c, before), d, Run(d, before), k);
    }
  }

  /** So a larger capacity never turns a hit into a miss, and never changes the value hit. */
  lemma LargerNeverMisses<K, V>(c: nat, d: nat, ops: seq<Op<K, V>>, k: K)
    requires 0 < c <= d && Lookup(Run(c, ops), k).Some?
    ensures Lookup(Run(d, ops), k) == Lookup(Run(c, ops), k)
  {
    LruInclusion(c, d, ops);
    IncludedHits(c, Run(c, ops), d, Run(d, ops), k);
  }

  // The list and the index

  /** A list element; `id` is what an iterator to it holds. */
  datatype Node<K, V> = Node(id: nat, key: K, val: V)

  ghost function EntriesOf<K, V>(list: seq<Node<K, V>>): (es: Entries<K, V>)
    ensures |es| == |list| && forall i :: 0 <= i < |list| ==> es[i] == (list[i].key, list[i].val)
  {
    seq(|list|, i requires 0 <= i < |list| => (list[i].key, list[i].val))
  }

  /** Every element is indexed under its key, and the index holds nothing else. */
  ghost predicate Indexed<K, V>(list: seq<Node<K, V>>, mapped: map<K, nat>) {
    && (forall i, j :: 0 <= i < j < |list| ==> list[i].id != list[j].id)
    && (forall i :: 0 <= i < |list| ==> list[i].key in mapped && mapped[list[i].key] == list[i].id)
    && mapped.Keys == Keys(EntriesOf(list))
  }

  lemma IndexedUnique<K, V>(list: seq<Node<K, V>>, mapped: map<K, nat>)
    requires Indexed(list, mapped)
    ensures Unique(EntriesOf(list))
  {
  }

  /** The element an iterator points to. */
  function Position<K, V>(list: seq<Node<K, V>>, id: nat): (i: nat)
    ensures i <= |list| && (i < |list| ==> list[i].id == id)
    ensures i == |list| ==> forall j :: 0 <= j < |list| ==> list[j].id != id
  {
    if list == [] || list[0].id == id then 0 else 1 + Position(list[1..], id)
  }

  lemma PositionOfKey<K, V>(list: seq<Node<K, V>>, mapped: map<K, nat>, k: K)
    requires Indexed(list, mapped) && k in mapped
    ensures Position(list, mapped[k]) < |list| && list[Position(list, mapped[k])].key == k
  {
    var i :| 0 <= i < |list| && EntriesOf(list)[i].0 == k;
    assert list[i].key == k;
  }

  function TakeOut<T>(s: seq<T>, i: nat): seq<T>
    requires i < |s|
  {
    s[..i] + s[i + 1..]
  }

  lemma TakenOutEntries<K, V>(list: seq<Node<K, V>>, mapped: map<K, nat>, i: nat)
    requires Indexed(list, mapped) && i < |list|
    ensures EntriesOf(TakeOut(list, i)) == Remove(EntriesOf(list), list[i].key)
  {
    var es := EntriesOf(list);
    IndexedUnique(list, mapped);
    RemoveAt(es, i);
    assert EntriesOf(TakeOut(list, i)) == es[..i] + es[i + 1..];
  }

  /** Taking an element out of the list and its key out of the index. */
  lemma TakenOut<K, V>(list: seq<Node<K, V>>, mapped: map<K, nat>, i: nat)
    requires Indexed(list, mapped) && i < |list|
    ensures Indexed(TakeOut(list, i), mapped - {list[i].key})
    ensures EntriesOf(TakeOut(list, i)) == Remove(EntriesOf(list), list[i].key)
  {
    TakenOutEntries(list, mapped, i);
    TakenOutIndex(list, mapped, i);
    IndexedUnique(list, mapped);
    RemoveKeeps(EntriesOf(list), list[i].key);
  }

  lemma TakenOutIndex<K, V>(list: seq<Node<K, V>>, mapped: map<K, nat>, i: nat)
    requires Indexed(list, mapped) && i < |list|
    ensures var rest, index := TakeOut(list, i), mapped - {list[i].key};
            && (forall j, k :: 0 <= j < k < |rest| ==> rest[j].id != rest[k].id)
            && (forall j :: 0 <= j < |rest| ==> rest[j].key in index && index[rest[j].key] == rest[j].id)
  {
    var rest := TakeOut(list, i);
    assert forall j :: 0 <= j < |rest| ==> rest[j] == list[if j < i then j else j + 1];
  }

  /** Putting an element with a new key in front. */
  lemma PutInFront<K, V>(list: seq<Node<K, V>>, mapped: map<K, nat>, n: Node<K, V>)
    requires Indexed(list, mapped) && n.key !in mapped && forall i :: 0 <= i < |list| ==> list[i].id != n.id
    ensures Indexed([n] + list, mapped[n.key := n.id])
    ensures EntriesOf([n] + list) == [(n.key, n.val)] + EntriesOf(list)
  {
    var all := [n] + list;
    IndexedUnique(list, mapped);
    PushKeeps(EntriesOf(list), n.key, n.val);
    assert EntriesOf(all) == [(n.key, n.val)] + EntriesOf(list);
    assert forall j :: 0 < j < |all| ==> all[j] == list[j - 1];
  }

  class LruCache<K(==), V> {
    var capacity: nat
    var keyValues: seq<Node<K, V>>
    var mappedValues: map<K, nat>
    /** Above every identity in use. */
    var nextId: nat

    ghost predicate Valid()
      reads this
    {
      && Indexed(keyValues, mappedValues) && |keyValues| <= capacity
      && forall i :: 0 <= i < |keyValues| ==> keyValues[i].id < nextId
    }

    /** The entries, most recently used first. */
    ghost function View(): Entries<K, V>
      reads this
    {
      EntriesOf(keyValues)
    }

    constructor (maxSize: nat)
      ensures Valid() && View() == [] && capacity == maxSize
    {
      capacity := maxSize;
      keyValues, mappedValues, nextId := [], map[], 0;
      new;
      assert Keys(EntriesOf(keyValues)) == {};
    }

    /** Splices the element at `i` to the front, with a value. */
    method MoveToFront(i: nat, v: V)
      requires Valid() && i < |keyValues|
      modifies this`keyValues
      ensures Valid()
      ensures View() == [(old(keyValues[i].key), v)] + Remove(old(View()), old(keyValues[i].key))
    {
      var n := keyValues[i].(val := v);
      TakenOut(keyValues, mappedValues, i);
      PutInFront(TakeOut(keyValues, i), mappedValues - {n.key}, n);
      assert (mappedValues - {n.key})[n.key := n.id] == mappedValues;
      keyValues := [n] + TakeOut(keyValues, i);
    }

    /** Returns whether the key is new, and the key for which `on_key_evicted` was called. */
    method Insert(k: K, v: V) returns (isNew: bool, evicted: Option<K>)
      requires Valid() && (k in mappedValues || capacity > 0)
      modifies this
      ensures Valid() && capacity == old(capacity)
      ensures View() == Inserted(capacity, old(View()), k, v)
      ensures isNew <==> Lookup(old(View()), k).None?
      ensures evicted == Evicted(capacity, old(View()), k)
    {
      ghost var es := View();
      LookupMeans(es, k);
      evicted := None;
      if k in mappedValues {
        PositionOfKey(keyValues, mappedValues, k);
        MoveToFront(Position(keyValues, mappedValues[k]), v);
        return false, None;
      }
      if |keyValues| == capacity {
        evicted := PopBack();
      } else {
        AbsentKey(es, k);
      }
      PutInFront(keyValues, mappedValues, Node(nextId, k, v));
      keyValues := [Node(nextId, k, v)] + keyValues;
      mappedValues := mappedValues[k := nextId];
      nextId := nextId + 1;
      isNew := true;
    }

    /** Drops the least recently used entry. */
    method PopBack() returns (evicted: Option<K>)
      requires Valid() && |keyValues| > 0
      modifies this`keyValues, this`mappedValues
      ensures Valid() && |keyValues| == |old(keyValues)| - 1
      ensures View() == old(View())[..|old(View())| - 1] && evicted == Some(old(View())[|old(View())| - 1].0)
      ensures mappedValues == old(mappedValues) - {evicted.value}
    {
      var i := |keyValues| - 1;
      var k := keyValues[i].key;
      TakenOut(keyValues, mappedValues, i);
      assert TakeOut(keyValues, i) == keyValues[..i];
      mappedValues := mappedValues - {k};
      keyValues := keyValues[..i];
      evicted := Some(k);
      assert View() == old(View())[..i];
    }

    method Get(k: K) returns (value: Option<V>)
      requires Valid()
      modifies this`keyValues
      ensures Valid()
      ensures value == Lookup(old(View()), k) && View() == Touched(old(View()), k)
      ensures View() == if value.Some? then [(k, value.value)] + Remove(old(View()), k) else old(View())
    {
      ghost var es := View();
      LookupMeans(es, k);
      if k !in mappedValues {
        return None;
      }
      PositionOfKey(keyValues, mappedValues, k);
      var i := Position(keyValues, mappedValues[k]);
      var v := keyValues[i].val;
      IndexedUnique(keyValues, mappedValues);
      LookupAt(es, i);
      MoveToFront(i, v);
      value := Some(v);
    }

    method Erase(k: K)
      requires Valid()
      modifies this`keyValues, this`mappedValues
      ensures Valid() && View() == Remove(old(View()), k)
    {
      if k in mappedValues {
        PositionOfKey(keyValues, mappedValues, k);
        var i := Position(keyValues, mappedValues[k]);
        TakenOut(keyValues, mappedValues, i);
        keyValues := TakeOut(keyValues, i);
        mappedValues := mappedValues - {k};
      } else {
        AbsentKey(View(), k);
      }
    }

    method Clear()
      modifies this`keyValues, this`mappedValues
      ensures Valid() && View() == []
    {
      keyValues, mappedValues := [], map[];
      assert Keys(EntriesOf(keyValues)) == {};
    }

    /** Keeps the most recently used entries that fit; `on_key_evicted` is not called. */
    method SetCapacity(maxSize: nat)
      requires Valid()
      modifies this`capacity, this`keyValues, this`mappedValues
      ensures Valid() && capacity == maxSize
      ensures View() == if maxSize < |old(View())| then old(View())[..maxSize] else old(View())
    {
      ghost var es := View();
      while maxSize < |keyValues|
        invariant Valid() && View() == es[..|keyValues|] && |keyValues| <= |es|
        invariant |keyValues| < |es| ==> maxSize <= |keyValues|
        decreases |keyValues|
      {
        var evicted := PopBack();
        assert View() == es[..|keyValues|];
      }
      assert es[..|es|] == es;
      capacity := maxSize;
    }
  }
}

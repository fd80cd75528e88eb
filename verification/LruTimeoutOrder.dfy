/** The recency list of `LruTimeoutCache`: in every run it is in the order of last use. */
module LruTimeoutOrder {
  import opened Common
  import opened Lru
  import opened LruTimeout

  /** An event that uses a key: an insertion, or a `get` that hits. */
  ghost predicate Uses<K, V>(t: Timed<K, V>, auto: bool, e: Event<K, V>, k: K) {
    || (e.call.Insert? && e.call.k == k)
    || (e.call.Get? && e.call.k == k && Hits(t, auto, k, e.now))
  }

  /** For every key that was ever used, the event that used it last, counted from one. */
  ghost function LastUses<K, V>(capacity: nat, auto: bool, start: int, events: seq<Event<K, V>>): map<K, nat> {
    if events == [] then map[]
    else
      var before, e := events[..|events| - 1], events[|events| - 1];
      var at := LastUses(capacity, auto, start, before);
      if (e.call.Insert? || e.call.Get?) && Uses(After(capacity, auto, start, before).t, auto, e, e.call.k)
      then at[e.call.k := |events|] else at
  }

  /** The latest used first. */
  ghost predicate ByUse<K, V>(es: Entries<K, V>, at: map<K, nat>) {
    && (forall i :: 0 <= i < |es| ==> es[i].0 in at)
    && forall i, j :: 0 <= i < j < |es| ==> at[es[i].0] > at[es[j].0]
  }

  ghost predicate Earlier<K>(at: map<K, nat>, n: nat) {
    forall k :: k in at ==> at[k] < n
  }

  lemma {:induction false} RestrictFrom<K, V>(es: Entries<K, V>, s: set<K>, i: nat)
    requires i < |Restrict(es, s)|
    ensures Restrict(es, s)[i] in es
  {
    if es[0].0 in s {
      if i > 0 {
        RestrictFrom(es[1..], s, i - 1);
      }
    } else {
      RestrictFrom(es[1..], s, i);
    }
  }

  lemma {:induction false} ByUseRestrict<K, V>(es: Entries<K, V>, s: set<K>, at: map<K, nat>)
    requires ByUse(es, at)
    ensures ByUse(Restrict(es, s), at)
  {
    if es != [] {
      ByUseRestrict(es[1..], s, at);
      var rest := Restrict(es[1..], s);
      forall i | 0 <= i < |rest| ensures at[es[0].0] > at[rest[i].0] {
        RestrictFrom(es[1..], s, i);
      }
    }
  }

  lemma ByUseRemove<K, V>(es: Entries<K, V>, k: K, at: map<K, nat>)
    requires Unique(es) && ByUse(es, at)
    ensures ByUse(Remove(es, k), at)
  {
    if k in Keys(es) {
      var i :| 0 <= i < |es| && es[i].0 == k;
      RemoveAt(es, i);
      var rest := es[..i] + es[i + 1..];
      assert forall j :: 0 <= j < |rest| ==> rest[j] == es[if j < i then j else j + 1];
    } else {
      AbsentKey(es, k);
    }
  }

  /** A key that is used now comes first. */
  lemma ByUsePush<K, V>(es: Entries<K, V>, k: K, v: V, at: map<K, nat>, n: nat)
    requires ByUse(es, at) && k !in Keys(es) && Earlier(at, n)
    ensures ByUse([(k, v)] + es, at[k := n])
  {
    var all := [(k, v)] + es;
    forall i | 0 <= i < |es| ensures es[i].0 != k {
      assert es[i].0 in Keys(es);
    }
    assert forall i :: 0 < i < |all| ==> all[i] == es[i - 1];
  }

  lemma ByUseInsert<K, V>(c: nat, es: Entries<K, V>, k: K, v: V, at: map<K, nat>, n: nat)
    requires Unique(es) && ByUse(es, at) && Earlier(at, n)
    ensures ByUse(Inserted(c, es, k, v), at[k := n])
  {
    LookupMeans(es, k);
    if k !in Keys(es) && |es| > 0 && |es| == c {
      PopKeeps(es);
      ByUsePush(es[..|es| - 1], k, v, at, n);
    } else {
      RemoveKeeps(es, k);
      ByUseRemove(es, k, at);
      ByUsePush(Remove(es, k), k, v, at, n);
    }
  }

  lemma ByUseGet<K, V>(es: Entries<K, V>, k: K, at: map<K, nat>, n: nat)
    requires Unique(es) && ByUse(es, at) && Earlier(at, n)
    ensures ByUse(Touched(es, k), if k in Keys(es) then at[k := n] else at)
  {
    LookupMeans(es, k);
    if k in Keys(es) {
      RemoveKeeps(es, k);
      ByUseRemove(es, k, at);
      ByUsePush(Remove(es, k), k, Lookup(es, k).value, at, n);
    }
  }

  lemma ByUseCurrent<K, V>(t: Timed<K, V>, auto: bool, now: int, at: map<K, nat>)
    requires WellFormed(t) && ByUse(t.entries, at)
    ensures WellFormed(Current(t, auto, now)) && ByUse(Current(t, auto, now).entries, at)
  {
    if auto {
      PurgedKeeps(t, now);
      ByUseRestrict(t.entries, Keys(t.entries) - Expired(t.deadlines, now), at);
    }
  }

  lemma ByUseStep<K, V>(t: Timed<K, V>, auto: bool, e: Event<K, V>, at: map<K, nat>, n: nat)
    requires WellFormed(t) && ByUse(t.entries, at) && Earlier(at, n)
    ensures ByUse(Step(t, auto, e).entries,
                  if (e.call.Insert? || e.call.Get?) && Uses(t, auto, e, e.call.k) then at[e.call.k := n] else at)
  {
    ByUseCurrent(t, auto, e.now, at);
    var u := Current(t, auto, e.now);
    match e.call
    case Insert(k, v, _, _) => ByUseInsert(u.capacity, u.entries, k, v, at, n);
    case Get(k) =>
      LookupMeans(u.entries, k);
      ByUseGet(u.entries, k, at, n);
    case Erase(k) => ByUseRemove(u.entries, k, at);
    case Clear =>
    case SetCapacity(_) =>
    case Update => ByUseCurrent(t, true, e.now, at);
  }

  /** After any run, with or without auto-update, the list is in the order of last use. */
  lemma {:induction false} ListedByUse<K, V>(capacity: nat, auto: bool, start: int, events: seq<Event<K, V>>)
    requires Steady(capacity, auto, start, events)
    ensures var t, at := After(capacity, auto, start, events).t, LastUses(capacity, auto, start, events);
            WellFormed(t) && ByUse(t.entries, at) && Earlier(at, |events| + 1)
    decreases |events|
  {
    RunsAreConsistent(capacity, auto, start, events);
    if events != [] {
      var before := events[..|events| - 1];
      ListedByUse(capacity, auto, start, before);
      ByUseStep(After(capacity, auto, start, before).t, auto, events[|events| - 1], LastUses(capacity, auto, start, before), |events|);
    }
  }

  /** So what an insertion evicts is, of all keys cached then, the one used longest ago. */
  lemma EvictsLeastRecent<K, V>(capacity: nat, auto: bool, start: int, events: seq<Event<K, V>>, k: K, now: int, x: K)
    requires Steady(capacity, auto, start, events)
    requires var u := Current(After(capacity, auto, start, events).t, auto, now);
             Evicted(u.capacity, u.entries, k) == Some(x)
    ensures var u, at := Current(After(capacity, auto, start, events).t, auto, now), LastUses(capacity, auto, start, events);
            && k !in Keys(u.entries) && |u.entries| == u.capacity && x in Keys(u.entries) && Keys(u.entries) <= at.Keys
            && forall y :: y in Keys(u.entries) && y != x ==> at[x] < at[y]
  {
    ListedByUse(capacity, auto, start, events);
    var t, at := After(capacity, auto, start, events).t, LastUses(capacity, auto, start, events);
    ByUseCurrent(t, auto, now, at);
    var u := Current(t, auto, now);
    LastLeastRecent(u.capacity, u.entries, at, k, x);
  }

  lemma LastLeastRecent<K, V>(c: nat, es: Entries<K, V>, at: map<K, nat>, k: K, x: K)
    requires ByUse(es, at) && Evicted(c, es, k) == Some(x)
    ensures k !in Keys(es) && |es| == c && x in Keys(es) && Keys(es) <= at.Keys
    ensures forall y :: y in Keys(es) && y != x ==> at[x] < at[y]
  {
    LookupMeans(es, k);
    forall y | y in Keys(es) ensures y in at && (y != x ==> at[x] < at[y]) {
      var i :| 0 <= i < |es| && es[i].0 == y;
    }
  }
}

/** `LruTimeoutCache` of cache.h: a recency list whose entries also expire. */
module LruTimeout {
  import opened Common
  import opened Lru

  /** When an entry expires, and the timeout that a hit starts again. */
  datatype Deadline = Deadline(time: int, to: int)

  /** The cache as a recency list and the deadlines of its keys. */
  datatype Timed<K, V> = Timed(capacity: nat, entries: Entries<K, V>, deadlines: map<K, Deadline>)

  ghost predicate WellFormed<K, V>(t: Timed<K, V>) {
    Unique(t.entries) && |t.entries| <= t.capacity && Keys(t.entries) <= t.deadlines.Keys
  }

  // The operations. A clock reading is a parameter wherever the code takes one.

  ghost function Expired<K>(ds: map<K, Deadline>, now: int): set<K> {
    set k | k in ds && ds[k].time < now
  }

  ghost function Without<K, V>(t: Timed<K, V>, gone: set<K>): Timed<K, V> {
    t.(entries := Restrict(t.entries, Keys(t.entries) - gone), deadlines := t.deadlines - gone)
  }

  /** `update`. */
  ghost function Purged<K, V>(t: Timed<K, V>, now: int): Timed<K, V> {
    Without(t, Expired(t.deadlines, now))
  }

  ghost function Current<K, V>(t: Timed<K, V>, auto: bool, now: int): Timed<K, V> {
    if auto then Purged(t, now) else t
  }

  /** The timeout that an insertion gives its entry. */
  ghost function Effective<K>(ds: map<K, Deadline>, k: K, to: int, preserveLonger: bool): int {
    if k in ds && preserveLonger && ds[k].to > to then ds[k].to else to
  }

  ghost function Started<K>(ds: map<K, Deadline>, k: K, to: int, preserveLonger: bool, now: int): map<K, Deadline> {
    var to' := Effective(ds, k, to, preserveLonger);
    ds[k := Deadline(now + to', to')]
  }

  /** An insertion that is to preserve a longer timeout gives the longer of the two, any other its own; the
      deadline is that much later than now, and no other key is affected. */
  lemma StartedMeans<K>(ds: map<K, Deadline>, k: K, to: int, preserveLonger: bool, now: int)
    ensures var after := Started(ds, k, to, preserveLonger, now);
            && after.Keys == ds.Keys + {k} && (forall x :: x in ds && x != k ==> after[x] == ds[x])
            && after[k].to == (if preserveLonger && k in ds then Max(ds[k].to, to) else to)
            && after[k].time == now + after[k].to
  {
  }

  ghost function Dropped<K>(ds: map<K, Deadline>, k: Option<K>): map<K, Deadline> {
    match k
    case None => ds
    case Some(x) => ds - {x}
  }

  ghost function TimedInsert<K, V>(t: Timed<K, V>, k: K, v: V, to: int, preserveLonger: bool, now: int): Timed<K, V> {
    Timed(t.capacity, Inserted(t.capacity, t.entries, k, v),
          Dropped(Started(t.deadlines, k, to, preserveLonger, now), Evicted(t.capacity, t.entries, k)))
  }

  ghost function TimedGet<K, V>(t: Timed<K, V>, k: K, now: int): Timed<K, V> {
    if Lookup(t.entries, k).None? || k !in t.deadlines then t
    else t.(entries := Touched(t.entries, k),
            deadlines := Restarted(t.deadlines, k, now))
  }

  ghost function Restarted<K>(ds: map<K, Deadline>, k: K, now: int): map<K, Deadline>
    requires k in ds
  {
    ds[k := Deadline(now + ds[k].to, ds[k].to)]
  }

  ghost function TimedErase<K, V>(t: Timed<K, V>, k: K): Timed<K, V> {
    t.(entries := Remove(t.entries, k), deadlines := t.deadlines - {k})
  }

  ghost function Resized<K, V>(t: Timed<K, V>, n: nat): Timed<K, V> {
    t.(capacity := n, entries := if n < |t.entries| then t.entries[..n] else t.entries)
  }

  // They keep the cache well formed

  lemma {:induction false} RestrictKeeps<K, V>(es: Entries<K, V>, s: set<K>)
    requires Unique(es)
    ensures Unique(Restrict(es, s)) && Keys(Restrict(es, s)) == Keys(es) * s && |Restrict(es, s)| <= |es|
  {
    if es != [] {
      var rest := es[1..];
      assert es == [es[0]] + rest;
      assert Unique(rest);
      RestrictKeeps(rest, s);
      HeadKey(es);
      if es[0].0 in s {
        PushKeeps(Restrict(rest, s), es[0].0, es[0].1);
      }
    }
  }

  lemma HeadKey<K, V>(es: Entries<K, V>)
    requires Unique(es) && es != []
    ensures es[0].0 !in Keys(es[1..]) && Keys(es) == Keys(es[1..]) + {es[0].0}
  {
    assert Unique(es[1..]);
    assert es[0].0 !in Keys(es[1..]);
    PushKeeps(es[1..], es[0].0, es[0].1);
    assert [(es[0].0, es[0].1)] + es[1..] == es;
  }

  lemma PurgedKeeps<K, V>(t: Timed<K, V>, now: int)
    requires WellFormed(t)
    ensures var u := Purged(t, now);
            && WellFormed(u)
            && (forall k :: k in Keys(u.entries) <==> k in Keys(t.entries) && t.deadlines[k].time >= now)
            && (Keys(t.entries) == t.deadlines.Keys ==> Keys(u.entries) == u.deadlines.Keys)
  {
    RestrictKeeps(t.entries, Keys(t.entries) - Expired(t.deadlines, now));
  }

  lemma InsertKeeps<K, V>(t: Timed<K, V>, k: K, v: V, to: int, preserveLonger: bool, now: int)
    requires WellFormed(t) && t.capacity > 0
    ensures var u := TimedInsert(t, k, v, to, preserveLonger, now);
            && WellFormed(u)
            && (Keys(t.entries) == t.deadlines.Keys ==> Keys(u.entries) == u.deadlines.Keys)
  {
    InsertedKeeps(t.capacity, t.entries, k, v);
  }

  /** The key has a deadline for the longer of two timeouts, if that was asked for, or for its own. */
  ghost predicate DeadlineGiven<K>(ds: map<K, Deadline>, k: K, to: int, preserveLonger: bool, now: int, after: map<K, Deadline>) {
    var to' := if preserveLonger && k in ds then Max(ds[k].to, to) else to;
    k in after && after[k] == Deadline(now + to', to')
  }

  lemma InsertedDeadline<K, V>(t: Timed<K, V>, k: K, v: V, to: int, preserveLonger: bool, now: int)
    requires WellFormed(t) && t.capacity > 0
    ensures DeadlineGiven(t.deadlines, k, to, preserveLonger, now, TimedInsert(t, k, v, to, preserveLonger, now).deadlines)
  {
    StartedMeans(t.deadlines, k, to, preserveLonger, now);
    InsertedKeeps(t.capacity, t.entries, k, v);
  }

  lemma GetKeeps<K, V>(t: Timed<K, V>, k: K, now: int)
    requires WellFormed(t)
    ensures WellFormed(TimedGet(t, k, now)) && Keys(TimedGet(t, k, now).entries) == Keys(t.entries)
    ensures Lookup(t.entries, k).Some? <==> k in Keys(t.entries)
    ensures TimedGet(t, k, now).deadlines.Keys == t.deadlines.Keys
  {
    LookupMeans(t.entries, k);
    TouchedKeeps(t.entries, k);
  }

  lemma EraseKeeps<K, V>(t: Timed<K, V>, k: K)
    requires WellFormed(t)
    ensures WellFormed(TimedErase(t, k)) && Keys(TimedErase(t, k).entries) == Keys(t.entries) - {k}
  {
    RemoveKeeps(t.entries, k);
  }

  lemma {:induction false} PrefixKeys<K, V>(es: Entries<K, V>, n: nat)
    requires Unique(es) && n <= |es|
    ensures Unique(es[..n]) && Keys(es[..n]) <= Keys(es)
  {
    forall x | x in Keys(es[..n]) ensures x in Keys(es) {
      var i :| 0 <= i < n && es[..n][i].0 == x;
      assert es[i].0 == x;
    }
  }

  // Runs

  datatype Call<K, V> =
    | Insert(k: K, v: V, to: int, preserveLonger: bool)
    | Get(k: K)
    | Erase(k: K)
    | Clear
    | SetCapacity(n: nat)
    | Update

  /** A call with the two readings of the clock it takes at most. */
  datatype Event<K, V> = Event(call: Call<K, V>, now: int, later: int)

  /** One call on a cache that does or does not update itself. */
  ghost function Step<K, V>(t: Timed<K, V>, auto: bool, e: Event<K, V>): Timed<K, V> {
    match e.call
    case Insert(k, v, to, preserve) => TimedInsert(Current(t, auto, e.now), k, v, to, preserve, e.later)
    case Get(k) => TimedGet(Current(t, auto, e.now), k, e.later)
    case Erase(k) => TimedErase(Current(t, auto, e.now), k)
    case Clear => t.(entries := [], deadlines := map[])
    case SetCapacity(n) => Resized(t, n)
    case Update => Purged(t, e.now)
  }

  /** The hit or miss of a `get`. */
  ghost predicate Hits<K, V>(t: Timed<K, V>, auto: bool, k: K, now: int) {
    Lookup(Current(t, auto, now).entries, k).Some?
  }

  /** What an insertion leaves remembered. */
  ghost function RememberInsert<K, V>(touched: map<K, Deadline>, t: Timed<K, V>, k: K, to: int, preserve: bool, now: int): map<K, Deadline> {
    var to' := if preserve && k in t.deadlines then Max(t.deadlines[k].to, to) else to;
    Dropped(touched[k := Deadline(now + to', to')], Evicted(t.capacity, t.entries, k))
  }

  /** What has been touched and neither erased nor evicted since, with the deadline that the last
      insertion or hit gave it: nothing expires here. */
  ghost function Remember<K, V>(touched: map<K, Deadline>, t: Timed<K, V>, auto: bool, e: Event<K, V>): map<K, Deadline> {
    match e.call
    case Insert(k, v, to, preserve) =>
      RememberInsert(touched, Current(t, auto, e.now), k, to, preserve, e.later)
    case Get(k) =>
      if Hits(t, auto, k, e.now) && k in touched then touched[k := Deadline(e.later + touched[k].to, touched[k].to)] else touched
    case Erase(k) => touched - {k}
    case Clear => map[]
    case SetCapacity(n) => if n < |t.entries| then touched - Keys(t.entries[n..]) else touched
    case Update => touched
  }

  /** What shrinking has dropped from the list and nothing has inserted, erased, expired or cleared since. */
  ghost function Leak<K, V>(leaked: map<K, Deadline>, t: Timed<K, V>, auto: bool, e: Event<K, V>): map<K, Deadline> {
    match e.call
    case Insert(k, v, to, preserve) => Unexpired(leaked, auto, e.now) - {k}
    case Get(k) => Unexpired(leaked, auto, e.now)
    case Erase(k) => Unexpired(leaked, auto, e.now) - {k}
    case Clear => map[]
    case SetCapacity(n) => if n < |t.entries| then leaked + CutOff(t, n) else leaked
    case Update => Unexpired(leaked, true, e.now)
  }

  ghost function Unexpired<K>(ds: map<K, Deadline>, auto: bool, now: int): map<K, Deadline> {
    if auto then ds - Expired(ds, now) else ds
  }

  ghost function CutOff<K, V>(t: Timed<K, V>, n: nat): map<K, Deadline>
    requires n <= |t.entries|
  {
    map k | k in Keys(t.entries[n..]) && k in t.deadlines :: t.deadlines[k]
  }

  /** The state, what is remembered, what has leaked, and the latest clock reading after some events. */
  datatype Run<K, V> = Run(t: Timed<K, V>, touched: map<K, Deadline>, leaked: map<K, Deadline>, clock: int)

  ghost function Next<K, V>(r: Run<K, V>, auto: bool, e: Event<K, V>): Run<K, V> {
    Run(Step(r.t, auto, e), Remember(r.touched, r.t, auto, e), Leak(r.leaked, r.t, auto, e), e.later)
  }

  ghost function After<K, V>(capacity: nat, auto: bool, start: int, events: seq<Event<K, V>>): Run<K, V> {
    if events == [] then Run(Timed(capacity, [], map[]), map[], map[], start)
    else Next(After(capacity, auto, start, events[..|events| - 1]), auto, events[|events| - 1])
  }

  /** The clock never runs backwards, and insertions find a capacity. */
  ghost predicate Steady<K, V>(capacity: nat, auto: bool, start: int, events: seq<Event<K, V>>) {
    events != [] ==>
      var before := events[..|events| - 1];
      Steady(capacity, auto, start, before) && Fits(After(capacity, auto, start, before), events[|events| - 1])
  }

  ghost predicate Fits<K, V>(r: Run<K, V>, e: Event<K, V>) {
    r.clock <= e.now <= e.later && (e.call.Insert? ==> r.t.capacity > 0)
  }

  ghost predicate NeverShrinks<K, V>(capacity: nat, auto: bool, start: int, events: seq<Event<K, V>>) {
    events != [] ==>
      var before := events[..|events| - 1];
      var e := events[|events| - 1];
      && NeverShrinks(capacity, auto, start, before)
      && (e.call.SetCapacity? ==> |After(capacity, auto, start, before).t.entries| <= e.call.n)
  }

  /** The part of a run that hits depend on. */
  datatype Memory<K, V> = Memory(t: Timed<K, V>, touched: map<K, Deadline>, clock: int)

  /** A cached key is remembered, and one remembered but not cached has expired. */
  ghost predicate Agrees<K, V>(r: Memory<K, V>, k: K) {
    if k in Keys(r.t.entries) then k in r.touched && k in r.t.deadlines && r.touched[k] == r.t.deadlines[k]
    else k in r.touched ==> r.touched[k].time < r.clock
  }

  ghost predicate Consistent<K, V>(r: Memory<K, V>) {
    WellFormed(r.t) && forall k {:trigger Agrees(r, k)} :: k in Keys(r.t.entries) + r.touched.Keys ==> Agrees(r, k)
  }

  lemma AllAgree<K, V>(r: Memory<K, V>, k: K)
    requires Consistent(r)
    ensures Agrees(r, k)
  {
    assert k in Keys(r.t.entries) + r.touched.Keys ==> Agrees(r, k);
  }

  lemma ConsistentPurge<K, V>(r: Memory<K, V>, now: int)
    requires Consistent(r) && r.clock <= now
    ensures Consistent(Memory(Purged(r.t, now), r.touched, now))
  {
    PurgedKeeps(r.t, now);
    var next := Memory(Purged(r.t, now), r.touched, now);
    forall x | x in Keys(next.t.entries) + next.touched.Keys ensures Agrees(next, x) {
      AllAgree(r, x);
    }
  }

  lemma ConsistentInsert<K, V>(r: Memory<K, V>, k: K, v: V, to: int, preserve: bool, now: int)
    requires Consistent(r) && r.clock <= now && r.t.capacity > 0
    ensures Consistent(Memory(TimedInsert(r.t, k, v, to, preserve, now), RememberInsert(r.touched, r.t, k, to, preserve, now), now))
  {
    InsertKeeps(r.t, k, v, to, preserve, now);
    var next := Memory(TimedInsert(r.t, k, v, to, preserve, now), RememberInsert(r.touched, r.t, k, to, preserve, now), now);
    forall x | x in Keys(next.t.entries) + next.touched.Keys ensures Agrees(next, x) {
      AllAgree(r, x);
      AgreesInserted(r, k, v, to, preserve, now, x);
    }
  }

  lemma AgreesInserted<K, V>(r: Memory<K, V>, k: K, v: V, to: int, preserve: bool, now: int, x: K)
    requires WellFormed(r.t) && Agrees(r, x) && r.clock <= now && r.t.capacity > 0
    ensures Agrees(Memory(TimedInsert(r.t, k, v, to, preserve, now), RememberInsert(r.touched, r.t, k, to, preserve, now), now), x)
  {
    InsertedKeeps(r.t.capacity, r.t.entries, k, v);
    StartedMeans(r.t.deadlines, k, to, preserve, now);
  }

  lemma ConsistentGet<K, V>(r: Memory<K, V>, k: K, now: int)
    requires Consistent(r) && r.clock <= now
    ensures var touched := if Lookup(r.t.entries, k).Some? && k in r.touched
                           then r.touched[k := Deadline(now + r.touched[k].to, r.touched[k].to)] else r.touched;
            Consistent(Memory(TimedGet(r.t, k, now), touched, now))
  {
    GetKeeps(r.t, k, now);
    AllAgree(r, k);
    var next := Memory(TimedGet(r.t, k, now),
                    if Lookup(r.t.entries, k).Some? && k in r.touched
                    then r.touched[k := Deadline(now + r.touched[k].to, r.touched[k].to)] else r.touched, now);
    forall x | x in Keys(next.t.entries) + next.touched.Keys ensures Agrees(next, x) {
      AllAgree(r, x);
    }
  }

  lemma ConsistentErase<K, V>(r: Memory<K, V>, k: K, now: int)
    requires Consistent(r) && r.clock <= now
    ensures Consistent(Memory(TimedErase(r.t, k), r.touched - {k}, now))
  {
    EraseKeeps(r.t, k);
    var next := Memory(TimedErase(r.t, k), r.touched - {k}, now);
    forall x | x in Keys(next.t.entries) + next.touched.Keys ensures Agrees(next, x) {
      AllAgree(r, x);
    }
  }

  lemma ConsistentResize<K, V>(r: Memory<K, V>, n: nat, now: int)
    requires Consistent(r) && r.clock <= now
    ensures Consistent(Memory(Resized(r.t, n), if n < |r.t.entries| then r.touched - Keys(r.t.entries[n..]) else r.touched, now))
  {
    if n < |r.t.entries| {
      SplitKeys(r.t.entries, n);
    }
    var next := Memory(Resized(r.t, n), if n < |r.t.entries| then r.touched - Keys(r.t.entries[n..]) else r.touched, now);
    forall x | x in Keys(next.t.entries) + next.touched.Keys ensures Agrees(next, x) {
      AllAgree(r, x);
    }
  }

  ghost function Kept<K, V>(r: Run<K, V>): Memory<K, V> {
    Memory(r.t, r.touched, r.clock)
  }

  lemma ConsistentCurrent<K, V>(r: Memory<K, V>, auto: bool, now: int)
    requires Consistent(r) && r.clock <= now
    ensures Consistent(Memory(Current(r.t, auto, now), r.touched, now))
  {
    if auto {
      ConsistentPurge(r, now);
    } else {
      var next := Memory(r.t, r.touched, now);
      forall x | x in Keys(next.t.entries) + next.touched.Keys ensures Agrees(next, x) {
        AllAgree(r, x);
      }
    }
  }

  lemma ConsistentStep<K, V>(r: Run<K, V>, auto: bool, e: Event<K, V>)
    requires Consistent(Kept(r)) && Fits(r, e)
    ensures Consistent(Kept(Next(r, auto, e)))
  {
    match e.call
    case Insert(_, _, _, _) => ConsistentAfterInsert(r, auto, e);
    case Get(_) => ConsistentAfterGet(r, auto, e);
    case Erase(k) =>
      ConsistentCurrent(Kept(r), auto, e.now);
      ConsistentErase(Memory(Current(r.t, auto, e.now), r.touched, e.now), k, e.later);
    case Clear => assert Keys<K, V>([]) == {};
    case SetCapacity(n) => ConsistentResize(Kept(r), n, e.later);
    case Update =>
      ConsistentPurge(Kept(r), e.now);
      ConsistentCurrent(Memory(Purged(r.t, e.now), r.touched, e.now), false, e.later);
  }

  lemma ConsistentAfterInsert<K, V>(r: Run<K, V>, auto: bool, e: Event<K, V>)
    requires Consistent(Kept(r)) && Fits(r, e) && e.call.Insert?
    ensures Consistent(Kept(Next(r, auto, e)))
  {
    ConsistentCurrent(Kept(r), auto, e.now);
    var current := Memory(Current(r.t, auto, e.now), r.touched, e.now);
    ConsistentInsert(current, e.call.k, e.call.v, e.call.to, e.call.preserveLonger, e.later);
  }

  lemma ConsistentAfterGet<K, V>(r: Run<K, V>, auto: bool, e: Event<K, V>)
    requires Consistent(Kept(r)) && Fits(r, e) && e.call.Get?
    ensures Consistent(Kept(Next(r, auto, e)))
  {
    ConsistentCurrent(Kept(r), auto, e.now);
    ConsistentGet(Memory(Current(r.t, auto, e.now), r.touched, e.now), e.call.k, e.later);
  }

  lemma SplitKeys<K, V>(es: Entries<K, V>, n: nat)
    requires Unique(es) && n <= |es|
    ensures Unique(es[..n]) && Keys(es[..n]) == Keys(es) - Keys(es[n..])
  {
    PrefixKeys(es, n);
    forall x ensures x in Keys(es[..n]) <==> x in Keys(es) && x !in Keys(es[n..]) {
      if x in Keys(es[..n]) {
        var i :| 0 <= i < n && es[..n][i].0 == x;
        forall j | 0 <= j < |es| - n ensures es[n..][j].0 != x {
          assert es[i].0 != es[n + j].0;
        }
      }
      if x in Keys(es) && x !in Keys(es[n..]) {
        var i :| 0 <= i < |es| && es[i].0 == x;
        assert forall j :: 0 <= j < |es| - n ==> es[n..][j].0 != x;
        assert es == es[..n] + es[n..];
        assert es[..n][i].0 == x;
      }
    }
  }

  /** In every run, with or without auto-update, a cached key has the deadline of its last insertion or
      hit, and a remembered key that is not cached has expired. */
  lemma {:induction false} RunsAreConsistent<K, V>(capacity: nat, auto: bool, start: int, events: seq<Event<K, V>>)
    requires Steady(capacity, auto, start, events)
    ensures Consistent(Kept(After(capacity, auto, start, events)))
    decreases |events|
  {
    if events != [] {
      RunsAreConsistent(capacity, auto, start, events[..|events| - 1]);
      ConsistentStep(After(capacity, auto, start, events[..|events| - 1]), auto, events[|events| - 1]);
    } else {
      assert Keys<K, V>([]) == {};
    }
  }

  /** After any run with auto-update, a `get` hits iff the key has not been erased or evicted since its
      last insertion or hit, and the deadline that gave it is not before now. */
  lemma HitIffFresh<K, V>(capacity: nat, start: int, events: seq<Event<K, V>>, k: K, now: int)
    requires Steady(capacity, true, start, events) && After(capacity, true, start, events).clock <= now
    ensures var r := After(capacity, true, start, events);
            Hits(r.t, true, k, now) <==> k in r.touched && r.touched[k].time >= now
  {
    var r := After(capacity, true, start, events);
    RunsAreConsistent(capacity, true, start, events);
    AllAgree(Kept(r), k);
    PurgedKeeps(r.t, now);
    LookupMeans(Purged(r.t, now).entries, k);
  }

  // Keys of the list and keys with a deadline

  /** Besides the keys of the list, just the leaked keys have deadlines. */
  ghost predicate Accounted<K, V>(t: Timed<K, V>, leaked: map<K, Deadline>) {
    && WellFormed(t) && t.deadlines.Keys == Keys(t.entries) + leaked.Keys && Keys(t.entries) !! leaked.Keys
    && forall k :: k in leaked ==> t.deadlines[k] == leaked[k]
  }

  lemma AccountedCurrent<K, V>(t: Timed<K, V>, leaked: map<K, Deadline>, auto: bool, now: int)
    requires Accounted(t, leaked)
    ensures Accounted(Current(t, auto, now), Unexpired(leaked, auto, now))
  {
    PurgedKeeps(t, now);
  }

  lemma AccountedInsert<K, V>(t: Timed<K, V>, leaked: map<K, Deadline>, k: K, v: V, to: int, preserve: bool, now: int)
    requires Accounted(t, leaked) && t.capacity > 0
    ensures Accounted(TimedInsert(t, k, v, to, preserve, now), leaked - {k})
  {
    InsertKeeps(t, k, v, to, preserve, now);
    InsertedKeeps(t.capacity, t.entries, k, v);
  }

  lemma AccountedGet<K, V>(t: Timed<K, V>, leaked: map<K, Deadline>, k: K, now: int)
    requires Accounted(t, leaked)
    ensures Accounted(TimedGet(t, k, now), leaked)
  {
    GetKeeps(t, k, now);
  }

  lemma AccountedErase<K, V>(t: Timed<K, V>, leaked: map<K, Deadline>, k: K)
    requires Accounted(t, leaked)
    ensures Accounted(TimedErase(t, k), leaked - {k})
  {
    EraseKeeps(t, k);
  }

  lemma AccountedResize<K, V>(t: Timed<K, V>, leaked: map<K, Deadline>, n: nat)
    requires Accounted(t, leaked)
    ensures Accounted(Resized(t, n), if n < |t.entries| then leaked + CutOff(t, n) else leaked)
  {
    if n < |t.entries| {
      SplitKeys(t.entries, n);
      CutOffKeys(t, n);
    }
  }

  lemma CutOffKeys<K, V>(t: Timed<K, V>, n: nat)
    requires WellFormed(t) && n <= |t.entries|
    ensures CutOff(t, n).Keys == Keys(t.entries[n..]) <= Keys(t.entries)
  {
    forall x | x in Keys(t.entries[n..]) ensures x in Keys(t.entries) {
      var i :| 0 <= i < |t.entries[n..]| && t.entries[n..][i].0 == x;
      assert t.entries[n + i].0 == x;
    }
  }

  lemma AccountedStep<K, V>(r: Run<K, V>, auto: bool, e: Event<K, V>)
    requires Accounted(r.t, r.leaked) && Fits(r, e)
    ensures Accounted(Next(r, auto, e).t, Next(r, auto, e).leaked)
  {
    AccountedCurrent(r.t, r.leaked, auto, e.now);
    var t, leaked := Current(r.t, auto, e.now), Unexpired(r.leaked, auto, e.now);
    match e.call
    case Insert(k, v, to, preserve) => AccountedInsert(t, leaked, k, v, to, preserve, e.later);
    case Get(k) => AccountedGet(t, leaked, k, e.later);
    case Erase(k) => AccountedErase(t, leaked, k);
    case Clear => assert Keys<K, V>([]) == {};
    case SetCapacity(n) => AccountedResize(r.t, r.leaked, n);
    case Update => AccountedCurrent(r.t, r.leaked, true, e.now);
  }

  /** In every run, with or without auto-update: the keys with a deadline are those of the list and those
      that shrinking has leaked, so the two agree iff nothing is leaked; and nothing leaks as long as the
      capacity never drops below the number of entries. */
  lemma {:induction false} SameKeys<K, V>(capacity: nat, auto: bool, start: int, events: seq<Event<K, V>>)
    requires Steady(capacity, auto, start, events)
    ensures var r := After(capacity, auto, start, events);
            && Accounted(r.t, r.leaked)
            && (Keys(r.t.entries) == r.t.deadlines.Keys <==> r.leaked == map[])
            && (NeverShrinks(capacity, auto, start, events) ==> r.leaked == map[])
    decreases |events|
  {
    if events == [] {
      assert Keys<K, V>([]) == {};
    } else {
      var before := events[..|events| - 1];
      SameKeys(capacity, auto, start, before);
      AccountedStep(After(capacity, auto, start, before), auto, events[|events| - 1]);
    }
    NothingLeaked(After(capacity, auto, start, events));
  }

  lemma NothingLeaked<K, V>(r: Run<K, V>)
    requires Accounted(r.t, r.leaked)
    ensures Keys(r.t.entries) == r.t.deadlines.Keys <==> r.leaked == map[]
  {
    if Keys(r.t.entries) == r.t.deadlines.Keys {
      assert r.leaked.Keys == {};
    }
  }

  /** A new capacity leaks iff it is below the number of entries. */
  lemma ShrinkLeaks<K, V>(t: Timed<K, V>, n: nat)
    requires WellFormed(t) && Keys(t.entries) == t.deadlines.Keys
    ensures Keys(Resized(t, n).entries) == Resized(t, n).deadlines.Keys <==> |t.entries| <= n
  {
    if n < |t.entries| {
      SplitKeys(t.entries, n);
      assert t.entries[n..][0].0 in Keys(t.entries[n..]);
      assert t.entries[n].0 in Keys(t.entries);
    }
  }

  /** A run that leaves a deadline without an entry. */
  lemma ShrinkingLeaks(auto: bool)
    ensures var events := [Event(Call.Insert(1, 0, 5, false), 0, 0), Event(SetCapacity(0), 0, 0)];
            var r := After<int, int>(1, auto, 0, events);
            Steady(1, auto, 0, events) && r.t.entries == [] && 1 in r.t.deadlines && 1 in r.leaked
  {
    var e0, e1: Event<int, int> := Event(Call.Insert(1, 0, 5, false), 0, 0), Event(SetCapacity(0), 0, 0);
    var events := [e0, e1];
    assert events[..1] == [e0] && [e0][..0] == [];
    var empty: Timed<int, int> := Timed(1, [], map[]);
    var start: Run<int, int> := Run(empty, map[], map[], 0);
    assert After<int, int>(1, auto, 0, []) == start;
    assert Expired<int>(map[], 0) == {};
    assert Current(empty, auto, 0) == empty;
    assert Steady<int, int>(1, auto, 0, []) && Fits(start, e0);
    var r := After<int, int>(1, auto, 0, [e0]);
    assert r == Next(start, auto, e0) && r.t == TimedInsert(empty, 1, 0, 5, false, 0);
    assert Steady(1, auto, 0, [e0]) && Fits(r, e1);
    assert r.t.entries == [(1, 0)] && 1 in r.t.deadlines;
    assert r.t.entries[0..][0].0 in Keys(r.t.entries[0..]);
  }

  // The timeout multimap and the index into it

  ghost predicate Sorted<K>(list: seq<Node<K, Deadline>>) {
    forall i, j :: 0 <= i < j < |list| ==> list[i].val.time <= list[j].val.time
  }

  /** The multimap holds exactly these deadlines, in order of time. */
  ghost predicate Filed<K>(list: seq<Node<K, Deadline>>, iters: map<K, nat>, ds: map<K, Deadline>) {
    && Indexed(list, iters) && Sorted(list) && ds.Keys == iters.Keys
    && forall i :: 0 <= i < |list| ==> list[i].key in ds && ds[list[i].key] == list[i].val
  }

  lemma FiledAt<K>(list: seq<Node<K, Deadline>>, iters: map<K, nat>, ds: map<K, Deadline>, k: K) returns (i: nat)
    requires Filed(list, iters, ds) && k in ds
    ensures i < |list| && list[i].key == k && list[i].val == ds[k]
  {
    i := Position(list, iters[k]);
    PositionOfKey(list, iters, k);
  }

  lemma Unfiled<K>(list: seq<Node<K, Deadline>>, iters: map<K, nat>, ds: map<K, Deadline>, i: nat)
    requires Filed(list, iters, ds) && i < |list|
    ensures Filed(TakeOut(list, i), iters - {list[i].key}, ds - {list[i].key})
  {
    var rest, k := TakeOut(list, i), list[i].key;
    TakenOut(list, iters, i);
    forall j | 0 <= j < |rest| ensures rest[j].key in ds - {k} && (ds - {k})[rest[j].key] == rest[j].val {
      assert rest[j] == list[if j < i then j else j + 1];
      assert rest[j].key in iters - {k};
    }
    StillSorted(list, i);
  }

  lemma StillSorted<K>(list: seq<Node<K, Deadline>>, i: nat)
    requires Sorted(list) && i < |list|
    ensures Sorted(TakeOut(list, i))
  {
    var rest := TakeOut(list, i);
    assert forall j :: 0 <= j < |rest| ==> rest[j] == list[if j < i then j else j + 1];
  }

  /** `all` is `list` with `n` put in at `i`. */
  ghost predicate Placed<K>(list: seq<Node<K, Deadline>>, i: nat, n: Node<K, Deadline>, all: seq<Node<K, Deadline>>) {
    && i <= |list| && |all| == |list| + 1
    && forall j {:trigger all[j]} :: 0 <= j < |all| ==> all[j] == if j < i then list[j] else if j == i then n else list[j - 1]
  }

  lemma SortedPlaced<K>(list: seq<Node<K, Deadline>>, i: nat, n: Node<K, Deadline>, all: seq<Node<K, Deadline>>)
    requires Sorted(list) && Placed(list, i, n, all)
    requires i > 0 ==> list[i - 1].val.time <= n.val.time
    requires i < |list| ==> n.val.time <= list[i].val.time
    ensures Sorted(all)
  {
  }

  lemma IndexedPlaced<K>(list: seq<Node<K, Deadline>>, iters: map<K, nat>, i: nat, n: Node<K, Deadline>, all: seq<Node<K, Deadline>>)
    requires Indexed(list, iters) && Placed(list, i, n, all) && n.key !in iters && forall j :: 0 <= j < |list| ==> list[j].id != n.id
    ensures Indexed(all, iters[n.key := n.id])
  {
    forall x ensures x in Keys(EntriesOf(all)) <==> x == n.key || x in iters {
      if x == n.key {
        assert EntriesOf(all)[i].0 == x;
      } else if x in iters {
        PositionOfKey(list, iters, x);
        var p := Position(list, iters[x]);
        assert EntriesOf(all)[if p < i then p else p + 1].0 == x;
      }
    }
  }

  /** Filing a deadline under a new key, between the earlier and the later ones. */
  lemma FiledNew<K>(list: seq<Node<K, Deadline>>, iters: map<K, nat>, ds: map<K, Deadline>, i: nat, n: Node<K, Deadline>,
                    all: seq<Node<K, Deadline>>)
    requires Filed(list, iters, ds) && Placed(list, i, n, all) && n.key !in iters && forall j :: 0 <= j < |list| ==> list[j].id != n.id
    requires i > 0 ==> list[i - 1].val.time <= n.val.time
    requires i < |list| ==> n.val.time <= list[i].val.time
    ensures Filed(all, iters[n.key := n.id], ds[n.key := n.val])
  {
    SortedPlaced(list, i, n, all);
    IndexedPlaced(list, iters, i, n, all);
    forall j | 0 <= j < |all| ensures all[j].key in ds[n.key := n.val] && ds[n.key := n.val][all[j].key] == all[j].val {
    }
  }

  /** The multimap from times to keys, with the index that finds a key in it. */
  class Timeouts<K(==)> {
    var timeoutKeys: seq<Node<K, Deadline>>
    var keysTimeoutIters: map<K, nat>
    /** Above every identity in use. */
    var nextId: nat
    ghost var deadlines: map<K, Deadline>

    ghost predicate Valid()
      reads this
    {
      && Filed(timeoutKeys, keysTimeoutIters, deadlines)
      && forall i :: 0 <= i < |timeoutKeys| ==> timeoutKeys[i].id < nextId
    }

    constructor ()
      ensures Valid() && deadlines == map[]
    {
      timeoutKeys, keysTimeoutIters, nextId, deadlines := [], map[], 0, map[];
      new;
      assert Keys<K, Deadline>(EntriesOf([])) == {};
    }

    /** Where a deadline goes: behind every other that is not later. */
    method UpperBound(time: int) returns (i: nat)
      requires Valid()
      ensures i <= |timeoutKeys| && (i > 0 ==> timeoutKeys[i - 1].val.time <= time)
      ensures i < |timeoutKeys| ==> time < timeoutKeys[i].val.time
    {
      i := |timeoutKeys|;
      while i > 0 && time < timeoutKeys[i - 1].val.time
        invariant i <= |timeoutKeys| && (i < |timeoutKeys| ==> time < timeoutKeys[i].val.time)
      {
        i := i - 1;
      }
    }

    method Emplace(k: K, d: Deadline)
      requires Valid() && k !in deadlines
      modifies this
      ensures Valid() && deadlines == old(deadlines)[k := d]
    {
      var i := UpperBound(d.time);
      var n := Node(nextId, k, d);
      var all := PutAt(timeoutKeys, i, n);
      FiledNew(timeoutKeys, keysTimeoutIters, deadlines, i, n, all);
      timeoutKeys, keysTimeoutIters, deadlines := all, keysTimeoutIters[k := nextId], deadlines[k := d];
      nextId := nextId + 1;
    }

    /** Gives a key a deadline in place of the one it may have. */
    method Refile(k: K, d: Deadline)
      requires Valid()
      modifies this
      ensures Valid() && deadlines == old(deadlines)[k := d]
    {
      Erase(k);
      Emplace(k, d);
    }

    /** Gives an inserted key its deadline. */
    method Start(k: K, to: int, preserveLonger: bool, now: int)
      requires Valid()
      modifies this
      ensures Valid() && deadlines == Started(old(deadlines), k, to, preserveLonger, now)
      ensures deadlines[k].to == if preserveLonger && k in old(deadlines) then Max(old(deadlines)[k].to, to) else to
      ensures deadlines == old(deadlines)[k := Deadline(now + deadlines[k].to, deadlines[k].to)]
    {
      ghost var ds := deadlines;
      var d := Find(k);
      var to' := if d.Some? && preserveLonger && d.value.to > to then d.value.to else to;
      var next := Deadline(now + to', to');
      assert ds[k := next] == Started(ds, k, to, preserveLonger, now);
      Refile(k, next);
    }

    /** `on_key_evicted`, if a key was evicted. */
    method OnKeyEvicted(k: Option<K>)
      requires Valid()
      modifies this
      ensures Valid() && deadlines == Dropped(old(deadlines), k)
    {
      if k.Some? {
        Erase(k.value);
      }
    }

    /** Starts the timeout of a key again. */
    method Restart(k: K, now: int)
      requires Valid() && k in deadlines
      modifies this
      ensures Valid() && deadlines == Restarted(old(deadlines), k, now)
    {
      ghost var ds := deadlines;
      var d := Find(k);
      var next := Deadline(now + d.value.to, d.value.to);
      assert ds[k := next] == Restarted(ds, k, now);
      Refile(k, next);
    }

    method Find(k: K) returns (d: Option<Deadline>)
      requires Valid()
      ensures d == if k in deadlines then Some(deadlines[k]) else None
    {
      if k !in keysTimeoutIters {
        return None;
      }
      var i := Position(timeoutKeys, keysTimeoutIters[k]);
      PositionOfKey(timeoutKeys, keysTimeoutIters, k);
      d := Some(timeoutKeys[i].val);
    }

    method EraseAt(i: nat)
      requires Valid() && i < |timeoutKeys|
      modifies this
      ensures Valid() && deadlines == old(deadlines) - {old(timeoutKeys[i].key)}
      ensures timeoutKeys == TakeOut(old(timeoutKeys), i)
    {
      var k := timeoutKeys[i].key;
      Unfiled(timeoutKeys, keysTimeoutIters, deadlines, i);
      BoundKept(timeoutKeys, nextId, i);
      timeoutKeys := TakeOut(timeoutKeys, i);
      keysTimeoutIters := keysTimeoutIters - {k};
      deadlines := deadlines - {k};
    }

    /** Drops the deadline of a key, if it has one. */
    method Erase(k: K)
      requires Valid()
      modifies this
      ensures Valid() && deadlines == old(deadlines) - {k}
    {
      if k in keysTimeoutIters {
        PositionOfKey(timeoutKeys, keysTimeoutIters, k);
        var i := Position(timeoutKeys, keysTimeoutIters[k]);
        EraseAt(i);
      } else {
        assert deadlines - {k} == deadlines;
      }
    }

    /** The key of the earliest deadline, if that is before `now`. */
    method Earliest(now: int) returns (k: Option<K>)
      requires Valid()
      ensures k.Some? ==> k.value in deadlines && deadlines[k.value].time < now
      ensures k.None? ==> Expired(deadlines, now) == {}
    {
      if timeoutKeys != [] && timeoutKeys[0].val.time < now {
        return Some(timeoutKeys[0].key);
      }
      forall x | x in deadlines ensures deadlines[x].time >= now {
        var i := FiledAt(timeoutKeys, keysTimeoutIters, deadlines, x);
      }
      k := None;
    }

    method Clear()
      modifies this
      ensures Valid() && deadlines == map[]
    {
      timeoutKeys, keysTimeoutIters, deadlines := [], map[], map[];
      assert Keys<K, Deadline>(EntriesOf([])) == {};
    }
  }

  lemma BoundKept<K>(list: seq<Node<K, Deadline>>, bound: nat, i: nat)
    requires i < |list| && forall j :: 0 <= j < |list| ==> list[j].id < bound
    ensures forall j :: 0 <= j < |TakeOut(list, i)| ==> TakeOut(list, i)[j].id < bound
  {
  }

  class LruTimeoutCache<K(==), V> {
    const lru: LruCache<K, V>
    const timeouts: Timeouts<K>
    const timeout: int
    const autoUpdate: bool

    ghost predicate Valid()
      reads lru, timeouts
    {
      lru.Valid() && timeouts.Valid() && Keys(lru.View()) <= timeouts.deadlines.Keys
    }

    ghost function State(): Timed<K, V>
      reads lru, timeouts
    {
      Timed(lru.capacity, lru.View(), timeouts.deadlines)
    }

    constructor (s: nat, to: int, up: bool)
      ensures Valid() && State() == Timed(s, [], map[]) && timeout == to && autoUpdate == up && fresh(lru) && fresh(timeouts)
    {
      lru := new LruCache(s);
      timeouts := new Timeouts();
      timeout, autoUpdate := to, up;
      new;
      assert Keys<K, V>([]) == {};
    }

    lemma LruKeys()
      requires Valid()
      ensures WellFormed(State())
    {
      IndexedUnique(lru.keyValues, lru.mappedValues);
    }

    method Drop(k: K)
      requires Valid()
      modifies lru, timeouts
      ensures Valid() && State() == TimedErase(old(State()), k)
    {
      LruKeys();
      EraseKeeps(State(), k);
      timeouts.Erase(k);
      lru.Erase(k);
    }

    /** Drops what has expired. */
    method Update(now: int)
      requires Valid()
      modifies lru, timeouts
      ensures Valid() && State() == Purged(old(State()), now)
    {
      ghost var t, gone := State(), {};
      NothingGone(t);
      var more := true;
      while more
        invariant Valid() && State() == Without(t, gone) && gone <= Expired(t.deadlines, now)
        invariant !more ==> gone == Expired(t.deadlines, now)
        decreases more, Expired(t.deadlines, now) - gone
      {
        more, gone := DropEarliest(now, t, gone);
      }
    }

    /** Drops the earliest entry, if it has expired. */
    method DropEarliest(now: int, ghost t: Timed<K, V>, ghost gone: set<K>) returns (more: bool, ghost gone': set<K>)
      requires Valid() && State() == Without(t, gone) && gone <= Expired(t.deadlines, now)
      modifies lru, timeouts
      ensures Valid() && State() == Without(t, gone') && gone <= gone' <= Expired(t.deadlines, now)
      ensures if more then gone < gone' else gone' == Expired(t.deadlines, now)
    {
      var k := timeouts.Earliest(now);
      more := k.Some?;
      gone' := gone;
      if more {
        OneGone(t, gone, k.value);
        Drop(k.value);
        gone' := gone + {k.value};
      } else {
        forall x | x in Expired(t.deadlines, now) ensures x in gone {
          assert x !in Expired(timeouts.deadlines, now);
        }
      }
    }

    method AutoUpdate(now: int)
      requires Valid()
      modifies lru, timeouts
      ensures Valid() && State() == Current(old(State()), autoUpdate, now)
    {
      if autoUpdate {
        Update(now);
      }
    }

    method Insert(k: K, v: V, to: int, preserveLonger: bool, now: int, later: int) returns (isNew: bool)
      requires Valid() && lru.capacity > 0
      modifies lru, timeouts
      ensures Valid()
      ensures State() == TimedInsert(Current(old(State()), autoUpdate, now), k, v, to, preserveLonger, later)
      ensures isNew <==> Lookup(Current(old(State()), autoUpdate, now).entries, k).None?
      ensures DeadlineGiven(Current(old(State()), autoUpdate, now).deadlines, k, to, preserveLonger, later, timeouts.deadlines)
    {
      AutoUpdate(now);
      ghost var t := State();
      LruKeys();
      InsertKeeps(t, k, v, to, preserveLonger, later);
      isNew := InsertCurrent(k, v, to, preserveLonger, later);
      assert State() == TimedInsert(t, k, v, to, preserveLonger, later);
      InsertedDeadline(t, k, v, to, preserveLonger, later);
    }

    /** `insert` without a timeout of its own. */
    method InsertDefault(k: K, v: V, now: int, later: int) returns (isNew: bool)
      requires Valid() && lru.capacity > 0
      modifies lru, timeouts
      ensures Valid() && State() == TimedInsert(Current(old(State()), autoUpdate, now), k, v, timeout, false, later)
      ensures isNew <==> Lookup(Current(old(State()), autoUpdate, now).entries, k).None?
      ensures k in timeouts.deadlines && timeouts.deadlines[k] == Deadline(later + timeout, timeout)
    {
      isNew := Insert(k, v, timeout, false, now, later);
    }

    method InsertCurrent(k: K, v: V, to: int, preserveLonger: bool, now: int) returns (isNew: bool)
      requires lru.Valid() && timeouts.Valid() && lru.capacity > 0
      modifies lru, timeouts
      ensures lru.Valid() && timeouts.Valid() && lru.capacity == old(lru.capacity)
      ensures lru.View() == Inserted(lru.capacity, old(lru.View()), k, v)
      ensures timeouts.deadlines == Dropped(Started(old(timeouts.deadlines), k, to, preserveLonger, now),
                                            Evicted(lru.capacity, old(lru.View()), k))
      ensures isNew <==> Lookup(old(lru.View()), k).None?
    {
      timeouts.Start(k, to, preserveLonger, now);
      var evicted;
      isNew, evicted := lru.Insert(k, v);
      timeouts.OnKeyEvicted(evicted);
    }

    method Get(k: K, now: int, later: int) returns (value: Option<V>)
      requires Valid()
      modifies lru, timeouts
      ensures Valid()
      ensures value == Lookup(Current(old(State()), autoUpdate, now).entries, k)
      ensures State() == TimedGet(Current(old(State()), autoUpdate, now), k, later)
    {
      AutoUpdate(now);
      ghost var t := State();
      LruKeys();
      GetKeeps(t, k, later);
      value := GetCurrent(k, later);
      Got(t, k, later, value, State());
    }

    method GetCurrent(k: K, now: int) returns (value: Option<V>)
      requires lru.Valid() && timeouts.Valid() && (Lookup(lru.View(), k).Some? ==> k in timeouts.deadlines)
      modifies lru, timeouts
      ensures lru.Valid() && timeouts.Valid() && lru.capacity == old(lru.capacity)
      ensures value == Lookup(old(lru.View()), k) && lru.View() == Touched(old(lru.View()), k)
      ensures timeouts.deadlines == if value.None? then old(timeouts.deadlines) else Restarted(old(timeouts.deadlines), k, now)
    {
      value := lru.Get(k);
      if value.Some? {
        timeouts.Restart(k, now);
      }
    }

    method Erase(k: K, now: int)
      requires Valid()
      modifies lru, timeouts
      ensures Valid() && State() == TimedErase(Current(old(State()), autoUpdate, now), k)
    {
      AutoUpdate(now);
      Drop(k);
    }

    method Clear()
      modifies lru, timeouts
      ensures Valid() && State() == Timed(old(lru.capacity), [], map[])
    {
      timeouts.Clear();
      lru.Clear();
      assert Keys<K, V>([]) == {};
    }

    /** Inherited: nobody tells the timeouts which keys were dropped. */
    method SetCapacity(n: nat)
      requires Valid()
      modifies lru
      ensures Valid() && State() == Resized(old(State()), n)
    {
      LruKeys();
      if n < |lru.View()| {
        PrefixKeys(lru.View(), n);
      }
      lru.SetCapacity(n);
    }
  }

  lemma Got<K, V>(t: Timed<K, V>, k: K, now: int, value: Option<V>, u: Timed<K, V>)
    requires value == Lookup(t.entries, k) && (value.Some? ==> k in t.deadlines)
    requires u == if value.None? then t.(entries := Touched(t.entries, k))
                  else Timed(t.capacity, Touched(t.entries, k), Restarted(t.deadlines, k, now))
    ensures u == TimedGet(t, k, now)
  {
  }

  lemma NothingGone<K, V>(t: Timed<K, V>)
    ensures Without(t, {}) == t
  {
    AllKept(t.entries, Keys(t.entries) - {});
    assert t.deadlines - {} == t.deadlines;
  }

  lemma {:induction false} AllKept<K, V>(es: Entries<K, V>, s: set<K>)
    requires Keys(es) <= s
    ensures Restrict(es, s) == es
  {
    if es != [] {
      assert es[0].0 in Keys(es);
      forall x | x in Keys(es[1..]) ensures x in s {
        var i :| 0 <= i < |es[1..]| && es[1..][i].0 == x;
        assert es[i + 1].0 in Keys(es);
      }
      AllKept(es[1..], s);
    }
  }

  lemma OneGone<K, V>(t: Timed<K, V>, gone: set<K>, k: K)
    ensures TimedErase(Without(t, gone), k) == Without(t, gone + {k})
  {
    var es := t.entries;
    RestrictRemove(es, Keys(es) - gone, k);
    RestrictWithout(es, Keys(es) - gone, k);
    assert Keys(es) - gone - {k} == Keys(es) - (gone + {k});
    assert t.deadlines - gone - {k} == t.deadlines - (gone + {k});
  }
}

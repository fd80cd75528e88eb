/** `LinuxRoutingTable` of network_monitor.cpp: two route tables kept sorted under updates, the default
    interfaces found in them, and a flag that tells when those changed. */
module Routing {
  import opened Common
  import opened CidrBlocks
  import opened CidrRanges

  /** Bytes of an IPv4 address. */
  const IPV4_ADDRESS_SIZE := 4

  datatype RouteEntry = RouteEntry(prefix: CidrRange, ifIndex: nat, metric: nat)

  type Routes = seq<RouteEntry>

  /** What identifies a route. */
  type Key = (CidrRange, nat)

  function KeyOf(r: RouteEntry): Key {
    (r.prefix, r.ifIndex)
  }

  /** `RouteEntry::operator<`: the longer prefix first, then the lower metric. */
  predicate Less(a: RouteEntry, b: RouteEntry) {
    if a.prefix.prefixLen != b.prefix.prefixLen then a.prefix.prefixLen > b.prefix.prefixLen else a.metric < b.metric
  }

  ghost predicate Sorted(s: Routes) {
    forall i, j :: 0 <= i < j < |s| ==> !Less(s[j], s[i])
  }

  /** The longer prefix first and, of equally long ones, the lower metric. */
  ghost predicate LongestFirst(s: Routes) {
    forall i, j :: 0 <= i < j < |s| ==>
      && s[i].prefix.prefixLen >= s[j].prefix.prefixLen
      && (s[i].prefix.prefixLen == s[j].prefix.prefixLen ==> s[i].metric <= s[j].metric)
  }

  lemma SortedMeans(s: Routes)
    ensures Sorted(s) <==> LongestFirst(s)
  {
    if Sorted(s) {
      forall i, j | 0 <= i < j < |s|
        ensures s[i].prefix.prefixLen >= s[j].prefix.prefixLen
        ensures s[i].prefix.prefixLen == s[j].prefix.prefixLen ==> s[i].metric <= s[j].metric
      {
        assert !Less(s[j], s[i]);
      }
    }
  }

  // Which route an address takes

  ghost predicate Matches(r: RouteEntry, a: Block) {
    r.prefix.Valid() && Contains(r.prefix.View(), a)
  }

  /** A route that matches, inside every other that does, with the lowest metric of those for the same block. */
  ghost predicate IsBestMatch(s: Routes, a: Block, r: RouteEntry) {
    && r in s && Matches(r, a)
    && forall o :: o in s && Matches(o, a) ==>
         && Contains(o.prefix.View(), r.prefix.View())
         && (o.prefix.View() == r.prefix.View() ==> r.metric <= o.metric)
  }

  ghost predicate IsFirstMatch(s: Routes, a: Block, i: nat) {
    i < |s| && Matches(s[i], a) && forall j :: 0 <= j < i ==> !Matches(s[j], a)
  }

  /** In a sorted table, the first route that matches is the longest match. */
  lemma FirstMatchIsBest(s: Routes, a: Block, i: nat)
    requires LongestFirst(s) && IsFirstMatch(s, a, i)
    ensures IsBestMatch(s, a, s[i])
  {
    forall o | o in s && Matches(o, a)
      ensures Contains(o.prefix.View(), s[i].prefix.View())
      ensures o.prefix.View() == s[i].prefix.View() ==> s[i].metric <= o.metric
    {
      var j :| 0 <= j < |s| && s[j] == o;
      assert i <= j;
      NestedAround(o.prefix.View(), s[i].prefix.View(), a);
    }
  }

  lemma NestedAround(x: Block, y: Block, a: Block)
    requires Contains(x, a) && Contains(y, a) && |x.bits| <= |y.bits|
    ensures Contains(x, y)
  {
    assert x.bits == a.bits[..|x.bits|] && y.bits == a.bits[..|y.bits|];
  }

  // A table as a map from keys to metrics

  /** No key occurs twice. */
  ghost predicate NoDuplicates(ms: multiset<RouteEntry>) {
    && (forall r :: r in ms ==> ms[r] == 1)
    && (forall r, s :: r in ms && s in ms && KeyOf(r) == KeyOf(s) ==> r == s)
  }

  ghost function Metrics(ms: multiset<RouteEntry>): map<Key, nat>
    requires NoDuplicates(ms)
  {
    map r | r in ms :: KeyOf(r) := r.metric
  }

  lemma MetricsAt(ms: multiset<RouteEntry>, r: RouteEntry)
    requires NoDuplicates(ms)
    ensures r in ms <==> KeyOf(r) in Metrics(ms) && Metrics(ms)[KeyOf(r)] == r.metric
  {
    if KeyOf(r) in Metrics(ms) && Metrics(ms)[KeyOf(r)] == r.metric {
      var s :| s in ms && KeyOf(s) == KeyOf(r);
      assert Metrics(ms)[KeyOf(s)] == s.metric;
      assert s == r;
    }
  }

  // The two updates of one table

  /** Where the route of this key is. */
  function Index(s: Routes, k: Key): (i: nat)
    ensures i <= |s| && (i < |s| ==> KeyOf(s[i]) == k) && forall j :: 0 <= j < i ==> KeyOf(s[j]) != k
  {
    if s == [] || KeyOf(s[0]) == k then 0 else 1 + Index(s[1..], k)
  }

  function Put(s: Routes, e: RouteEntry): Routes {
    var i := Index(s, KeyOf(e));
    if i < |s| then s[i := e] else s + [e]
  }

  function Without(s: Routes, k: Key): Routes {
    if s == [] then [] else if KeyOf(s[0]) == k then Without(s[1..], k) else [s[0]] + Without(s[1..], k)
  }

  lemma PutMetrics(s: Routes, e: RouteEntry)
    requires NoDuplicates(multiset(s))
    ensures NoDuplicates(multiset(Put(s, e)))
    ensures Metrics(multiset(Put(s, e))) == Metrics(multiset(s))[KeyOf(e) := e.metric]
  {
    var i, ms := Index(s, KeyOf(e)), multiset(s);
    if i < |s| {
      assert s[i] in ms;
      assert multiset(Put(s, e)) == ms - multiset{s[i]} + multiset{e};
      PutKeeps(ms, ms - multiset{s[i]}, e);
    } else {
      assert multiset(Put(s, e)) == ms + multiset{e};
      forall r | r in ms ensures KeyOf(r) != KeyOf(e) {
        var j :| 0 <= j < |s| && s[j] == r;
      }
      PutKeeps(ms, ms, e);
    }
  }

  lemma PutKeeps(ms: multiset<RouteEntry>, rest: multiset<RouteEntry>, e: RouteEntry)
    requires NoDuplicates(ms)
    requires forall r :: r in rest <==> r in ms && KeyOf(r) != KeyOf(e)
    requires forall r :: r in rest ==> rest[r] == 1
    ensures NoDuplicates(rest + multiset{e})
    ensures Metrics(rest + multiset{e}) == Metrics(ms)[KeyOf(e) := e.metric]
  {
    var all := rest + multiset{e};
    assert e !in rest;
    assert NoDuplicates(all);
    SameMetrics(all, Metrics(ms)[KeyOf(e) := e.metric]);
  }

  /** A map that says of every route whether it is in the table is the map of the table. */
  lemma SameMetrics(ms: multiset<RouteEntry>, m: map<Key, nat>)
    requires NoDuplicates(ms)
    requires forall r: RouteEntry :: r in ms <==> KeyOf(r) in m && m[KeyOf(r)] == r.metric
    ensures Metrics(ms) == m
  {
    forall k | k in m ensures k in Metrics(ms) && Metrics(ms)[k] == m[k] {
      var r := RouteEntry(k.0, k.1, m[k]);
      assert KeyOf(r) == k;
      assert r in ms;
    }
    forall k | k in Metrics(ms) ensures k in m {
      var r :| r in ms && KeyOf(r) == k;
    }
  }

  lemma {:induction false} WithoutHolds(s: Routes, k: Key)
    ensures forall r :: multiset(Without(s, k))[r] == if KeyOf(r) == k then 0 else multiset(s)[r]
  {
    if s != [] {
      WithoutHolds(s[1..], k);
      assert s == [s[0]] + s[1..];
      assert multiset(s) == multiset{s[0]} + multiset(s[1..]);
      if KeyOf(s[0]) != k {
        assert multiset(Without(s, k)) == multiset{s[0]} + multiset(Without(s[1..], k));
      }
    }
  }

  lemma WithoutMetrics(s: Routes, k: Key)
    requires NoDuplicates(multiset(s))
    ensures NoDuplicates(multiset(Without(s, k)))
    ensures Metrics(multiset(Without(s, k))) == Metrics(multiset(s)) - {k}
  {
    WithoutHolds(s, k);
    DropKeeps(multiset(s), multiset(Without(s, k)), k);
  }

  lemma DropKeeps(ms: multiset<RouteEntry>, rest: multiset<RouteEntry>, k: Key)
    requires NoDuplicates(ms)
    requires forall r :: rest[r] == if KeyOf(r) == k then 0 else ms[r]
    ensures NoDuplicates(rest) && Metrics(rest) == Metrics(ms) - {k}
  {
    assert forall r :: r in rest <==> r in ms && KeyOf(r) != k;
    SameMetrics(rest, Metrics(ms) - {k});
  }

  // The default route

  /** The interfaces ignored at one evaluation. */
  type Ignored = nat -> bool

  predicate Eligible(r: RouteEntry, ignored: Ignored) {
    r.prefix.prefixLen == 0 && r.ifIndex != 0 && !ignored(r.ifIndex)
  }

  /** `find_default_route`. */
  function FirstDefault(s: Routes, ignored: Ignored): Option<nat> {
    if s == [] then None
    else if Eligible(s[0], ignored) then Some(s[0].ifIndex)
    else FirstDefault(s[1..], ignored)
  }

  /** A default route of an interface that exists and is not ignored. */
  ghost predicate Usable(r: RouteEntry, ignored: Ignored) {
    r.prefix.prefixLen == 0 && r.ifIndex > 0 && !ignored(r.ifIndex)
  }

  /** A prefix of length zero, and no other, holds every address of its family. */
  lemma DefaultHoldsAll(p: CidrRange)
    requires p.Valid()
    ensures p.prefixLen == 0 <==> forall a :: IsAddress(a) && a.size == |p.address| ==> Contains(p.View(), a)
  {
    if p.prefixLen > 0 {
      var flipped := Filled(Block(|p.address|, [!p.View().bits[0]]), false);
      assert flipped.bits[0] == !p.View().bits[0];
      assert !Contains(p.View(), flipped);
    }
  }

  /** A usable route with a metric not above that of any other. */
  ghost predicate IsBest(m: map<Key, nat>, ignored: Ignored, k: Key) {
    && k in m && Usable(RouteEntry(k.0, k.1, m[k]), ignored)
    && forall o :: o in m && Usable(RouteEntry(o.0, o.1, m[o]), ignored) ==> m[k] <= m[o]
  }

  /** The interface of a best route, or none if no route is usable. */
  ghost predicate IsDefault(m: map<Key, nat>, ignored: Ignored, d: Option<nat>) {
    match d
    case Some(i) => exists k :: IsBest(m, ignored, k) && k.1 == i
    case None => forall k :: k in m ==> !Usable(RouteEntry(k.0, k.1, m[k]), ignored)
  }

  lemma {:induction false} FirstDefaultAt(s: Routes, ignored: Ignored) returns (i: nat)
    ensures i <= |s| && forall j :: 0 <= j < i ==> !Eligible(s[j], ignored)
    ensures if i < |s| then Eligible(s[i], ignored) && FirstDefault(s, ignored) == Some(s[i].ifIndex)
            else FirstDefault(s, ignored) == None
  {
    if s == [] || Eligible(s[0], ignored) {
      i := 0;
    } else {
      i := FirstDefaultAt(s[1..], ignored);
      i := i + 1;
    }
  }

  /** A usable route of the table with a metric not above that of any other. */
  ghost predicate IsBestIn(s: Routes, ignored: Ignored, r: RouteEntry) {
    && r in s && Usable(r, ignored)
    && forall o :: o in s && Usable(o, ignored) ==> r.metric <= o.metric
  }

  /** The same as `IsDefault`, said of a table that may hold a key more than once. */
  ghost predicate IsDefaultIn(s: Routes, ignored: Ignored, d: Option<nat>) {
    match d
    case Some(i) => exists r :: IsBestIn(s, ignored, r) && r.ifIndex == i
    case None => forall r :: r in s ==> !Usable(r, ignored)
  }

  lemma FirstIsDefault(s: Routes, ignored: Ignored)
    requires Sorted(s)
    ensures IsDefaultIn(s, ignored, FirstDefault(s, ignored))
  {
    var i := FirstDefaultAt(s, ignored);
    forall r | r in s && Usable(r, ignored) ensures i < |s| && s[i].metric <= r.metric {
      var j :| 0 <= j < |s| && s[j] == r;
      assert i <= j;
    }
    if i < |s| {
      assert IsBestIn(s, ignored, s[i]);
    }
  }

  /** Where no key occurs twice, the table and its map have the same defaults. */
  lemma DefaultOfMap(s: Routes, ignored: Ignored, d: Option<nat>)
    requires NoDuplicates(multiset(s)) && IsDefaultIn(s, ignored, d)
    ensures IsDefault(Metrics(multiset(s)), ignored, d)
  {
    var m := Metrics(multiset(s));
    forall k | k in m ensures RouteEntry(k.0, k.1, m[k]) in s {
      MetricsAt(multiset(s), RouteEntry(k.0, k.1, m[k]));
    }
    if d.Some? {
      var r :| IsBestIn(s, ignored, r) && r.ifIndex == d.value;
      assert r in multiset(s);
      MetricsAt(multiset(s), r);
      assert IsBest(m, ignored, KeyOf(r));
    }
  }

  // The table

  datatype Table = Table(v4: Routes, v6: Routes, default4: Option<nat>, default6: Option<nat>, changed: bool)

  /** A netlink message that was understood, a reload, or a reading of the flag; with the interfaces
      ignored at the time. */
  datatype Event =
    | NewRoute(entry: RouteEntry, ignored4: Ignored, ignored6: Ignored)
    | DelRoute(entry: RouteEntry, ignored4: Ignored, ignored6: Ignored)
    | Reload(v4: Routes, v6: Routes, ignored4: Ignored, ignored6: Ignored)
    | Reset

  predicate IsV4(r: RouteEntry) {
    |r.prefix.address| == IPV4_ADDRESS_SIZE
  }

  /** The tables before they are sorted again. */
  function Edited(t: Table, e: Event): (Routes, Routes)
    requires !e.Reset?
  {
    match e
    case NewRoute(r, _, _) => if IsV4(r) then (Put(t.v4, r), t.v6) else (t.v4, Put(t.v6, r))
    case DelRoute(r, _, _) => if IsV4(r) then (Without(t.v4, KeyOf(r)), t.v6) else (t.v4, Without(t.v6, KeyOf(r)))
    case Reload(v4, v6, _, _) => (v4, v6)
  }

  ghost predicate IsSortOf(s: Routes, r: Routes) {
    Sorted(s) && multiset(s) == multiset(r)
  }

  function Defaults(t: Table): (Option<nat>, Option<nat>) {
    (t.default4, t.default6)
  }

  /** One event, up to the order in which sorting leaves routes of equal rank. */
  ghost predicate Step(t: Table, e: Event, u: Table) {
    if e.Reset? then u == t.(changed := false)
    else
      && IsSortOf(u.v4, Edited(t, e).0) && IsSortOf(u.v6, Edited(t, e).1)
      && u.default4 == FirstDefault(u.v4, e.ignored4) && u.default6 == FirstDefault(u.v6, e.ignored6)
      && (u.changed <==> t.changed || Defaults(u) != Defaults(t))
  }

  ghost predicate Good(t: Table) {
    Sorted(t.v4) && Sorted(t.v6) && NoDuplicates(multiset(t.v4)) && NoDuplicates(multiset(t.v6))
  }

  /** A reload brings every key once. */
  ghost predicate Proper(e: Event) {
    e.Reload? ==> NoDuplicates(multiset(e.v4)) && NoDuplicates(multiset(e.v6))
  }

  // The simple table: for each family, a map from keys to metrics

  datatype Maps = Maps(v4: map<Key, nat>, v6: map<Key, nat>)

  ghost function View(t: Table): Maps
    requires Good(t)
  {
    Maps(Metrics(multiset(t.v4)), Metrics(multiset(t.v6)))
  }

  ghost function Simple(m: Maps, e: Event): Maps
    requires Proper(e)
  {
    match e
    case NewRoute(r, _, _) =>
      var k := (r.prefix, r.ifIndex);
      if |r.prefix.address| == 4 then m.(v4 := m.v4[k := r.metric]) else m.(v6 := m.v6[k := r.metric])
    case DelRoute(r, _, _) =>
      var k := (r.prefix, r.ifIndex);
      if |r.prefix.address| == 4 then m.(v4 := m.v4 - {k}) else m.(v6 := m.v6 - {k})
    case Reload(v4, v6, _, _) => Maps(Metrics(multiset(v4)), Metrics(multiset(v6)))
    case Reset => m
  }

  /** The edited tables are free of duplicates and are the edited maps. */
  lemma EditedGood(t: Table, e: Event)
    requires Good(t) && Proper(e) && !e.Reset?
    ensures var (a, b) := Edited(t, e);
            && NoDuplicates(multiset(a)) && NoDuplicates(multiset(b))
            && Maps(Metrics(multiset(a)), Metrics(multiset(b))) == Simple(View(t), e)
  {
    match e
    case NewRoute(r, _, _) => PutMetrics(if IsV4(r) then t.v4 else t.v6, r);
    case DelRoute(r, _, _) => WithoutMetrics(if IsV4(r) then t.v4 else t.v6, KeyOf(r));
    case Reload(_, _, _, _) =>
  }

  /** Both tables are sorted, hold no key twice and hold what the maps hold. */
  ghost predicate Shows(t: Table, m: Maps) {
    Good(t) && View(t) == m
  }

  lemma StepKeeps(t: Table, m: Maps, e: Event, u: Table)
    requires Shows(t, m) && Proper(e) && Step(t, e, u)
    ensures Shows(u, Simple(m, e))
  {
    if !e.Reset? {
      EditedGood(t, e);
    }
  }

  // Runs

  /** The states of a run: one more than its events. */
  ghost predicate IsRun(states: seq<Table>, events: seq<Event>) {
    && |states| == |events| + 1
    && forall i {:trigger Step(states[i], events[i], states[i + 1])} ::
         0 <= i < |events| ==> Step(states[i], events[i], states[i + 1])
  }

  lemma ShorterRun(states: seq<Table>, events: seq<Event>)
    requires IsRun(states, events) && |events| > 0
    ensures var n := |events| - 1;
            IsRun(states[..|events|], events[..n]) && Step(states[n], events[n], states[n + 1])
  {
    var n := |events| - 1;
    assert Step(states[n], events[n], states[n + 1]);
    forall i | 0 <= i < n ensures Step(states[..|events|][i], events[..n][i], states[..|events|][i + 1]) {
      assert Step(states[i], events[i], states[i + 1]);
    }
  }

  /** How many events there are up to the last one that is not a reading of the flag. */
  ghost function Updates(events: seq<Event>): (n: nat)
    ensures n <= |events| && (n > 0 ==> !events[n - 1].Reset?)
    ensures forall i :: n <= i < |events| ==> events[i].Reset?
  {
    if events == [] then 0
    else if events[|events| - 1].Reset? then Updates(events[..|events| - 1])
    else |events|
  }

  /** Both tables are sorted, and the cached pair is, for each family, the interface of a best route
      under what the last update ignored. */
  ghost predicate Current(t: Table, events: seq<Event>) {
    && LongestFirst(t.v4) && LongestFirst(t.v6)
    && var n := Updates(events);
       n > 0 ==>
         && IsDefaultIn(t.v4, events[n - 1].ignored4, t.default4)
         && IsDefaultIn(t.v6, events[n - 1].ignored6, t.default6)
  }

  /** Any run from a sorted table, whatever its reloads bring. */
  lemma {:induction false} RunsStayCurrent(states: seq<Table>, events: seq<Event>)
    requires IsRun(states, events) && Sorted(states[0].v4) && Sorted(states[0].v6)
    ensures Current(states[|events|], events)
    decreases |events|
  {
    SortedMeans(states[|events|].v4);
    SortedMeans(states[|events|].v6);
    if events != [] {
      var n := |events| - 1;
      ShorterRun(states, events);
      if events[n].Reset? {
        RunsStayCurrent(states[..|events|], events[..n]);
      } else {
        FirstIsDefault(states[n + 1].v4, events[n].ignored4);
        FirstIsDefault(states[n + 1].v6, events[n].ignored6);
      }
    }
  }

  /** After any run the first route of a table that matches an address is its longest match. */
  lemma RunsMatchLongest(states: seq<Table>, events: seq<Event>, a: Block, i: nat)
    requires IsRun(states, events) && Sorted(states[0].v4) && Sorted(states[0].v6)
    ensures var t := states[|events|];
            && (IsFirstMatch(t.v4, a, i) ==> IsBestMatch(t.v4, a, t.v4[i]))
            && (IsFirstMatch(t.v6, a, i) ==> IsBestMatch(t.v6, a, t.v6[i]))
  {
    RunsStayCurrent(states, events);
    var t := states[|events|];
    if IsFirstMatch(t.v4, a, i) {
      FirstMatchIsBest(t.v4, a, i);
    }
    if IsFirstMatch(t.v6, a, i) {
      FirstMatchIsBest(t.v6, a, i);
    }
  }

  ghost predicate AllProper(events: seq<Event>) {
    forall i :: 0 <= i < |events| ==> Proper(events[i])
  }

  ghost function SimpleRun(m: Maps, events: seq<Event>): Maps
    requires AllProper(events)
  {
    if events == [] then m else Simple(SimpleRun(m, events[..|events| - 1]), events[|events| - 1])
  }

  /** After any run the tables show what the simple run makes of the maps they showed at the start. */
  lemma {:induction false} RunsKeep(states: seq<Table>, m: Maps, events: seq<Event>)
    requires IsRun(states, events) && Shows(states[0], m) && AllProper(events)
    ensures Shows(states[|events|], SimpleRun(m, events))
    decreases |events|
  {
    if events != [] {
      var n: nat := |events| - 1;
      var before, started := states[..|events|], events[..n];
      ShorterRun(states, events);
      RunsKeep(before, m, started);
      assert before[n] == states[n];
      StepKeeps(states[n], SimpleRun(m, started), events[n], states[n + 1]);
    }
  }

  /** The cached pair is the pair of defaults of the maps under what the last update ignored. */
  ghost predicate Caches(t: Table, m: Maps, events: seq<Event>) {
    var n := Updates(events);
    n > 0 ==>
      && IsDefault(m.v4, events[n - 1].ignored4, t.default4)
      && IsDefault(m.v6, events[n - 1].ignored6, t.default6)
  }

  lemma CurrentCaches(t: Table, m: Maps, events: seq<Event>)
    requires Shows(t, m) && Current(t, events)
    ensures Caches(t, m, events)
  {
    var n := Updates(events);
    if n > 0 {
      DefaultOfMap(t.v4, events[n - 1].ignored4, t.default4);
      DefaultOfMap(t.v6, events[n - 1].ignored6, t.default6);
    }
  }

  lemma RunsRefine(states: seq<Table>, m: Maps, events: seq<Event>)
    requires IsRun(states, events) && Shows(states[0], m) && AllProper(events)
    ensures Caches(states[|events|], SimpleRun(m, events), events)
  {
    var last, after := states[|events|], SimpleRun(m, events);
    assert Shows(last, after) by {
      RunsKeep(states, m, events);
    }
    assert Current(last, events) by {
      RunsStayCurrent(states, events);
    }
    CurrentCaches(last, after, events);
  }

  /** Some update after the last reading of the flag changed the cached pair. */
  ghost predicate ChangedAt(states: seq<Table>, events: seq<Event>, i: nat)
    requires i < |events| < |states|
  {
    && Defaults(states[i]) != Defaults(states[i + 1])
    && forall j :: i < j < |events| ==> !events[j].Reset?
  }

  /** In any run that starts with the flag down, the flag is up iff some update since the last reset
      changed the cached pair. */
  lemma {:induction false} FlagMeansChanged(states: seq<Table>, events: seq<Event>)
    requires IsRun(states, events) && !states[0].changed
    ensures states[|events|].changed <==> exists i :: 0 <= i < |events| && ChangedAt(states, events, i)
  {
    if events != [] {
      var n := |events| - 1;
      var before, started := states[..|events|], events[..n];
      ShorterRun(states, events);
      FlagMeansChanged(before, started);
      if states[n + 1].changed {
        if Defaults(states[n]) == Defaults(states[n + 1]) {
          var i :| 0 <= i < n && ChangedAt(before, started, i);
          SameChange(states, events, i);
        } else {
          assert ChangedAt(states, events, n);
        }
      }
      if i :| 0 <= i < |events| && ChangedAt(states, events, i) {
        if i < n {
          assert !events[n].Reset?;
          SameChange(states, events, i);
        }
      }
    }
  }

  lemma SameChange(states: seq<Table>, events: seq<Event>, i: nat)
    requires |states| == |events| + 1 && i < |events| - 1 && !events[|events| - 1].Reset?
    ensures ChangedAt(states[..|events|], events[..|events| - 1], i) <==> ChangedAt(states, events, i)
  {
    var n := |events| - 1;
    assert forall j :: 0 <= j < n ==> events[..n][j] == events[j];
  }

  // The object

  /** Puts a route into a sorted table. */
  method InsertSorted(s: Routes, r: RouteEntry) returns (t: Routes)
    requires Sorted(s)
    ensures IsSortOf(t, s + [r])
  {
    var i: nat := |s|;
    while i > 0 && Less(r, s[i - 1])
      invariant i <= |s| && (i < |s| ==> Less(r, s[i]))
    {
      i := i - 1;
    }
    t := PutAt(s, i, r);
    SortedAround(s, i, r, t);
  }

  lemma SortedAround(s: Routes, i: nat, r: RouteEntry, t: Routes)
    requires Sorted(s) && i <= |s| && |t| == |s| + 1
    requires forall j {:trigger t[j]} :: 0 <= j < |t| ==> t[j] == if j < i then s[j] else if j == i then r else s[j - 1]
    requires (i < |s| ==> Less(r, s[i])) && (i > 0 ==> !Less(r, s[i - 1]))
    ensures Sorted(t)
  {
    forall j | 0 <= j < i ensures !Less(r, s[j]) {
      assert j < i - 1 ==> !Less(s[i - 1], s[j]);
    }
    forall j | i <= j < |s| ensures !Less(s[j], r) {
      assert i < j ==> !Less(s[j], s[i]);
    }
  }

  /** Sorts a table; callers rely on the contract only. */
  method SortRoutes(s: Routes) returns (t: Routes)
    ensures IsSortOf(t, s) && LongestFirst(t)
  {
    t := [];
    for n := 0 to |s|
      invariant IsSortOf(t, s[..n])
    {
      t := InsertSorted(t, s[n]);
      assert s[..n + 1] == s[..n] + [s[n]];
    }
    assert s[..|s|] == s;
    SortedMeans(t);
  }

  method FindDefaultRoute(s: Routes, ignored: Ignored) returns (d: Option<nat>)
    ensures d == FirstDefault(s, ignored)
  {
    var i := 0;
    while i < |s| && !Eligible(s[i], ignored)
      invariant i <= |s| && FirstDefault(s, ignored) == FirstDefault(s[i..], ignored)
    {
      i := i + 1;
    }
    d := if i < |s| then Some(s[i].ifIndex) else None;
  }

  method EraseRoutes(s: Routes, k: Key) returns (t: Routes)
    ensures t == Without(s, k)
  {
    t := [];
    for i := 0 to |s|
      invariant Without(s, k) == t + Without(s[i..], k)
    {
      assert s[i..][1..] == s[i + 1..];
      if KeyOf(s[i]) != k {
        t := t + [s[i]];
      }
    }
  }

  class LinuxRoutingTable {
    var routesV4: Routes
    var routesV6: Routes
    var prevDefaultV4: Option<nat>
    var prevDefaultV6: Option<nat>
    var defaultChanged: bool

    ghost function State(): Table
      reads this
    {
      Table(routesV4, routesV6, prevDefaultV4, prevDefaultV6, defaultChanged)
    }

    constructor ()
      ensures State() == Table([], [], None, None, false) && Good(State())
    {
      routesV4, routesV6, prevDefaultV4, prevDefaultV6, defaultChanged := [], [], None, None, false;
    }

    method SortAndUpdateCache(ignored4: Ignored, ignored6: Ignored)
      modifies this
      ensures IsSortOf(routesV4, old(routesV4)) && IsSortOf(routesV6, old(routesV6))
      ensures LongestFirst(routesV4) && LongestFirst(routesV6)
      ensures prevDefaultV4 == FirstDefault(routesV4, ignored4) && prevDefaultV6 == FirstDefault(routesV6, ignored6)
      ensures defaultChanged <==> old(defaultChanged) || (prevDefaultV4, prevDefaultV6) != old((prevDefaultV4, prevDefaultV6))
    {
      routesV4 := SortRoutes(routesV4);
      routesV6 := SortRoutes(routesV6);
      var newDefaultV4 := FindDefaultRoute(routesV4, ignored4);
      var newDefaultV6 := FindDefaultRoute(routesV6, ignored6);
      if newDefaultV4 != prevDefaultV4 || newDefaultV6 != prevDefaultV6 {
        defaultChanged := true;
        prevDefaultV4 := newDefaultV4;
        prevDefaultV6 := newDefaultV6;
      }
    }

    /** A message that could not be parsed changes nothing. */
    method HandleNewRoute(entry: Option<RouteEntry>, ignored4: Ignored, ignored6: Ignored)
      modifies this
      ensures if entry.None? then State() == old(State())
              else Step(old(State()), NewRoute(entry.value, ignored4, ignored6), State())
    {
      if entry.None? {
        return;
      }
      var e := entry.value;
      if IsV4(e) {
        routesV4 := Put(routesV4, e);
      } else {
        routesV6 := Put(routesV6, e);
      }
      SortAndUpdateCache(ignored4, ignored6);
    }

    method HandleDelRoute(entry: Option<RouteEntry>, ignored4: Ignored, ignored6: Ignored)
      modifies this
      ensures if entry.None? then State() == old(State())
              else Step(old(State()), DelRoute(entry.value, ignored4, ignored6), State())
    {
      if entry.None? {
        return;
      }
      var e := entry.value;
      if IsV4(e) {
        routesV4 := EraseRoutes(routesV4, KeyOf(e));
      } else {
        routesV6 := EraseRoutes(routesV6, KeyOf(e));
      }
      SortAndUpdateCache(ignored4, ignored6);
    }

    /** The end of a reload that went well. */
    method Replace(v4: Routes, v6: Routes, ignored4: Ignored, ignored6: Ignored)
      modifies this
      ensures Step(old(State()), Reload(v4, v6, ignored4, ignored6), State())
    {
      routesV4, routesV6 := v4, v6;
      SortAndUpdateCache(ignored4, ignored6);
    }

    method HasDefaultChangedAndReset() returns (changed: bool)
      modifies this
      ensures changed == old(defaultChanged) && Step(old(State()), Reset, State())
    {
      changed := defaultChanged;
      defaultChanged := false;
    }
  }
}

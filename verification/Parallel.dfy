/** `any_of_cond` and `all_of` of parallel.h: N tasks that finish on any thread and one coroutine
    that waits for them. Every section under the mutex is one atomic step. */
module Parallel {
  import opened Common

  /** Where the waiting coroutine is: before `await_ready`, between it and `await_suspend`, or past. */
  datatype Phase = Before | NotReady | Arrived

  /** One step of some thread. */
  datatype Action =
    | Add             // a task is started: `remaining++`
    | Finish(i: nat)  // task `i` ends and takes the lock
    | AwaitReady
    | AwaitSuspend
    | AwaitResume     // the coroutine runs on and fetches the result
    | Release         // it lets go of the awaitable, and with it of the shared state

  /** The value of each task in `order`. */
  ghost function Values<R>(values: seq<R>, order: seq<nat>): (r: seq<R>)
    requires forall k :: 0 <= k < |order| ==> order[k] < |values|
    ensures |r| == |order| && forall k :: 0 <= k < |order| ==> r[k] == values[order[k]]
  {
    seq(|order|, k requires 0 <= k < |order| => values[order[k]])
  }

  /** Tasks that took the lock, in this order: each at most once. */
  ghost predicate Order(order: seq<nat>, added: nat) {
    && (forall k :: 0 <= k < |order| ==> order[k] < added)
    && forall k, l :: 0 <= k < l < |order| ==> order[k] != order[l]
  }

  /** The first value that meets the condition. */
  ghost function First<R>(vs: seq<R>, cond: R -> bool): Option<R> {
    if vs == [] then None else if cond(vs[0]) then Some(vs[0]) else First(vs[1..], cond)
  }

  lemma {:induction false} FirstAppend<R>(vs: seq<R>, v: R, cond: R -> bool)
    ensures First(vs + [v], cond) ==
            if First(vs, cond).Some? then First(vs, cond) else if cond(v) then Some(v) else None
  {
    if vs == [] {
      assert [v][1..] == [];
    } else {
      FirstAppend(vs[1..], v, cond);
      assert (vs + [v])[1..] == vs[1..] + [v];
    }
  }

  lemma {:induction false} FirstMeans<R>(vs: seq<R>, cond: R -> bool)
    ensures First(vs, cond).None? ==> forall k :: 0 <= k < |vs| ==> !cond(vs[k])
    ensures First(vs, cond).Some? ==>
              exists k :: 0 <= k < |vs| && vs[k] == First(vs, cond).value && cond(vs[k]) && forall l :: 0 <= l < k ==> !cond(vs[l])
  {
    if vs != [] && !cond(vs[0]) {
      FirstMeans(vs[1..], cond);
      if First(vs[1..], cond).Some? {
        var k :| 0 <= k < |vs| - 1 && vs[1..][k] == First(vs[1..], cond).value && cond(vs[1..][k]) && forall l :: 0 <= l < k ==> !cond(vs[1..][l]);
        assert vs[k + 1] == First(vs, cond).value;
        forall l | 0 <= l < k + 1 ensures !cond(vs[l]) {
          assert l > 0 ==> vs[l] == vs[1..][l - 1];
        }
      }
    }
  }

  /** A task that has not taken the lock is still missing from the order. */
  lemma OrderShort(order: seq<nat>, added: nat, i: nat)
    requires Order(order, added) && i < added && i !in order
    ensures |order| < added
  {
    Pigeonhole(order + [i], added);
  }

  lemma {:induction false} Pigeonhole(order: seq<nat>, n: nat)
    requires Order(order, n)
    ensures |order| <= n
    decreases n
  {
    assert order != [] ==> order[0] < n;
    if order != [] {
      if k :| 0 <= k < |order| && order[k] == n - 1 {
        Pigeonhole(order[..k] + order[k + 1..], n - 1);
      } else {
        Pigeonhole(order, n - 1);
      }
    }
  }

  /** When all tasks have taken the lock, the values in lock order are all the values. */
  lemma AllValues<R>(values: seq<R>, order: seq<nat>)
    requires Order(order, |values|) && |order| == |values|
    ensures multiset(Values(values, order)) == multiset(values)
  {
    var identity := seq(|values|, i requires 0 <= i < |values| => i);
    forall i: nat ensures multiset(order)[i] == multiset(identity)[i] {
      if i < |values| {
        if i !in order {
          OrderShort(order, |values|, i);
        }
        CountOnce(order, i);
        assert identity[i] == i && i in identity;
        CountOnce(identity, i);
      } else {
        assert i !in order && i !in identity;
      }
    }
    SameMultiset(values, order, identity);
    assert Values(values, identity) == values;
  }

  lemma {:induction false} CountOnce(order: seq<nat>, i: nat)
    requires i in order && forall k, l :: 0 <= k < l < |order| ==> order[k] != order[l]
    ensures multiset(order)[i] == 1
  {
    var k :| 0 <= k < |order| && order[k] == i;
    assert order == order[..k] + [i] + order[k + 1..];
    assert i !in order[..k] && i !in order[k + 1..];
  }

  lemma {:induction false} SameMultiset<R>(values: seq<R>, a: seq<nat>, b: seq<nat>)
    requires multiset(a) == multiset(b)
    requires (forall k :: 0 <= k < |a| ==> a[k] < |values|) && (forall k :: 0 <= k < |b| ==> b[k] < |values|)
    ensures multiset(Values(values, a)) == multiset(Values(values, b))
    decreases |a|
  {
    if a == [] {
      assert |multiset(b)| == |multiset(a)| == 0;
    } else {
      assert a[0] in multiset(b);
      var k :| 0 <= k < |b| && b[k] == a[0];
      TakenOut(values, a, 0);
      TakenOut(values, b, k);
      SameMultiset(values, a[..0] + a[1..], b[..k] + b[k + 1..]);
    }
  }

  lemma TakenOut<R>(values: seq<R>, order: seq<nat>, k: nat)
    requires k < |order| && forall j :: 0 <= j < |order| ==> order[j] < |values|
    ensures var rest := order[..k] + order[k + 1..];
            && multiset(rest) == multiset(order) - multiset{order[k]}
            && (forall j :: 0 <= j < |rest| ==> rest[j] < |values|)
            && multiset(Values(values, order)) == multiset(Values(values, rest)) + multiset{values[order[k]]}
  {
    var rest := order[..k] + order[k + 1..];
    var vs := Values(values, order);
    assert order == order[..k] + [order[k]] + order[k + 1..];
    assert Values(values, rest) == vs[..k] + vs[k + 1..];
    assert vs == vs[..k] + [vs[k]] + vs[k + 1..];
  }
}

/** `any_of_cond`: the first value that meets the condition, or none. */
module AnyOf {
  import opened Common
  import opened Parallel

  /** The shared state, and what has happened to the waiting coroutine: `continued` counts how
      often it was let run on, `result` what it fetched. `order` lists the tasks that took the lock. */
  datatype State<R> = State(added: nat, order: seq<nat>, remaining: int, returnValue: Option<R>, suspended: bool,
                            alive: bool, phase: Phase, continued: nat, result: Option<Option<R>>)

  ghost function Start<R>(): State<R> {
    State(0, [], 0, None, false, true, Before, 0, None)
  }

  /** The values of all tasks are given; which task ends when is not. */
  ghost predicate Enabled<R>(s: State<R>, values: seq<R>, a: Action) {
    match a
    case Add => s.added < |values| && s.phase == Before
    case Finish(i) => i < s.added && i !in s.order
    case AwaitReady => s.added == |values| && s.phase == Before
    case AwaitSuspend => s.phase == NotReady
    case AwaitResume => s.continued > 0 && s.result.None? && s.alive
    case Release => s.result.Some?
  }

  ghost function Step<R>(s: State<R>, values: seq<R>, cond: R -> bool, a: Action): State<R>
    requires Enabled(s, values, a) && s.added <= |values|
  {
    match a
    case Add => s.(added := s.added + 1, remaining := s.remaining + 1)
    case Finish(i) => if s.alive then Finished(s, i, values[i], cond) else s
    case AwaitReady =>
      if s.returnValue.Some? || s.remaining == 0 then s.(phase := Arrived, continued := s.continued + 1)
      else s.(phase := NotReady)
    case AwaitSuspend =>
      s.(phase := Arrived, suspended := true,
         continued := s.continued + if s.returnValue.Some? || s.remaining == 0 then 1 else 0)
    case AwaitResume => s.(result := Some(s.returnValue))
    case Release => s.(alive := false)
  }

  /** The locked part of `run` once the awaited value is there. */
  ghost function Finished<R>(s: State<R>, i: nat, r: R, cond: R -> bool): State<R> {
    var matched := s.returnValue.None? && cond(r);
    var value := if matched then Some(r) else s.returnValue;
    var remaining := s.remaining - 1;
    var resume := (matched || (value.None? && remaining == 0)) && s.suspended;
    s.(order := s.order + [i], remaining := remaining, returnValue := value,
       continued := s.continued + if resume then 1 else 0)
  }

  /** Something to report: a value that matched, or no task left. */
  ghost predicate Settled<R>(s: State<R>, values: seq<R>) {
    s.returnValue.Some? || |s.order| == |values|
  }

  ghost predicate Invariant<R>(s: State<R>, values: seq<R>, cond: R -> bool) {
    && s.added <= |values| && Order(s.order, s.added)
    && s.remaining == s.added - |s.order|
    && s.returnValue == First(Values(values, s.order), cond)
    && (s.phase != Before ==> s.added == |values|)
    && (s.suspended ==> s.phase == Arrived)
    && s.continued == (if s.phase == Arrived && Settled(s, values) then 1 else 0)
    && (s.phase == Arrived && s.continued == 0 ==> s.suspended)
    && (s.result.Some? ==> s.continued == 1 && s.result.value == First(Values(values, s.order), cond))
    && (!s.alive ==> s.result.Some?)
  }

  lemma FinishKeeps<R>(s: State<R>, values: seq<R>, cond: R -> bool, i: nat)
    requires Invariant(s, values, cond) && Enabled(s, values, Finish(i)) && s.alive
    ensures Invariant(Finished(s, i, values[i], cond), values, cond)
  {
    var t := Finished(s, i, values[i], cond);
    OrderShort(s.order, s.added, i);
    assert Values(values, t.order) == Values(values, s.order) + [values[i]];
    FirstAppend(Values(values, s.order), values[i], cond);
  }

  lemma StepKeeps<R>(s: State<R>, values: seq<R>, cond: R -> bool, a: Action)
    requires Invariant(s, values, cond) && Enabled(s, values, a)
    ensures Invariant(Step(s, values, cond, a), values, cond)
  {
    match a
    case Finish(i) =>
      if s.alive {
        FinishKeeps(s, values, cond, i);
      }
    case _ =>
  }

  /** A run: every action enabled where it is taken. */
  ghost predicate IsRun<R>(values: seq<R>, cond: R -> bool, actions: seq<Action>, states: seq<State<R>>) {
    && |states| == |actions| + 1 && states[0] == Start()
    && forall k :: 0 <= k < |actions| ==> TakenFrom(values, cond, actions[k], states[k], states[k + 1])
  }

  ghost predicate TakenFrom<R>(values: seq<R>, cond: R -> bool, a: Action, s: State<R>, t: State<R>) {
    s.added <= |values| && Enabled(s, values, a) && t == Step(s, values, cond, a)
  }

  lemma {:induction false} RunKeeps<R>(values: seq<R>, cond: R -> bool, actions: seq<Action>, states: seq<State<R>>, k: nat)
    requires IsRun(values, cond, actions, states) && k < |states|
    ensures Invariant(states[k], values, cond)
  {
    if k > 0 {
      RunKeeps(values, cond, actions, states, k - 1);
      assert TakenFrom(values, cond, actions[k - 1], states[k - 1], states[k]);
      StepKeeps(states[k - 1], values, cond, actions[k - 1]);
    } else {
      assert Values(values, []) == [];
    }
  }

  /** In every state of every run the coroutine has been let run on at most once, and it has been
      exactly if it has arrived and a value matched or all tasks finished; what it fetched is the
      first matching value in lock order, and nothing only if no task's value matches. */
  lemma AnyOfIsSafe<R>(values: seq<R>, cond: R -> bool, actions: seq<Action>, states: seq<State<R>>, k: nat)
    requires IsRun(values, cond, actions, states) && k < |states|
    ensures var s := states[k];
            && Order(s.order, |values|)
            && s.continued <= 1
            && (s.continued == 1 <==>
                  s.phase == Arrived &&
                  (|s.order| == |values| || exists j :: 0 <= j < |s.order| && cond(values[s.order[j]])))
            && (s.result.Some? ==> s.result.value == First(Values(values, s.order), cond))
            && (s.result == Some(None) ==> |s.order| == |values| && forall i :: 0 <= i < |values| ==> !cond(values[i]))
  {
    var s := states[k];
    RunKeeps(values, cond, actions, states, k);
    FirstMeans(Values(values, s.order), cond);
    if s.result == Some(None) {
      forall i | 0 <= i < |values| ensures !cond(values[i]) {
        if i !in s.order {
          OrderShort(s.order, |values|, i);
        } else {
          var j :| 0 <= j < |s.order| && s.order[j] == i;
          assert Values(values, s.order)[j] == values[i];
        }
      }
    }
  }

  /** `AnyOfCondSharedState` with the steps of `AnyOfCondAwaitable`; each does what the protocol says,
      and tells whether the coroutine is let run on. */
  class SharedState<R> {
    ghost const values: seq<R>
    const checkCond: R -> bool
    var remaining: int
    var returnValue: Option<R>
    var suspendedHandle: bool
    ghost var model: State<R>

    ghost predicate Valid()
      reads this
    {
      && Invariant(model, values, checkCond)
      && model.remaining == remaining && model.returnValue == returnValue && model.suspended == suspendedHandle
    }

    constructor (ghost values: seq<R>, cond: R -> bool)
      ensures Valid() && this.values == values && checkCond == cond && model == Start()
    {
      this.values := values;
      checkCond := cond;
      remaining, returnValue, suspendedHandle := 0, None, false;
      model := Start();
      new;
      assert Values(values, []) == [];
    }

    method Add()
      requires Valid() && Enabled(model, values, Action.Add)
      modifies this
      ensures Valid() && model == Step(old(model), values, checkCond, Action.Add)
    {
      StepKeeps(model, values, checkCond, Action.Add);
      remaining := remaining + 1;
      model := Step(model, values, checkCond, Action.Add);
    }

    method Finish(ghost i: nat, r: R) returns (resume: bool)
      requires Valid() && Enabled(model, values, Action.Finish(i)) && model.alive && r == values[i]
      modifies this
      ensures Valid() && model == Step(old(model), values, checkCond, Action.Finish(i))
      ensures resume <==> model.continued > old(model.continued)
    {
      StepKeeps(model, values, checkCond, Action.Finish(i));
      model := Step(model, values, checkCond, Action.Finish(i));
      remaining := remaining - 1;
      var hasReturnValue := false;
      if returnValue.None? && checkCond(r) {
        returnValue := Some(r);
        hasReturnValue := true;
      }
      resume := ((returnValue.None? && remaining == 0) || hasReturnValue) && suspendedHandle;
    }

    method AwaitReady() returns (ready: bool)
      requires Valid() && Enabled(model, values, Action.AwaitReady)
      modifies this`model
      ensures Valid() && model == Step(old(model), values, checkCond, Action.AwaitReady)
      ensures ready <==> model.continued > old(model.continued)
    {
      StepKeeps(model, values, checkCond, Action.AwaitReady);
      model := Step(model, values, checkCond, Action.AwaitReady);
      ready := returnValue.Some? || remaining == 0;
    }

    method AwaitSuspend() returns (resume: bool)
      requires Valid() && Enabled(model, values, Action.AwaitSuspend)
      modifies this
      ensures Valid() && model == Step(old(model), values, checkCond, Action.AwaitSuspend)
      ensures resume <==> model.continued > old(model.continued)
    {
      StepKeeps(model, values, checkCond, Action.AwaitSuspend);
      model := Step(model, values, checkCond, Action.AwaitSuspend);
      suspendedHandle := true;
      resume := returnValue.Some? || remaining == 0;
    }

    /** The optional keeps its value flag when it is moved from. */
    method AwaitResume() returns (value: Option<R>)
      requires Valid() && Enabled(model, values, Action.AwaitResume)
      modifies this`model
      ensures Valid() && model == Step(old(model), values, checkCond, Action.AwaitResume) && model.result == Some(value)
    {
      StepKeeps(model, values, checkCond, Action.AwaitResume);
      model := Step(model, values, checkCond, Action.AwaitResume);
      value := returnValue;
    }
  }
}

/** `all_of`: all values, in the order in which the tasks finished. */
module AllOf {
  import opened Common
  import opened Parallel

  datatype State<R> = State(added: nat, order: seq<nat>, remaining: int, returnValues: seq<R>, suspended: bool,
                            alive: bool, phase: Phase, continued: nat, result: Option<seq<R>>)

  ghost function Start<R>(): State<R> {
    State(0, [], 0, [], false, true, Before, 0, None)
  }

  ghost predicate Enabled<R>(s: State<R>, values: seq<R>, a: Action) {
    match a
    case Add => s.added < |values| && s.phase == Before
    case Finish(i) => i < s.added && i !in s.order
    case AwaitReady => s.added == |values| && s.phase == Before
    case AwaitSuspend => s.phase == NotReady
    case AwaitResume => s.continued > 0 && s.result.None?
    case Release => s.result.Some?
  }

  ghost function Step<R>(s: State<R>, values: seq<R>, a: Action): State<R>
    requires Enabled(s, values, a) && s.added <= |values|
  {
    match a
    case Add => s.(added := s.added + 1, remaining := s.remaining + 1)
    case Finish(i) => Finished(s, i, values[i])
    case AwaitReady =>
      if s.remaining == 0 then s.(phase := Arrived, continued := s.continued + 1) else s.(phase := NotReady)
    case AwaitSuspend =>
      s.(phase := Arrived, suspended := true, continued := s.continued + if s.remaining == 0 then 1 else 0)
    case AwaitResume => s.(result := Some(s.returnValues), returnValues := [])
    case Release => s.(alive := false)
  }

  ghost function Finished<R>(s: State<R>, i: nat, r: R): State<R> {
    var remaining := s.remaining - 1;
    s.(order := s.order + [i], remaining := remaining, returnValues := s.returnValues + [r],
       continued := s.continued + if remaining == 0 && s.suspended then 1 else 0)
  }

  ghost predicate Invariant<R>(s: State<R>, values: seq<R>) {
    && s.added <= |values| && Order(s.order, s.added)
    && s.remaining == s.added - |s.order|
    && (s.result.None? ==> s.returnValues == Values(values, s.order))
    && (s.phase != Before ==> s.added == |values|)
    && (s.suspended ==> s.phase == Arrived)
    && s.continued == (if s.phase == Arrived && |s.order| == |values| then 1 else 0)
    && (s.phase == Arrived && s.continued == 0 ==> s.suspended)
    && (s.result.Some? ==> s.continued == 1 && s.result.value == Values(values, s.order))
    && (!s.alive ==> s.result.Some?)
  }

  lemma StepKeeps<R>(s: State<R>, values: seq<R>, a: Action)
    requires Invariant(s, values) && Enabled(s, values, a)
    ensures Invariant(Step(s, values, a), values)
  {
    match a
    case Finish(i) =>
      OrderShort(s.order, s.added, i);
      assert Values(values, s.order + [i]) == Values(values, s.order) + [values[i]];
    case _ =>
  }

  ghost predicate TakenFrom<R>(values: seq<R>, a: Action, s: State<R>, t: State<R>) {
    s.added <= |values| && Enabled(s, values, a) && t == Step(s, values, a)
  }

  ghost predicate IsRun<R>(values: seq<R>, actions: seq<Action>, states: seq<State<R>>) {
    && |states| == |actions| + 1 && states[0] == Start()
    && forall k :: 0 <= k < |actions| ==> TakenFrom(values, actions[k], states[k], states[k + 1])
  }

  lemma {:induction false} RunKeeps<R>(values: seq<R>, actions: seq<Action>, states: seq<State<R>>, k: nat)
    requires IsRun(values, actions, states) && k < |states|
    ensures Invariant(states[k], values)
  {
    if k > 0 {
      RunKeeps(values, actions, states, k - 1);
      assert TakenFrom(values, actions[k - 1], states[k - 1], states[k]);
      StepKeeps(states[k - 1], values, actions[k - 1]);
    } else {
      assert Values(values, []) == [];
    }
  }

  /** In every state of every run the coroutine has been let run on at most once, and it has been
      exactly if it has arrived and all tasks finished; what it fetched are the values of all tasks
      in the order of their ends; and no task ever needs the shared state once it is released. */
  lemma AllOfIsSafe<R>(values: seq<R>, actions: seq<Action>, states: seq<State<R>>, k: nat)
    requires IsRun(values, actions, states) && k < |states|
    ensures var s := states[k];
            && Order(s.order, |values|)
            && s.continued <= 1
            && (s.continued == 1 <==> s.phase == Arrived && |s.order| == |values|)
            && (s.result.Some? ==>
                  && |s.order| == |values|
                  && s.result.value == Values(values, s.order)
                  && multiset(s.result.value) == multiset(values))
            && (!s.alive ==> forall i: nat :: !Enabled(s, values, Finish(i)))
  {
    var s := states[k];
    RunKeeps(values, actions, states, k);
    if s.result.Some? {
      AllValues(values, s.order);
      forall i: nat ensures !Enabled(s, values, Finish(i)) {
        if i < s.added && i !in s.order {
          OrderShort(s.order, s.added, i);
        }
      }
    }
  }

  /** `AllOfSharedState` with the steps of `AllOfAwaitable`. */
  class SharedState<R> {
    ghost const values: seq<R>
    var remaining: int
    var returnValues: seq<R>
    var suspendedHandle: bool
    ghost var model: State<R>

    ghost predicate Valid()
      reads this
    {
      && Invariant(model, values)
      && model.remaining == remaining && model.returnValues == returnValues && model.suspended == suspendedHandle
    }

    constructor (ghost values: seq<R>)
      ensures Valid() && this.values == values && model == Start()
    {
      this.values := values;
      remaining, returnValues, suspendedHandle := 0, [], false;
      model := Start();
      new;
      assert Values(values, []) == [];
    }

    method Add()
      requires Valid() && Enabled(model, values, Action.Add)
      modifies this
      ensures Valid() && model == Step(old(model), values, Action.Add)
    {
      StepKeeps(model, values, Action.Add);
      remaining := remaining + 1;
      model := Step(model, values, Action.Add);
    }

    method Finish(ghost i: nat, r: R) returns (resume: bool)
      requires Valid() && Enabled(model, values, Action.Finish(i)) && r == values[i]
      modifies this
      ensures Valid() && model == Step(old(model), values, Action.Finish(i))
      ensures resume <==> model.continued > old(model.continued)
    {
      StepKeeps(model, values, Action.Finish(i));
      model := Step(model, values, Action.Finish(i));
      returnValues := returnValues + [r];
      remaining := remaining - 1;
      resume := remaining == 0 && suspendedHandle;
    }

    method AwaitReady() returns (ready: bool)
      requires Valid() && Enabled(model, values, Action.AwaitReady)
      modifies this`model
      ensures Valid() && model == Step(old(model), values, Action.AwaitReady)
      ensures ready <==> model.continued > old(model.continued)
    {
      StepKeeps(model, values, Action.AwaitReady);
      model := Step(model, values, Action.AwaitReady);
      ready := remaining == 0;
    }

    method AwaitSuspend() returns (resume: bool)
      requires Valid() && Enabled(model, values, Action.AwaitSuspend)
      modifies this
      ensures Valid() && model == Step(old(model), values, Action.AwaitSuspend)
      ensures resume <==> model.continued > old(model.continued)
    {
      StepKeeps(model, values, Action.AwaitSuspend);
      model := Step(model, values, Action.AwaitSuspend);
      suspendedHandle := true;
      resume := remaining == 0;
    }

    /** Moves the values out. */
    method AwaitResume() returns (all: seq<R>)
      requires Valid() && Enabled(model, values, Action.AwaitResume)
      modifies this
      ensures Valid() && model == Step(old(model), values, Action.AwaitResume) && model.result == Some(all)
    {
      StepKeeps(model, values, Action.AwaitResume);
      model := Step(model, values, Action.AwaitResume);
      all := returnValues;
      returnValues := [];
    }
  }
}

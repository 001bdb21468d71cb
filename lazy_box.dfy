/** A box that defers a computation until its value is first read, runs it at
    most once and caches the result for every later read.

    A Swift closure `() -> T` may have side effects (the counter demo bumps a
    global `counter` and returns a value derived from it). A Dafny arrow cannot,
    so the stored computation is written `S -> (S, T)`: it receives the state
    its side effects act on and yields that state updated together with the
    result. Every read threads that state through explicitly.
 */
module Lazy {

  datatype Option<T> = None | Some(value: T)

  /** The box's internal state: a pending computation or its cached result. */
  datatype LazyValue<!S, T> =
    | NotYetComputed(computation: S -> (S, T))
    | Computed(value: T)

  /** What one read leaves behind: the box's new state, the new environment
      (the state the computation's side effects act on) and the value read. */
  datatype Outcome<!S, T> = Outcome(state: LazyValue<S, T>, env: S, result: T)

  /** What a run of reads leaves behind: the box's final state, the final
      environment, the value each read returned, and how many of the reads
      ran the stored computation. */
  datatype Trace<!S, T> = Trace(state: LazyValue<S, T>, env: S, results: seq<T>, runs: nat)

  /** One read of the `value` getter on the box's state. */
  function Read<S, T>(v: LazyValue<S, T>, env: S): (o: Outcome<S, T>)
    // after any read the box holds exactly the value that read returned
    ensures o.state == Computed(o.result)
    // a cached value is returned as is, with no side effect
    ensures v.Computed? ==> o.result == v.value && o.env == env
    // a pending computation is run once on the current environment
    ensures v.NotYetComputed? ==> (o.env, o.result) == v.computation(env)
  {
    match v
    case NotYetComputed(f) =>
      var (env', r) := f(env);
      Outcome(Computed(r), env', r)
    case Computed(r) =>
      Outcome(v, env, r)
  }

  /** `n` reads of the `value` getter, one after the other. */
  function ReadN<S, T>(v: LazyValue<S, T>, env: S, n: nat): (t: Trace<S, T>)
    ensures |t.results| == n
    ensures n == 0 ==> t == Trace(v, env, [], 0)
    ensures n > 0 ==> t.results[0] == Read(v, env).result
    decreases n
  {
    if n == 0 then
      Trace(v, env, [], 0)
    else
      var o := Read(v, env);
      var rest := ReadN(o.state, o.env, n - 1);
      Trace(rest.state, rest.env, [o.result] + rest.results,
            rest.runs + if v.NotYetComputed? then 1 else 0)
  }

  /** Reads of a computed box return its cached value every time and change
      nothing: the state never reverts and no side effect happens. */
  lemma {:induction false} ComputedIsStable<S, T>(x: T, env: S, n: nat)
    ensures ReadN(Computed(x), env, n).state == Computed(x)
    ensures ReadN(Computed(x), env, n).env == env
    ensures ReadN(Computed(x), env, n).runs == 0
    ensures forall i :: 0 <= i < n ==> ReadN(Computed(x), env, n).results[i] == x
    decreases n
  {
    if n > 0 {
      ComputedIsStable(x, env, n - 1);
    }
  }

  /** Every read in a run of one or more returns the value of the first read,
      and after the run the box holds that value. */
  lemma IdempotentReads<S, T>(v: LazyValue<S, T>, env: S, n: nat)
    requires n >= 1
    ensures ReadN(v, env, n).state == Computed(Read(v, env).result)
    ensures forall i :: 0 <= i < n ==> ReadN(v, env, n).results[i] == Read(v, env).result
  {
    var o := Read(v, env);
    ComputedIsStable(o.result, o.env, n - 1);
  }

  /** The computation runs exactly once over a non-empty run of reads from a
      pending box, and never otherwise. */
  lemma RunsAtMostOnce<S, T>(v: LazyValue<S, T>, env: S, n: nat)
    ensures ReadN(v, env, n).runs == if v.NotYetComputed? && n > 0 then 1 else 0
  {
    if n > 0 {
      var o := Read(v, env);
      ComputedIsStable(o.result, o.env, n - 1);
    }
  }

  /** The computation's side effects happen once: after one or more reads
      from a pending box the environment is what a single run of the
      computation makes of it. Before the first read it is untouched. */
  lemma SideEffectsOnce<S, T>(f: S -> (S, T), env: S, n: nat)
    ensures n == 0 ==> ReadN(NotYetComputed(f), env, n).env == env
    ensures n >= 1 ==> ReadN(NotYetComputed(f), env, n).env == f(env).0
    ensures n >= 1 ==> ReadN(NotYetComputed(f), env, n).results[0] == f(env).1
  {
    if n > 0 {
      var o := Read(NotYetComputed(f), env);
      ComputedIsStable(o.result, o.env, n - 1);
    }
  }

  /** The box. `state` is its only mutable field; the ghost `invocations`
      counts how often the stored computation has been run. */
  class LazyBox<S, T> {
    var state: LazyValue<S, T>
    ghost var invocations: nat

    /** The computation has run once exactly when the result is cached. */
    ghost predicate Valid()
      reads this
    {
      invocations == if state.Computed? then 1 else 0
    }

    /** Stores the computation without running it. */
    constructor (computation: S -> (S, T))
      ensures Valid()
      ensures state == NotYetComputed(computation)
      ensures invocations == 0
    {
      state := NotYetComputed(computation);
      invocations := 0;
    }

    /** The `value` getter: runs the pending computation and caches its
        result, or returns the cached result. */
    method Value(env: S) returns (result: T, env': S)
      requires Valid()
      modifies this
      ensures Valid()
      ensures Outcome(state, env', result) == Read(old(state), env)
      ensures invocations == old(invocations) + if old(state).NotYetComputed? then 1 else 0
      ensures invocations <= 1
    {
      var returnValue: Option<T> := None;
      match state {
        case NotYetComputed(computation) =>
          var (env1, r) := computation(env);
          state := Computed(r);
          invocations := invocations + 1;
          env' := env1;
          returnValue := Some(r);
        case Computed(r) =>
          env' := env;
          returnValue := Some(r);
      }
      assert returnValue.Some?;
      result := returnValue.value;
    }
  }

  /** The demo's closure: increments the counter and returns ten times it. */
  function CounterComputation(counter: int): (int, int)
  {
    (counter + 1, (counter + 1) * 10)
  }

  /** The demo: a box over the counter closure, read twice. Both reads give
      10 and the closure has run once, so the counter ends at 1. */
  method CounterDemo() returns (first: int, second: int, counter: int)
    ensures first == 10 && second == 10
    ensures counter == 1
  {
    counter := 0;
    var box := new LazyBox(CounterComputation);
    assert box.invocations == 0;
    first, counter := box.Value(counter);
    second, counter := box.Value(counter);
    assert box.invocations == 1;
  }
}

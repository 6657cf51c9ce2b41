/** `Lazy::get_or_create` and `Lazy::create` as interleaved atomic steps of any number of callers.
  *
  * Reading or storing the cache is one atomic step; acquiring the async mutex, resolving the scope and
  * every await point lie between steps, so any other caller may run there. A caller may be abandoned
  * (its future dropped) wherever it is; that releases the mutex if it holds it.
  */
module LazyHandle {
  import opened Common

  type Caller = nat
  type Value = nat

  /** Where a caller of `get_or_create` is. */
  datatype Phase =
    | Outside
    | Queued                    // first check missed; waiting for the mutex
    | Holding                   // mutex held, second check not yet made
    | Resolving                 // second check missed; the resolver is running
    | Resolved(value: Value)    // resolver answered; not yet stored
    | Stored(value: Value)      // cache written; mutex still held
    | Creating                  // a direct `create` call: resolver running, no mutex
    | Created(value: Value)     // a direct `create` call: about to store
    | Returned(value: Value)
    | Failed
    | Abandoned

  datatype State = State(cache: Option<Value>, lock: Option<Caller>, phase: map<Caller, Phase>) {
    function At(c: Caller): Phase {
      if c in phase then phase[c] else Outside
    }

    function Move(c: Caller, to: Phase): State {
      this.(phase := phase[c := to])
    }
  }

  datatype Action =
    | Call(c: Caller)
    | Acquire(c: Caller)
    | Recheck(c: Caller)
    | Resolve(c: Caller, outcome: Option<Value>)
    | Store(c: Caller)
    | Release(c: Caller)
    | Abandon(c: Caller)
    | CallCreate(c: Caller)
    | ResolveCreate(c: Caller, outcome: Option<Value>)
    | StoreCreate(c: Caller)

  predicate HoldsLock(p: Phase) {
    p.Holding? || p.Resolving? || p.Resolved? || p.Stored?
  }

  predicate Finished(p: Phase) {
    p.Returned? || p.Failed? || p.Abandoned?
  }

  function Unlocked(s: State, c: Caller): State {
    if s.lock == Some(c) then s.(lock := None) else s
  }

  ghost predicate Step(s: State, a: Action, s': State) {
    match a
    case Call(c) =>
      s.At(c) == Outside && s' == s.Move(c, if s.cache.Some? then Returned(s.cache.value) else Queued)
    case Acquire(c) =>
      s.At(c) == Queued && s.lock == None && s' == s.(lock := Some(c)).Move(c, Holding)
    case Recheck(c) =>
      s.At(c) == Holding &&
      s' == if s.cache.Some? then Unlocked(s, c).Move(c, Returned(s.cache.value)) else s.Move(c, Resolving)
    case Resolve(c, outcome) =>
      s.At(c) == Resolving &&
      s' == if outcome.Some? then s.Move(c, Resolved(outcome.value)) else Unlocked(s, c).Move(c, Failed)
    case Store(c) =>
      s.At(c).Resolved? && s' == s.(cache := Some(s.At(c).value)).Move(c, Stored(s.At(c).value))
    case Release(c) =>
      s.At(c).Stored? && s' == Unlocked(s, c).Move(c, Returned(s.At(c).value))
    case Abandon(c) =>
      s.At(c) != Outside && !Finished(s.At(c)) && s' == Unlocked(s, c).Move(c, Abandoned)
    case CallCreate(c) =>
      s.At(c) == Outside && s' == s.Move(c, Creating)
    case ResolveCreate(c, outcome) =>
      s.At(c) == Creating && s' == s.Move(c, if outcome.Some? then Created(outcome.value) else Failed)
    case StoreCreate(c) =>
      s.At(c).Created? && s' == s.(cache := Some(s.At(c).value)).Move(c, Returned(s.At(c).value))
  }

  const FRESH := State(None, None, map[])

  /** A run: the states passed through and the actions between them. */
  ghost predicate Run(states: seq<State>, actions: seq<Action>) {
    && |states| == |actions| + 1
    && states[0] == FRESH
    && forall i :: 0 <= i < |actions| ==> Step(states[i], actions[i], states[i + 1])
  }

  // ---------------------------------------------------------------- mutual exclusion, in every run

  /** Exactly the lock's holder is between acquiring and releasing. */
  ghost predicate Exclusive(s: State) {
    forall c: Caller :: HoldsLock(s.At(c)) <==> s.lock == Some(c)
  }

  lemma StepKeepsExclusive(s: State, a: Action, s': State)
    requires Exclusive(s) && Step(s, a, s')
    ensures Exclusive(s')
  {
    var c := a.c;
    assert s'.At(c) == s'.phase[c];
    forall d: Caller | d != c ensures s'.At(d) == s.At(d) {
    }
  }

  lemma {:induction false} RunKeepsExclusive(states: seq<State>, actions: seq<Action>, i: nat)
    requires Run(states, actions) && i < |states|
    ensures Exclusive(states[i])
  {
    if i > 0 {
      RunKeepsExclusive(states, actions, i - 1);
      StepKeepsExclusive(states[i - 1], actions[i - 1], states[i]);
    }
  }

  /** Two callers never resolve under the mutex at the same time. */
  lemma OneResolverAtATime(states: seq<State>, actions: seq<Action>, i: nat, c: Caller, d: Caller)
    requires Run(states, actions) && i < |states|
    requires states[i].At(c).Resolving? && states[i].At(d).Resolving?
    ensures c == d
  {
    RunKeepsExclusive(states, actions, i);
  }

  /** No failure or abandonment wedges the mutex: whenever it is held, its holder can make a step, and
    * whenever it is free, anyone queued can take it. */
  lemma NeverWedged(states: seq<State>, actions: seq<Action>, i: nat)
    requires Run(states, actions) && i < |states|
    ensures states[i].lock.Some? ==>
              exists a: Action, s': State :: a.c == states[i].lock.value && !a.Abandon? && Step(states[i], a, s')
    ensures states[i].lock.None? ==>
              forall c: Caller | states[i].At(c) == Queued :: exists s': State :: Step(states[i], Acquire(c), s')
  {
    RunKeepsExclusive(states, actions, i);
    var s := states[i];
    if s.lock.Some? {
      var c := s.lock.value;
      assert HoldsLock(s.At(c));
      match s.At(c)
      case Holding =>
        var hit, miss := s.cache.Some?, s.Move(c, Resolving);
        assert Step(s, Recheck(c), if hit then Unlocked(s, c).Move(c, Returned(s.cache.value)) else miss);
      case Resolving => assert Step(s, Resolve(c, None), Unlocked(s, c).Move(c, Failed));
      case Resolved(v) => assert Step(s, Store(c), s.(cache := Some(v)).Move(c, Stored(v)));
      case Stored(v) => assert Step(s, Release(c), Unlocked(s, c).Move(c, Returned(v)));
    } else {
      forall c: Caller | s.At(c) == Queued ensures exists s': State :: Step(s, Acquire(c), s') {
        assert Step(s, Acquire(c), s.(lock := Some(c)).Move(c, Holding));
      }
    }
  }

  // ---------------------------------------------------------------- agreement

  /** A direct `create` may store `v` now: the cache holds it already, or it is empty and no initializer
    * that could bring another value is under way. */
  ghost predicate Harmless(s: State, v: Value) {
    || s.cache == Some(v)
    || (s.cache == None && forall c: Caller :: !s.At(c).Resolving? && (s.At(c).Resolved? ==> s.At(c).value == v))
  }

  /** Every direct `create` that gets as far as storing its value does so harmlessly. */
  ghost predicate HarmlessStores(states: seq<State>, actions: seq<Action>)
    requires Run(states, actions)
  {
    forall i :: 0 <= i < |actions| ==> HarmlessStep(states[i], actions[i])
  }

  ghost predicate HarmlessStep(s: State, a: Action) {
    a.StoreCreate? && s.At(a.c).Created? ==> Harmless(s, s.At(a.c).value)
  }

  /** Whoever resolves does so with the cache still empty; whoever has an answer has the cache's, or is
    * about to fill it. */
  ghost predicate Invariant(s: State) {
    && Exclusive(s)
    && (forall c: Caller :: s.At(c).Resolving? ==> s.cache == None)
    && (forall c: Caller :: s.At(c).Resolved? ==> s.cache == None || s.cache == Some(s.At(c).value))
    && (forall c: Caller :: s.At(c).Stored? || s.At(c).Returned? ==> s.cache == Some(s.At(c).value))
  }

  lemma StepKeepsInvariant(s: State, a: Action, s': State)
    requires Invariant(s) && Step(s, a, s') && HarmlessStep(s, a)
    ensures Invariant(s')
    ensures s.cache.Some? ==> s'.cache == s.cache
  {
    var c := a.c;
    StepKeepsExclusive(s, a, s');
    assert s'.At(c) == s'.phase[c];
    forall d: Caller | d != c ensures s'.At(d) == s.At(d) {
    }
    if a.Store? {
      forall d: Caller | d != c ensures !HoldsLock(s.At(d)) {
      }
    }
  }

  lemma {:induction false} RunKeepsInvariant(states: seq<State>, actions: seq<Action>, i: nat)
    requires Run(states, actions) && HarmlessStores(states, actions) && i < |states|
    ensures Invariant(states[i])
  {
    if i > 0 {
      RunKeepsInvariant(states, actions, i - 1);
      StepKeepsInvariant(states[i - 1], actions[i - 1], states[i]);
    }
  }

  /** Once filled, the cache never changes again. */
  lemma {:induction false} CacheIsStable(states: seq<State>, actions: seq<Action>, i: nat, j: nat)
    requires Run(states, actions) && HarmlessStores(states, actions) && i <= j < |states|
    requires states[i].cache.Some?
    ensures states[j].cache == states[i].cache
    decreases j
  {
    if i < j {
      CacheIsStable(states, actions, i, j - 1);
      RunKeepsInvariant(states, actions, j - 1);
      StepKeepsInvariant(states[j - 1], actions[j - 1], states[j]);
    }
  }

  lemma NoNewResolver(s: State, a: Action, s': State, c: Caller)
    requires Step(s, a, s') && s.cache.Some? && !s.At(c).Resolving? && !s.At(c).Resolved?
    ensures !s'.At(c).Resolving? && !s'.At(c).Resolved?
  {
  }

  /** After a store under the mutex nobody resolves under it again. */
  lemma {:induction false} StoreEndsResolving(states: seq<State>, actions: seq<Action>, i: nat, j: nat, c: Caller)
    requires Run(states, actions) && HarmlessStores(states, actions) && i < j < |states| && actions[i].Store?
    ensures !states[j].At(c).Resolving? && !states[j].At(c).Resolved?
    decreases j
  {
    assert Step(states[i], actions[i], states[i + 1]);
    if j == i + 1 {
      RunKeepsExclusive(states, actions, i);
      assert HoldsLock(states[i].At(actions[i].c)) && states[i].lock == Some(actions[i].c);
      assert HoldsLock(states[i].At(c)) ==> c == actions[i].c;
    } else {
      StoreEndsResolving(states, actions, i, j - 1, c);
      CacheIsStable(states, actions, i + 1, j - 1);
      NoNewResolver(states[j - 1], actions[j - 1], states[j], c);
    }
  }

  /** The value is initialized at most once: two stores under the mutex are the same store. */
  lemma StoredAtMostOnce(states: seq<State>, actions: seq<Action>, i: nat, j: nat)
    requires Run(states, actions) && HarmlessStores(states, actions)
    requires i < |actions| && j < |actions| && actions[i].Store? && actions[j].Store?
    ensures i == j
  {
    assert Step(states[i], actions[i], states[i + 1]) && Step(states[j], actions[j], states[j + 1]);
    if i < j {
      StoreEndsResolving(states, actions, i, j, actions[j].c);
    } else if j < i {
      StoreEndsResolving(states, actions, j, i, actions[i].c);
    }
  }

  /** All callers that return, whenever they return, return the same value. */
  lemma CallersAgree(states: seq<State>, actions: seq<Action>, i: nat, c: Caller, j: nat, d: Caller)
    requires Run(states, actions) && HarmlessStores(states, actions)
    requires i < |states| && j < |states| && states[i].At(c).Returned? && states[j].At(d).Returned?
    ensures states[i].At(c) == states[j].At(d)
  {
    RunKeepsInvariant(states, actions, i);
    RunKeepsInvariant(states, actions, j);
    if i <= j {
      CacheIsStable(states, actions, i, j);
    } else {
      CacheIsStable(states, actions, j, i);
    }
  }

  // ---------------------------------------------------------------- disagreement

  function Last(states: seq<State>): State
    requires states != []
  {
    states[|states| - 1]
  }

  lemma RunExtends(states: seq<State>, actions: seq<Action>, a: Action, next: State)
    requires Run(states, actions) && states != [] && Step(Last(states), a, next)
    ensures Run(states + [next], actions + [a])
  {
    var states', actions' := states + [next], actions + [a];
    forall i | 0 <= i < |actions'| ensures Step(states'[i], actions'[i], states'[i + 1]) {
      if i < |actions| {
        assert Step(states[i], actions[i], states[i + 1]);
      }
    }
  }

  /** `states'` goes on from `states`. */
  ghost predicate Continues(states: seq<State>, actions: seq<Action>, states': seq<State>, actions': seq<Action>) {
    states <= states' && actions <= actions'
  }

  /** A direct `create` by `c` can run at any time, and replaces the cache. */
  lemma CreateReplaces(states: seq<State>, actions: seq<Action>, c: Caller, v: Value)
    returns (states': seq<State>, actions': seq<Action>)
    requires Run(states, actions) && states != [] && Last(states).At(c) == Outside
    ensures Run(states', actions') && states' != [] && Continues(states, actions, states', actions')
    ensures actions' == actions + [CallCreate(c), ResolveCreate(c, Some(v)), StoreCreate(c)]
    ensures Last(states').cache == Some(v)
    ensures forall d: Caller :: d != c ==> Last(states').At(d) == Last(states).At(d)
  {
    var s0 := Last(states);
    var s1 := s0.Move(c, Creating);
    var s2 := s1.Move(c, Created(v));
    var s3 := s2.(cache := Some(v)).Move(c, Returned(v));
    RunExtends(states, actions, CallCreate(c), s1);
    RunExtends(states + [s1], actions + [CallCreate(c)], ResolveCreate(c, Some(v)), s2);
    RunExtends(states + [s1] + [s2], actions + [CallCreate(c)] + [ResolveCreate(c, Some(v))], StoreCreate(c), s3);
    states' := states + [s1] + [s2] + [s3];
    actions' := actions + [CallCreate(c)] + [ResolveCreate(c, Some(v))] + [StoreCreate(c)];
  }

  /** A caller of `get_or_create` that finds the cache filled returns what is there. */
  lemma CallReads(states: seq<State>, actions: seq<Action>, c: Caller)
    returns (states': seq<State>, actions': seq<Action>)
    requires Run(states, actions) && states != [] && Last(states).At(c) == Outside && Last(states).cache.Some?
    ensures Run(states', actions') && states' != [] && Continues(states, actions, states', actions')
    ensures actions' == actions + [Call(c)]
    ensures Last(states').cache == Last(states).cache && Last(states').At(c) == Returned(Last(states).cache.value)
    ensures forall d: Caller :: d != c ==> Last(states').At(d) == Last(states).At(d)
  {
    var s := Last(states);
    var s' := s.Move(c, Returned(s.cache.value));
    RunExtends(states, actions, Call(c), s');
    states', actions' := states + [s'], actions + [Call(c)];
  }

  lemma {:induction false} Bound(callers: set<Caller>) returns (b: Caller)
    ensures forall c <- callers :: c < b
  {
    if callers == {} {
      b := 0;
    } else {
      var c :| c in callers;
      var rest := callers - {c};
      b := Bound(rest);
      b := if c < b then b else c + 1;
      assert forall d <- callers :: d == c || d in rest;
    }
  }

  /** There is always someone who has not called yet. */
  lemma Newcomer(s: State) returns (c: Caller)
    ensures c !in s.phase && s.At(c) == Outside
  {
    c := Bound(s.phase.Keys);
  }

  /** Whoever is inside `get_or_create` has called it. */
  predicate Inside(p: Phase) {
    p == Queued || HoldsLock(p)
  }

  lemma {:induction false} InsideHasCalled(states: seq<State>, actions: seq<Action>, i: nat, c: Caller)
    requires Run(states, actions) && i < |states| && Inside(states[i].At(c))
    ensures Call(c) in actions
  {
    assert i > 0;
    assert Step(states[i - 1], actions[i - 1], states[i]);
    if actions[i - 1] == Call(c) {
      assert actions[i - 1] in actions;
    } else {
      InsideHasCalled(states, actions, i - 1, c);
    }
  }

  /** Two callers of `get_or_create` have different values. */
  ghost predicate Disagree(states: seq<State>, actions: seq<Action>, c: Caller, d: Caller) {
    && states != [] && Call(c) in actions && Call(d) in actions
    && Last(states).At(c).Returned? && Last(states).At(d).Returned? && Last(states).At(c) != Last(states).At(d)
  }

  /** From the `n`th action on the only direct `create` is the pending one of `creator`, and nobody starts
    * an initializer. */
  ghost predicate OnlyPendingStore(actions: seq<Action>, n: nat, creator: Caller) {
    forall i :: n <= i < |actions| ==> PendingStoreOnly(actions[i], creator)
  }

  predicate PendingStoreOnly(a: Action, creator: Caller) {
    !a.Recheck? && !a.CallCreate? && !a.ResolveCreate? && (a.StoreCreate? ==> a.c == creator)
  }

  /** A direct `create` stores over another value. */
  lemma OverwriteDisagrees(states: seq<State>, actions: seq<Action>, creator: Caller, v: Value)
    returns (states': seq<State>, actions': seq<Action>, c: Caller, d: Caller)
    requires Run(states, actions) && states != [] && Last(states).At(creator) == Created(v)
    requires Last(states).cache.Some? && Last(states).cache.value != v
    ensures Run(states', actions') && Continues(states, actions, states', actions')
    ensures OnlyPendingStore(actions', |actions|, creator)
    ensures Disagree(states', actions', c, d)
  {
    c := Newcomer(Last(states));
    states', actions' := CallReads(states, actions, c);
    var s := Last(states');
    var next := s.(cache := Some(v)).Move(creator, Returned(v));
    RunExtends(states', actions', StoreCreate(creator), next);
    states', actions' := states' + [next], actions' + [StoreCreate(creator)];
    d := Newcomer(next);
    states', actions' := CallReads(states', actions', d);
  }

  /** A direct `create` stores while an initializer has another value at hand. */
  lemma RaceDisagrees(states: seq<State>, actions: seq<Action>, creator: Caller, v: Value, c: Caller, u: Value)
    returns (states': seq<State>, actions': seq<Action>, d: Caller)
    requires Run(states, actions) && states != [] && Last(states).At(creator) == Created(v)
    requires Last(states).At(c) == Resolved(u) && u != v
    ensures Run(states', actions') && Continues(states, actions, states', actions')
    ensures OnlyPendingStore(actions', |actions|, creator)
    ensures Disagree(states', actions', c, d)
  {
    InsideHasCalled(states, actions, |states| - 1, c);
    var s1 := Last(states).(cache := Some(v)).Move(creator, Returned(v));
    RunExtends(states, actions, StoreCreate(creator), s1);
    states', actions' := states + [s1], actions + [StoreCreate(creator)];
    d := Newcomer(s1);
    states', actions' := CallReads(states', actions', d);
    states', actions' := InitializerReturns(states', actions', c, u);
  }

  /** An initializer with a value at hand can store and return it. */
  lemma InitializerReturns(states: seq<State>, actions: seq<Action>, c: Caller, u: Value)
    returns (states': seq<State>, actions': seq<Action>)
    requires Run(states, actions) && states != [] && Last(states).At(c) == Resolved(u)
    ensures Run(states', actions') && states' != [] && Continues(states, actions, states', actions')
    ensures actions' == actions + [Store(c), Release(c)]
    ensures Last(states').At(c) == Returned(u)
    ensures forall d: Caller :: d != c ==> Last(states').At(d) == Last(states).At(d)
  {
    var s1 := Last(states).(cache := Some(u)).Move(c, Stored(u));
    RunExtends(states, actions, Store(c), s1);
    var s2 := Unlocked(s1, c).Move(c, Returned(u));
    RunExtends(states + [s1], actions + [Store(c)], Release(c), s2);
    states', actions' := states + [s1] + [s2], actions + [Store(c)] + [Release(c)];
  }

  /** In every run, a direct `create` that is about to store harmfully can, all by itself, make two callers
    * of `get_or_create` disagree. */
  lemma HarmfulStoreBreaksAgreement(states: seq<State>, actions: seq<Action>, creator: Caller, v: Value)
    returns (states': seq<State>, actions': seq<Action>, c: Caller, d: Caller)
    requires Run(states, actions) && states != [] && Last(states).At(creator) == Created(v)
    requires !Harmless(Last(states), v)
    ensures Run(states', actions') && Continues(states, actions, states', actions')
    ensures OnlyPendingStore(actions', |actions|, creator)
    ensures Disagree(states', actions', c, d)
  {
    var s := Last(states);
    if s.cache.Some? {
      states', actions', c, d := OverwriteDisagrees(states, actions, creator, v);
    } else if c' :| s.At(c').Resolved? && s.At(c').value != v {
      c := c';
      states', actions', d := RaceDisagrees(states, actions, creator, v, c, s.At(c).value);
    } else {
      c :| s.At(c).Resolving?;
      var next := s.Move(c, Resolved(v + 1));
      RunExtends(states, actions, Resolve(c, Some(v + 1)), next);
      states', actions', d :=
        RaceDisagrees(states + [next], actions + [Resolve(c, Some(v + 1))], creator, v, c, v + 1);
    }
  }

  /** A creator whose value would be harmless, or who is through. */
  ghost predicate SafePending(s: State, creator: Caller, v: Value) {
    (s.At(creator) == Created(v) && Harmless(s, v)) || Finished(s.At(creator))
  }

  lemma SafeStep(s: State, a: Action, s': State, creator: Caller, v: Value)
    requires Invariant(s) && SafePending(s, creator, v) && Step(s, a, s') && PendingStoreOnly(a, creator)
    ensures HarmlessStep(s, a) && SafePending(s', creator, v)
  {
    var c := a.c;
    assert s'.At(c) == s'.phase[c];
    forall d: Caller | d != c ensures s'.At(d) == s.At(d) {
    }
    if a.Resolve? {
      assert s.At(c).Resolving?;
    }
  }

  /** A pending harmless store stays harmless for as long as it is the only direct `create` and nobody starts
    * an initializer. */
  lemma {:induction false} StaysSafe(states: seq<State>, actions: seq<Action>, n: nat, i: nat, creator: Caller,
                                     v: Value)
    requires Run(states, actions) && n <= i < |states| && OnlyPendingStore(actions, n, creator)
    requires forall k :: 0 <= k < n ==> HarmlessStep(states[k], actions[k])
    requires SafePending(states[n], creator, v)
    ensures Invariant(states[i]) && SafePending(states[i], creator, v)
    ensures forall k :: 0 <= k < i ==> HarmlessStep(states[k], actions[k])
    decreases i
  {
    if i == n {
      HarmlessPrefix(states, actions, n);
    } else {
      StaysSafe(states, actions, n, i - 1, creator, v);
      SafeStep(states[i - 1], actions[i - 1], states[i], creator, v);
      StepKeepsInvariant(states[i - 1], actions[i - 1], states[i]);
    }
  }

  lemma {:induction false} HarmlessPrefix(states: seq<State>, actions: seq<Action>, i: nat)
    requires Run(states, actions) && i < |states|
    requires forall k :: 0 <= k < i ==> HarmlessStep(states[k], actions[k])
    ensures Invariant(states[i])
  {
    if i > 0 {
      HarmlessPrefix(states, actions, i - 1);
      StepKeepsInvariant(states[i - 1], actions[i - 1], states[i]);
    }
  }

  /** A direct `create` that is about to store harmlessly cannot, by itself, make anyone disagree. */
  lemma HarmlessStoreKeepsAgreement(states: seq<State>, actions: seq<Action>, creator: Caller, v: Value,
                                    states': seq<State>, actions': seq<Action>)
    requires Run(states, actions) && HarmlessStores(states, actions) && states != []
    requires Last(states).At(creator) == Created(v) && Harmless(Last(states), v)
    requires Run(states', actions') && Continues(states, actions, states', actions')
    requires OnlyPendingStore(actions', |actions|, creator)
    ensures HarmlessStores(states', actions')
    ensures forall c, d :: !Disagree(states', actions', c, d)
  {
    var n := |actions|;
    forall k | 0 <= k < n ensures HarmlessStep(states'[k], actions'[k]) {
      assert states'[k] == states[k] && actions'[k] == actions[k];
      assert HarmlessStep(states[k], actions[k]);
    }
    assert states'[n] == Last(states);
    StaysSafe(states', actions', n, |actions'|, creator, v);
    forall c, d ensures !Disagree(states', actions', c, d) {
      if Disagree(states', actions', c, d) {
        CallersAgree(states', actions', |actions'|, c, |actions'|, d);
      }
    }
  }

  /** A continuation in which the pending store is the only direct `create`, nobody starts an initializer,
    * and two callers of `get_or_create` end up with different values. */
  ghost predicate PendingStoreBreaks(states: seq<State>, actions: seq<Action>, creator: Caller,
                                     states': seq<State>, actions': seq<Action>, c: Caller, d: Caller)
  {
    && Run(states', actions') && Continues(states, actions, states', actions')
    && OnlyPendingStore(actions', |actions|, creator)
    && Disagree(states', actions', c, d)
  }

  /** The guard is exact: a pending store can break agreement if and only if it is not harmless. */
  lemma HarmlessIsExact(states: seq<State>, actions: seq<Action>, creator: Caller, v: Value)
    requires Run(states, actions) && HarmlessStores(states, actions) && states != []
    requires Last(states).At(creator) == Created(v)
    ensures (exists states', actions', c, d :: PendingStoreBreaks(states, actions, creator, states', actions', c, d))
            <==> !Harmless(Last(states), v)
  {
    if !Harmless(Last(states), v) {
      var states', actions', c, d := HarmfulStoreBreaksAgreement(states, actions, creator, v);
      assert PendingStoreBreaks(states, actions, creator, states', actions', c, d);
    } else if states', actions', c, d :| PendingStoreBreaks(states, actions, creator, states', actions', c, d) {
      HarmlessStoreKeepsAgreement(states, actions, creator, v, states', actions');
      assert false;
    }
  }

  /** Spelled out for a filled cache: a direct `create` of any other value makes two callers disagree. */
  lemma CreateBreaksAgreement(states: seq<State>, actions: seq<Action>, c: Caller, d: Caller, creator: Caller, v: Value)
    returns (states': seq<State>, actions': seq<Action>)
    requires Run(states, actions) && states != [] && Last(states).cache.Some? && Last(states).cache.value != v
    requires c != d && c != creator && d != creator
    requires Last(states).At(c) == Last(states).At(d) == Last(states).At(creator) == Outside
    ensures Run(states', actions') && states' != [] && Continues(states, actions, states', actions')
    ensures actions' == actions +
              [Call(c), CallCreate(creator), ResolveCreate(creator, Some(v)), StoreCreate(creator), Call(d)]
    ensures Last(states').At(c) == Returned(Last(states).cache.value)
    ensures Last(states').At(d) == Returned(v)
  {
    states', actions' := CallReads(states, actions, c);
    states', actions' := CreateReplaces(states', actions', creator, v);
    states', actions' := CallReads(states', actions', d);
  }

  /** And such a run exists. */
  lemma CallersCanDisagree() returns (states: seq<State>, actions: seq<Action>)
    ensures Run(states, actions) && states != []
    ensures Disagree(states, actions, 0, 1)
    ensures Last(states).At(0) == Returned(1) && Last(states).At(1) == Returned(2)
  {
    states, actions := CreateReplaces([FRESH], [], 2, 1);
    states, actions := CreateBreaksAgreement(states, actions, 0, 1, 3, 2);
  }
}

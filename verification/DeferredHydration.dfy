/** The hand-off of deferred handles between registration and scope attachment, as interleaved atomic
  * steps: one attaching thread and any number of registering ones.
  *
  * What happens under the slot's mutex is one step: attachment publishes the weak container reference
  * and takes the pending list; registration either obtains the container or joins the list. Hydration
  * runs outside the mutex, one handle at a time, and resolves its target to a value or to an error.
  * The container cannot die while the attaching thread or a hydrating registrant still holds it.
  */
module DeferredHydration {
  import opened Common

  type Handle = nat
  type Target = nat

  /** Who is responsible for a handle. */
  datatype Phase =
    | Unregistered
    | Pending                     // in the slot's list
    | ClaimedByAttach             // taken by attachment, not yet hydrated
    | ClaimedByRegistrant         // registered against a live container, not yet hydrated
    | Hydrated(target: Target)
    | Failed                      // its target could not be resolved
    | Dropped                     // abandoned by an attachment that failed on an earlier handle

  datatype Container = Unattached | Alive | Dead

  datatype Attacher = Before | Draining(queue: seq<Handle>) | Completed | Aborted

  datatype State = State(container: Container, attacher: Attacher, deferred: seq<Handle>, phase: map<Handle, Phase>) {
    function At(h: Handle): Phase {
      if h in phase then phase[h] else Unregistered
    }

    function Move(h: Handle, to: Phase): State {
      this.(phase := phase[h := to])
    }
  }

  datatype Action =
    | Register(h: Handle)
    | HydrateOwn(h: Handle, outcome: Option<Target>)
    | Attach
    | HydrateNext(outcome: Option<Target>)
    | FinishAttach
    | Die

  /** Every handle in `hs` moved to `to`. */
  function MoveAll(s: State, hs: seq<Handle>, to: Phase): State {
    s.(phase := map h | h in s.phase.Keys + (set x <- hs) :: if h in hs then to else s.phase[h])
  }

  ghost predicate Step(s: State, a: Action, s': State) {
    match a
    case Register(h) =>
      s.At(h) == Unregistered &&
      s' == if s.container == Alive then s.Move(h, ClaimedByRegistrant)
            else s.(deferred := s.deferred + [h]).Move(h, Pending)
    case HydrateOwn(h, outcome) =>
      s.At(h) == ClaimedByRegistrant &&
      s' == s.Move(h, if outcome.Some? then Hydrated(outcome.value) else Failed)
    case Attach =>
      s.attacher == Before &&
      s' == MoveAll(s, s.deferred, ClaimedByAttach)
            .(container := Alive, attacher := Draining(s.deferred), deferred := [])
    case HydrateNext(outcome) =>
      && s.attacher.Draining? && s.attacher.queue != []
      && var h, rest := s.attacher.queue[0], s.attacher.queue[1..];
         s' == if outcome.Some? then s.(attacher := Draining(rest)).Move(h, Hydrated(outcome.value))
               else MoveAll(s.(attacher := Aborted), rest, Dropped).Move(h, Failed)
    case FinishAttach =>
      s.attacher == Draining([]) && s' == s.(attacher := Completed)
    case Die =>
      && s.container == Alive && (s.attacher == Completed || s.attacher == Aborted)
      && (forall h <- s.phase :: s.phase[h] != ClaimedByRegistrant)
      && s' == s.(container := Dead)
  }

  const FRESH := State(Unattached, Before, [], map[])

  ghost predicate Run(states: seq<State>, actions: seq<Action>) {
    && |states| == |actions| + 1
    && states[0] == FRESH
    && forall i :: 0 <= i < |actions| ==> Step(states[i], actions[i], states[i + 1])
  }

  function Queue(s: State): seq<Handle> {
    if s.attacher.Draining? then s.attacher.queue else []
  }

  /** The two lists hold, once each, exactly the handles in the two waiting phases; nothing waits in the
    * slot of a live container; an attachment that completed dropped nothing. */
  ghost predicate Invariant(s: State) {
    && Distinct(s.deferred) && Distinct(Queue(s))
    && (forall h: Handle :: h in s.deferred <==> s.At(h) == Pending)
    && (forall h: Handle :: h in Queue(s) <==> s.At(h) == ClaimedByAttach)
    && (s.container == Alive ==> s.deferred == [])
    && (s.container == Unattached <==> s.attacher == Before)
    && (s.container != Alive ==> forall h: Handle :: s.At(h) != ClaimedByRegistrant)
    && (s.container == Dead ==> s.attacher == Completed || s.attacher == Aborted)
    && (forall h: Handle :: s.At(h) == Dropped ==> s.attacher == Aborted)
  }

  /** How far a handle has come; it never goes back. */
  function Progress(p: Phase): nat {
    match p
    case Unregistered => 0
    case Pending => 1
    case ClaimedByAttach => 2
    case ClaimedByRegistrant => 2
    case _ => 3
  }

  lemma MoveAllAt(s: State, hs: seq<Handle>, to: Phase)
    ensures forall h: Handle :: MoveAll(s, hs, to).At(h) == if h in hs then to else s.At(h)
  {
  }

  /** Nothing in `s'` is less far than in `s`. */
  ghost predicate Advances(s: State, s': State) {
    forall h: Handle :: s'.At(h) == s.At(h) || Progress(s.At(h)) < Progress(s'.At(h))
  }

  /** Only `h` moved. */
  ghost predicate Moved(s: State, h: Handle, to: Phase, s': State) {
    s'.At(h) == to && forall k: Handle :: k != h ==> s'.At(k) == s.At(k)
  }

  lemma RegisterKeeps(s: State, h: Handle, s': State)
    requires Invariant(s) && Step(s, Register(h), s')
    ensures Invariant(s') && Advances(s, s')
  {
    assert Moved(s, h, if s.container == Alive then ClaimedByRegistrant else Pending, s');
    assert Queue(s') == Queue(s);
  }

  lemma HydrateOwnKeeps(s: State, h: Handle, outcome: Option<Target>, s': State)
    requires Invariant(s) && Step(s, HydrateOwn(h, outcome), s')
    ensures Invariant(s') && Advances(s, s')
  {
    assert Moved(s, h, if outcome.Some? then Hydrated(outcome.value) else Failed, s');
    assert Queue(s') == Queue(s);
  }

  lemma AttachKeeps(s: State, s': State)
    requires Invariant(s) && Step(s, Attach, s')
    ensures Invariant(s') && Advances(s, s')
  {
    MoveAllAt(s, s.deferred, ClaimedByAttach);
    assert forall h: Handle :: s'.At(h) == if h in s.deferred then ClaimedByAttach else s.At(h);
    assert Queue(s') == s.deferred && Queue(s) == [];
  }

  lemma HydrateNextKeeps(s: State, outcome: Option<Target>, s': State)
    requires Invariant(s) && Step(s, HydrateNext(outcome), s')
    ensures Invariant(s') && Advances(s, s')
  {
    var h, rest := Queue(s)[0], Queue(s)[1..];
    assert Queue(s) == [h] + rest;
    assert h !in rest && Distinct(rest);
    if outcome.Some? {
      HydratedKeeps(s, h, rest, outcome.value, s');
    } else {
      AbortedKeeps(s, h, rest, s');
    }
  }

  lemma HydratedKeeps(s: State, h: Handle, rest: seq<Handle>, target: Target, s': State)
    requires Invariant(s) && Queue(s) == [h] + rest && h !in rest && Distinct(rest)
    requires s' == s.(attacher := Draining(rest)).Move(h, Hydrated(target))
    ensures Invariant(s') && Advances(s, s')
  {
    assert Moved(s, h, Hydrated(target), s');
    assert Queue(s') == rest;
  }

  lemma AbortedKeeps(s: State, h: Handle, rest: seq<Handle>, s': State)
    requires Invariant(s) && Queue(s) == [h] + rest && h !in rest
    requires s' == MoveAll(s.(attacher := Aborted), rest, Dropped).Move(h, Failed)
    ensures Invariant(s') && Advances(s, s')
  {
    MoveAllAt(s.(attacher := Aborted), rest, Dropped);
    assert forall k: Handle :: s'.At(k) == if k == h then Failed else if k in rest then Dropped else s.At(k);
    assert Queue(s') == [];
  }

  lemma StepKeepsInvariant(s: State, a: Action, s': State)
    requires Invariant(s) && Step(s, a, s')
    ensures Invariant(s') && Advances(s, s')
  {
    match a
    case Register(h) => RegisterKeeps(s, h, s');
    case HydrateOwn(h, outcome) => HydrateOwnKeeps(s, h, outcome, s');
    case Attach => AttachKeeps(s, s');
    case HydrateNext(outcome) => HydrateNextKeeps(s, outcome, s');
    case FinishAttach => assert forall k: Handle :: s'.At(k) == s.At(k);
    case Die =>
      assert forall k: Handle :: s'.At(k) == s.At(k);
      assert forall k: Handle :: s.At(k) != ClaimedByRegistrant;
  }

  lemma {:induction false} RunKeepsInvariant(states: seq<State>, actions: seq<Action>, i: nat)
    requires Run(states, actions) && i < |states|
    ensures Invariant(states[i])
  {
    if i > 0 {
      RunKeepsInvariant(states, actions, i - 1);
      StepKeepsInvariant(states[i - 1], actions[i - 1], states[i]);
    }
  }

  /** A handle that is settled stays as it is: hydration happens at most once and its target is kept. */
  lemma {:induction false} SettledForGood(states: seq<State>, actions: seq<Action>, h: Handle, i: nat, j: nat)
    requires Run(states, actions) && i <= j < |states|
    requires Progress(states[i].At(h)) == 3
    ensures states[j].At(h) == states[i].At(h)
    decreases j
  {
    if i < j {
      SettledForGood(states, actions, h, i, j - 1);
      RunKeepsInvariant(states, actions, j - 1);
      StepKeepsInvariant(states[j - 1], actions[j - 1], states[j]);
    }
  }

  /** The action hydrates, or fails to hydrate, `h`. */
  predicate Hydrates(s: State, a: Action, h: Handle) {
    (a.HydrateOwn? && a.h == h) || (a.HydrateNext? && Queue(s) != [] && Queue(s)[0] == h)
  }

  /** No handle is offered for hydration twice. */
  lemma HydratedAtMostOnce(states: seq<State>, actions: seq<Action>, h: Handle, i: nat, j: nat)
    requires Run(states, actions) && i < |actions| && j < |actions|
    requires Hydrates(states[i], actions[i], h) && Hydrates(states[j], actions[j], h)
    ensures i == j
  {
    if i < j {
      HydrationSettles(states, actions, h, i);
      HydrationSettles(states, actions, h, j);
      SettledForGood(states, actions, h, i + 1, j);
    } else if j < i {
      HydrationSettles(states, actions, h, i);
      HydrationSettles(states, actions, h, j);
      SettledForGood(states, actions, h, j + 1, i);
    }
  }

  lemma HydrationSettles(states: seq<State>, actions: seq<Action>, h: Handle, i: nat)
    requires Run(states, actions) && i < |actions| && Hydrates(states[i], actions[i], h)
    ensures Progress(states[i].At(h)) == 2 && Progress(states[i + 1].At(h)) == 3
  {
    RunKeepsInvariant(states, actions, i);
    assert Step(states[i], actions[i], states[i + 1]);
    if actions[i].HydrateNext? {
      assert h in Queue(states[i]);
    }
  }

  /** While the container lives, no registered handle waits in the slot: each is claimed by exactly one
    * thread, or settled. */
  lemma NothingLeftPending(states: seq<State>, actions: seq<Action>, i: nat, h: Handle)
    requires Run(states, actions) && i < |states| && states[i].container == Alive
    ensures states[i].At(h) != Pending && states[i].deferred == []
  {
    RunKeepsInvariant(states, actions, i);
  }

  /** Once attachment has completed and no registrant is mid-way, every handle registered while the
    * container is alive is hydrated or had no target: none is forgotten. */
  lemma EveryHandleIsServed(states: seq<State>, actions: seq<Action>, i: nat, h: Handle)
    requires Run(states, actions) && i < |states|
    requires states[i].container == Alive && states[i].attacher == Completed
    requires states[i].At(h) != Unregistered && states[i].At(h) != ClaimedByRegistrant
    ensures states[i].At(h).Hydrated? || states[i].At(h) == Failed
  {
    RunKeepsInvariant(states, actions, i);
  }

  /** A step away from a dead container can only register, and leaves it dead. */
  lemma DeadStep(s: State, a: Action, s': State)
    requires Invariant(s) && Step(s, a, s') && s.container == Dead
    ensures a.Register? && s'.container == Dead
  {
  }

  lemma {:induction false} DeadStaysDead(states: seq<State>, actions: seq<Action>, i: nat, j: nat)
    requires Run(states, actions) && i <= j < |states| && states[i].container == Dead
    ensures states[j].container == Dead
    decreases j
  {
    if i < j {
      DeadStaysDead(states, actions, i, j - 1);
      RunKeepsInvariant(states, actions, j - 1);
      DeadStep(states[j - 1], actions[j - 1], states[j]);
    }
  }

  /** The `k`th action registers `h` with a slot whose container is dead. */
  ghost predicate RegistersTooLate(states: seq<State>, actions: seq<Action>, k: nat, h: Handle)
    requires Run(states, actions) && k < |actions|
  {
    actions[k] == Register(h) && states[k].container == Dead
  }

  /** The `k`th action fails an attachment that still had `h` to hydrate. */
  ghost predicate AbortsBefore(states: seq<State>, actions: seq<Action>, k: nat, h: Handle)
    requires Run(states, actions) && k < |actions|
  {
    actions[k] == HydrateNext(None) && Queue(states[k]) != [] && h in Queue(states[k])[1..]
  }

  lemma {:induction false} WaitsForTheDead(states: seq<State>, actions: seq<Action>, i: nat, h: Handle)
    requires Run(states, actions) && i < |states| && states[i].container == Dead
    ensures states[i].At(h) == Pending <==> exists k: nat :: k < i && RegistersTooLate(states, actions, k, h)
  {
    RunKeepsInvariant(states, actions, i - 1);
    assert Step(states[i - 1], actions[i - 1], states[i]);
    if states[i - 1].container == Dead {
      WaitsForTheDead(states, actions, i - 1, h);
      DeadStep(states[i - 1], actions[i - 1], states[i]);
      assert actions[i - 1] == Register(h) ==> RegistersTooLate(states, actions, i - 1, h);
    } else {
      assert actions[i - 1] == Die && states[i - 1].At(h) != Pending;
      forall k: nat | k < i ensures !RegistersTooLate(states, actions, k, h) {
        if states[k].container == Dead {
          DeadStaysDead(states, actions, k, i - 1);
        }
      }
    }
  }

  lemma DropStep(s: State, a: Action, h: Handle, s': State)
    requires Invariant(s) && Step(s, a, s')
    ensures s'.At(h) == Dropped <==>
              s.At(h) == Dropped || (a == HydrateNext(None) && Queue(s) != [] && h in Queue(s)[1..])
  {
    if a == HydrateNext(None) {
      var first, rest := Queue(s)[0], Queue(s)[1..];
      assert Queue(s) == [first] + rest;
      MoveAllAt(s.(attacher := Aborted), rest, Dropped);
      assert s'.At(h) == if h == first then Failed else if h in rest then Dropped else s.At(h);
    } else if a == Attach {
      MoveAllAt(s, s.deferred, ClaimedByAttach);
    }
  }

  lemma {:induction false} DroppedByAbort(states: seq<State>, actions: seq<Action>, i: nat, h: Handle)
    requires Run(states, actions) && i < |states|
    ensures states[i].At(h) == Dropped <==> exists k: nat :: k < i && AbortsBefore(states, actions, k, h)
  {
    if i > 0 {
      DroppedByAbort(states, actions, i - 1, h);
      RunKeepsInvariant(states, actions, i - 1);
      DropStep(states[i - 1], actions[i - 1], h, states[i]);
      assert states[i].At(h) == Dropped <==>
               states[i - 1].At(h) == Dropped || AbortsBefore(states, actions, i - 1, h);
    }
  }

  /** A handle that no step can bring any further: it waits in the slot of a dead container, or a failed
    * attachment dropped it. */
  predicate Lost(s: State, h: Handle) {
    (s.container == Dead && s.At(h) == Pending) || s.At(h) == Dropped
  }

  ghost predicate Loses(states: seq<State>, actions: seq<Action>, k: nat, h: Handle)
    requires Run(states, actions) && k < |actions|
  {
    RegistersTooLate(states, actions, k, h) || AbortsBefore(states, actions, k, h)
  }

  /** A handle is left behind exactly when it was registered after the container died, or when an
    * attachment failed on an earlier handle; and it then stays behind. */
  lemma LeftBehind(states: seq<State>, actions: seq<Action>, i: nat, h: Handle)
    requires Run(states, actions) && i < |states|
    ensures Lost(states[i], h) <==> exists k: nat :: k < i && Loses(states, actions, k, h)
    ensures Lost(states[i], h) ==> forall j :: i <= j < |states| ==> Lost(states[j], h)
  {
    LostIff(states, actions, i, h);
    forall j | i <= j < |states| && Lost(states[i], h) ensures Lost(states[j], h) {
      LostIff(states, actions, j, h);
    }
  }

  lemma LostIff(states: seq<State>, actions: seq<Action>, i: nat, h: Handle)
    requires Run(states, actions) && i < |states|
    ensures Lost(states[i], h) <==> exists k: nat :: k < i && Loses(states, actions, k, h)
  {
    DroppedByAbort(states, actions, i, h);
    if Lost(states[i], h) {
      if states[i].At(h) == Dropped {
        var k: nat :| k < i && AbortsBefore(states, actions, k, h);
        assert Loses(states, actions, k, h);
      } else {
        WaitsForTheDead(states, actions, i, h);
        var k: nat :| k < i && RegistersTooLate(states, actions, k, h);
        assert Loses(states, actions, k, h);
      }
    }
    if k: nat :| k < i && Loses(states, actions, k, h) {
      if RegistersTooLate(states, actions, k, h) {
        DeadStaysDead(states, actions, k, i);
        WaitsForTheDead(states, actions, i, h);
      }
    }
  }

  // ---------------------------------------------------------------- the order of hydration

  /** The handles still to be hydrated by attachment, now or later, in turn. */
  function Waiting(s: State): seq<Handle> {
    Queue(s) + s.deferred
  }

  ghost predicate Precedes(hs: seq<Handle>, a: Handle, b: Handle) {
    exists i, j :: 0 <= i < j < |hs| && hs[i] == a && hs[j] == b
  }

  /** If `b` is still waiting, `a` is through or waits before it. */
  ghost predicate InTurn(s: State, a: Handle, b: Handle) {
    b in Waiting(s) ==> Progress(s.At(a)) == 3 || Precedes(Waiting(s), a, b)
  }

  lemma PrecedesTail(h: Handle, rest: seq<Handle>, a: Handle, b: Handle)
    requires Precedes([h] + rest, a, b) && a != h
    ensures Precedes(rest, a, b)
  {
    var i, j :| 0 <= i < j < |rest| + 1 && ([h] + rest)[i] == a && ([h] + rest)[j] == b;
    assert rest[i - 1] == a && rest[j - 1] == b;
  }

  lemma PrecedesLonger(hs: seq<Handle>, h: Handle, a: Handle, b: Handle)
    requires Precedes(hs, a, b)
    ensures Precedes(hs + [h], a, b)
  {
    var i, j :| 0 <= i < j < |hs| && hs[i] == a && hs[j] == b;
    assert (hs + [h])[i] == a && (hs + [h])[j] == b;
  }

  lemma InTurnStays(s: State, act: Action, s': State, a: Handle, b: Handle)
    requires Invariant(s) && Step(s, act, s') && InTurn(s, a, b) && a != b && s.At(b) != Unregistered
    ensures InTurn(s', a, b)
  {
    StepKeepsInvariant(s, act, s');
    match act
    case Register(h) => RegisterInTurn(s, h, s', a, b);
    case HydrateNext(Some(target)) => HydrateInTurn(s, target, s', a, b);
    case HydrateNext(None) => assert Waiting(s') == [];
    case _ => assert Waiting(s') == Waiting(s);
  }

  lemma RegisterInTurn(s: State, h: Handle, s': State, a: Handle, b: Handle)
    requires Invariant(s) && Step(s, Register(h), s') && InTurn(s, a, b) && s.At(b) != Unregistered
    ensures InTurn(s', a, b)
  {
    assert h != b && (a != h ==> s'.At(a) == s.At(a));
    if s.container == Alive {
      assert Waiting(s') == Waiting(s);
    } else {
      assert Waiting(s') == Waiting(s) + [h];
      if Precedes(Waiting(s), a, b) {
        PrecedesLonger(Waiting(s), h, a, b);
      }
    }
  }

  lemma HydrateInTurn(s: State, target: Target, s': State, a: Handle, b: Handle)
    requires Invariant(s) && Step(s, HydrateNext(Some(target)), s') && InTurn(s, a, b) && Advances(s, s')
    ensures InTurn(s', a, b)
  {
    var h, rest := Queue(s)[0], Queue(s)[1..];
    assert Waiting(s) == [h] + (rest + s.deferred) && Waiting(s') == rest + s.deferred;
    if Precedes(Waiting(s), a, b) && a != h {
      PrecedesTail(h, rest + s.deferred, a, b);
    }
  }

  /** If `b` is registered and in turn after `a`, it stays so. */
  lemma {:induction false} StaysInTurn(states: seq<State>, actions: seq<Action>, n: nat, i: nat, a: Handle, b: Handle)
    requires Run(states, actions) && n <= i < |states| && a != b
    requires InTurn(states[n], a, b) && states[n].At(b) != Unregistered
    ensures InTurn(states[i], a, b)
    decreases i
  {
    if i > n {
      StaysInTurn(states, actions, n, i - 1, a, b);
      StaysRegistered(states, actions, n, i - 1, b);
      RunKeepsInvariant(states, actions, i - 1);
      InTurnStays(states[i - 1], actions[i - 1], states[i], a, b);
    }
  }

  lemma {:induction false} StaysRegistered(states: seq<State>, actions: seq<Action>, n: nat, i: nat, h: Handle)
    requires Run(states, actions) && n <= i < |states| && states[n].At(h) != Unregistered
    ensures states[i].At(h) != Unregistered
    decreases i
  {
    if i > n {
      StaysRegistered(states, actions, n, i - 1, h);
      RunKeepsInvariant(states, actions, i - 1);
      StepKeepsInvariant(states[i - 1], actions[i - 1], states[i]);
    }
  }

  /** `a` waits in the slot when `b` joins it: attachment then comes to `a` first. */
  lemma HydratedInOrder(states: seq<State>, actions: seq<Action>, n: nat, a: Handle, b: Handle, j: nat, k: nat)
    requires Run(states, actions) && n < |actions| && a != b
    requires actions[n] == Register(b) && states[n].At(a) == Pending
    requires j < |actions| && k < |actions| && Hydrates(states[j], actions[j], a)
    requires n < k && actions[k].HydrateNext? && Hydrates(states[k], actions[k], b)
    ensures j < k
  {
    RunKeepsInvariant(states, actions, n);
    RunKeepsInvariant(states, actions, n + 1);
    RunKeepsInvariant(states, actions, k);
    JoinsBehind(states[n], states[n + 1], a, b);
    StaysInTurn(states, actions, n + 1, k, a, b);
    var s := states[k];
    assert Waiting(s)[0] == b && b in Waiting(s);
    HydrationSettles(states, actions, a, j);
    WaitingOnce(s);
    assert !Precedes(Waiting(s), a, b);
    if j >= k {
      SettledForGood(states, actions, a, k, j);
    }
  }

  lemma WaitingOnce(s: State)
    requires Invariant(s)
    ensures Distinct(Waiting(s))
  {
    forall i, j | 0 <= i < j < |Waiting(s)| ensures Waiting(s)[i] != Waiting(s)[j] {
      if i < |Queue(s)| <= j {
        assert Waiting(s)[i] in Queue(s) && Waiting(s)[j] in s.deferred;
      }
    }
  }

  lemma JoinsBehind(s: State, s': State, a: Handle, b: Handle)
    requires Invariant(s) && Step(s, Register(b), s') && s.At(a) == Pending && a != b
    ensures InTurn(s', a, b) && s'.At(b) != Unregistered
  {
    var i :| 0 <= i < |s.deferred| && s.deferred[i] == a;
    assert s.container != Alive;
    var hs := Waiting(s');
    assert hs == Waiting(s) + [b];
    assert hs[|Queue(s)| + i] == a && hs[|hs| - 1] == b;
  }

  // ---------------------------------------------------------------- what can still be done

  function Last(states: seq<State>): State
    requires states != []
  {
    states[|states| - 1]
  }

  lemma RunExtends(states: seq<State>, actions: seq<Action>, a: Action, next: State)
    requires Run(states, actions) && states != [] && Step(Last(states), a, next)
    ensures Run(states + [next], actions + [a])
  {
    var states', actions' := states + [next], actions + [a];
    forall i | 0 <= i < |actions'| ensures Step(states'[i], actions'[i], states'[i + 1]) {
      if i < |actions| {
        assert Step(states[i], actions[i], states[i + 1]);
      }
    }
  }

  /** The attaching thread can get to any handle in its queue. */
  lemma {:induction false} QueuedCanBeHydrated(states: seq<State>, actions: seq<Action>, h: Handle, target: Target)
    returns (states': seq<State>, actions': seq<Action>)
    requires Run(states, actions) && states != [] && h in Queue(Last(states))
    ensures Run(states', actions') && states <= states' && actions <= actions'
    ensures states' != [] && Last(states').At(h) == Hydrated(target)
    decreases |Queue(Last(states))|
  {
    var s := Last(states);
    var first, rest := s.attacher.queue[0], s.attacher.queue[1..];
    var next := s.(attacher := Draining(rest)).Move(first, Hydrated(target));
    RunExtends(states, actions, HydrateNext(Some(target)), next);
    states', actions' := states + [next], actions + [HydrateNext(Some(target))];
    if first != h {
      assert s.attacher.queue == [first] + rest;
      states', actions' := QueuedCanBeHydrated(states', actions', h, target);
    }
  }

  /** Whatever is registered, not settled and not lost can still be hydrated, with any target. */
  lemma NotLostCanBeHydrated(states: seq<State>, actions: seq<Action>, h: Handle, target: Target)
    returns (states': seq<State>, actions': seq<Action>)
    requires Run(states, actions) && states != []
    requires 0 < Progress(Last(states).At(h)) < 3 && !Lost(Last(states), h)
    ensures Run(states', actions') && states <= states' && actions <= actions'
    ensures states' != [] && Last(states').At(h) == Hydrated(target)
  {
    var s := Last(states);
    RunKeepsInvariant(states, actions, |states| - 1);
    if s.At(h) == ClaimedByRegistrant {
      var next := s.Move(h, Hydrated(target));
      RunExtends(states, actions, HydrateOwn(h, Some(target)), next);
      states', actions' := states + [next], actions + [HydrateOwn(h, Some(target))];
    } else if s.At(h) == ClaimedByAttach {
      states', actions' := QueuedCanBeHydrated(states, actions, h, target);
    } else {
      var next := MoveAll(s, s.deferred, ClaimedByAttach)
                  .(container := Alive, attacher := Draining(s.deferred), deferred := []);
      RunExtends(states, actions, Attach, next);
      states', actions' := QueuedCanBeHydrated(states + [next], actions + [Attach], h, target);
    }
  }

  /** Both ways of losing a handle happen: `Register` after `Die`, */
  lemma TooLateHappens() returns (states: seq<State>, actions: seq<Action>)
    ensures Run(states, actions) && states != [] && Last(states).container == Dead && Last(states).At(0) == Pending
  {
    var attached := State(Alive, Draining([]), [], map[]);
    var completed := State(Alive, Completed, [], map[]);
    var dead := State(Dead, Completed, [], map[]);
    states := [FRESH, attached, completed, dead, State(Dead, Completed, [0], map[0 := Pending])];
    actions := [Attach, FinishAttach, Die, Register(0)];
    assert MoveAll(FRESH, [], ClaimedByAttach).phase == map[];
  }

  lemma RegisterExtends(states: seq<State>, actions: seq<Action>, h: Handle)
    returns (states': seq<State>, actions': seq<Action>)
    requires Run(states, actions) && states != [] && Last(states).At(h) == Unregistered
    requires Last(states).attacher == Before && Last(states).container == Unattached
    ensures Run(states', actions') && states' != []
    ensures Last(states') == Last(states).(deferred := Last(states).deferred + [h]).Move(h, Pending)
  {
    var next := Last(states).(deferred := Last(states).deferred + [h]).Move(h, Pending);
    RunExtends(states, actions, Register(h), next);
    states', actions' := states + [next], actions + [Register(h)];
  }

  /** and an attachment that fails on an earlier handle. */
  lemma AbortHappens(first: Handle, second: Handle) returns (states: seq<State>, actions: seq<Action>)
    requires first != second
    ensures Run(states, actions) && states != []
    ensures Last(states).container == Alive && Last(states).At(second) == Dropped
  {
    states, actions := RegisterExtends([FRESH], [], first);
    states, actions := RegisterExtends(states, actions, second);
    var s := Last(states);
    assert s.deferred == [first, second];
    var next := MoveAll(s, s.deferred, ClaimedByAttach)
                .(container := Alive, attacher := Draining(s.deferred), deferred := []);
    RunExtends(states, actions, Attach, next);
    states, actions := states + [next], actions + [Attach];
    var aborted := MoveAll(next.(attacher := Aborted), next.attacher.queue[1..], Dropped).Move(first, Failed);
    RunExtends(states, actions, HydrateNext(None), aborted);
    assert second in next.attacher.queue[1..];
    states, actions := states + [aborted], actions + [HydrateNext(None)];
  }

  /** A live attachment can always make its next step, so draining ends. */
  lemma DrainingProgresses(states: seq<State>, actions: seq<Action>, i: nat)
    requires Run(states, actions) && i < |states| && states[i].attacher.Draining?
    ensures exists a: Action, s': State :: Step(states[i], a, s') &&
              (s'.attacher == Completed || (s'.attacher.Draining? && |Queue(s')| < |Queue(states[i])|))
  {
    var s := states[i];
    if s.attacher.queue == [] {
      assert Step(s, FinishAttach, s.(attacher := Completed));
    } else {
      var h, rest := s.attacher.queue[0], s.attacher.queue[1..];
      assert Step(s, HydrateNext(Some(0)), s.(attacher := Draining(rest)).Move(h, Hydrated(0)));
    }
  }
}

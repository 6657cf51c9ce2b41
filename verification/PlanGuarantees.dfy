/** What a plan keeps, what it builds in time, and where planning goes wrong. */
module PlanGuarantees {
  import opened Common
  import opened DependencyGraph
  import opened ExpansionGraph
  import opened TopologicalSort
  import opened ComponentRegistry
  import opened ScopePlan

  // ---------------------------------------------------------------- conservation

  ghost predicate Repeated(scopes: seq<Scope>, name: string) {
    exists i, j :: 0 <= i < j < |scopes| && scopes[i].name == name && scopes[j].name == name
  }

  lemma RepeatedBeforeLast(scopes: seq<Scope>, name: string, last: nat)
    requires last < |scopes| && scopes[last].name == name && NamedLast(scopes, last)
    ensures name in ScopeNames(scopes[..last]) <==> Repeated(scopes, name)
  {
    NamedBefore(scopes[..last], name);
    if i, j :| 0 <= i < j < |scopes| && scopes[i].name == name && scopes[j].name == name {
      assert scopes[..last][i].name == name;
    }
    if i :| 0 <= i < last && scopes[..last][i].name == name {
      assert scopes[i].name == name && scopes[last].name == name;
    }
  }

  /** A declared scope keeps its components exactly when its name is not declared twice, or there is
    * nothing to lose: a repeated name overwrites the order of the first occurrence with an empty one. */
  lemma ScopeKeepsComponents(resolved: seq<Component>, providers: seq<Provider>, transient: map<TypeId, Component>,
                             scopes: seq<Scope>, stages: seq<seq<Component>>, orders: map<string, seq<Component>>,
                             name: string)
    requires |stages| == |scopes| && OrdersFrom(scopes, stages, orders)
    requires AllStagesOrdered(resolved, providers, transient, scopes, stages)
    requires name in ScopeNames(scopes)
    ensures multiset(orders[name]) == multiset(Placed(resolved, InScope(name))) <==>
              !Repeated(scopes, name) || Placed(resolved, InScope(name)) == []
  {
    var last := LastNamed(scopes, name);
    RepeatedBeforeLast(scopes, name, last);
    StageAt(resolved, providers, transient, scopes, stages, last);
    var group := Placed(resolved, InScope(name));
    assert multiset(orders[name]) == multiset(if Repeated(scopes, name) then [] else group);
    assert group != [] ==> group[0] in multiset(group);
  }

  /** A component that waits for nothing orders any stage it is alone in. */
  lemma AloneIsDeclared(g: Graph, c: Component, order: seq<Component>, prebuilt: set<TypeId>)
    requires c.GatingDependencies() == {} && forall d <- order :: d == c
    ensures DeclaredOrder(g, order, prebuilt)
  {
    forall i | 0 <= i < |order| ensures order[i].GatingDependencies() == {} {
      assert order[i] in order;
    }
  }

  lemma RepeatedStage(c: Component, s: Scope, i: nat)
    requires i < 2 && Place(c) == InScope(s.name)
    ensures ScopeNames([s, s]) == {s.name}
    ensures StageGroup([c], [s, s], i) == if i == 0 then [c] else []
  {
    assert [s, s][..1] == [s] && [s, s][..0] == [] && [s][..0] == [];
    assert ScopeNames([s]) == {s.name};
    assert [c][..0] == [] && Placed([], InScope(s.name)) == [];
  }

  lemma NothingFails(c: Component, s: Scope, stages: seq<seq<Component>>, error: DiError)
    requires Place(c) == InScope(s.name) && c.GatingDependencies() == {}
    ensures !Justified([c], [], [s, s], stages, error)
  {
    RepeatedStage(c, s, 0);
    RepeatedStage(c, s, 1);
    if |stages| < 2 {
      var order := StageGroup([c], [s, s], |stages|);
      forall transient: map<TypeId, Component> ensures !CannotGoOn([c], [], transient, [s, s], stages) {
        AloneIsDeclared(StageGraph([c], [], transient, [s, s], |stages|), c, order, Base(Start([c]), stages));
      }
    }
  }

  /** The outcome of a chain that names a scope twice: a plan that holds the scope's one component nowhere. */
  lemma RepeatedScopeLoses(c: Component, s: Scope, stages: seq<seq<Component>>, waits: seq<WaitTables>,
                           r: Result<Plan, DiError>)
    requires Place(c) == InScope(s.name) && c.GatingDependencies() == {}
    requires Outcome([c], [], [s, s], stages, waits, r)
    ensures r.Ok? && s.name in r.value.orders && r.value.orders[s.name] == []
    ensures r.value.singletons == [] && r.value.transient == map[]
  {
    if r.Err? {
      NothingFails(c, s, stages, r.error);
      assert false;
    }
    RepeatedStage(c, s, 1);
    StageAt([c], [], r.value.transient, [s, s], stages, 1);
    assert |multiset(stages[1])| == |stages[1]|;
    assert NamedLast([s, s], 1) && [s, s][1].name == s.name && r.value.orders[s.name] == stages[1];
    assert [c][..0] == [] && Placed([c], AsSingleton) == Placed([], AsSingleton) + [];
  }

  /** And for every intermediate scope there is such a component. */
  lemma SomeComponentIsLost(s: Scope) returns (c: Component)
    requires !s.isTransient && s.rank != SINGLETON_RANK
    ensures Place(c) == InScope(s.name)
    ensures forall stages, waits, r | Outcome([c], [], [s, s], stages, waits, r) ::
              r.Ok? && s.name in r.value.orders && r.value.orders[s.name] == []
  {
    c := Component("peer", "Peer", 0, s, [Factory([], true)]);
    assert c.GatingDependencies() == {};
    forall stages, waits, r | Outcome([c], [], [s, s], stages, waits, r)
      ensures r.Ok? && s.name in r.value.orders && r.value.orders[s.name] == []
    {
      RepeatedScopeLoses(c, s, stages, waits, r);
    }
  }

  lemma {:induction false} NamedBefore(scopes: seq<Scope>, name: string)
    ensures name in ScopeNames(scopes) <==> exists i :: 0 <= i < |scopes| && scopes[i].name == name
  {
    if scopes != [] {
      NamedBefore(scopes[..|scopes| - 1], name);
    }
  }

  lemma {:induction false} LastNamed(scopes: seq<Scope>, name: string) returns (last: nat)
    requires name in ScopeNames(scopes)
    ensures last < |scopes| && scopes[last].name == name && NamedLast(scopes, last)
  {
    var end := |scopes| - 1;
    if scopes[end].name == name {
      last := end;
    } else {
      last := LastNamed(scopes[..end], name);
      assert forall j :: last < j < end ==> scopes[..end][j] == scopes[j];
    }
  }

  /** Conservation: with distinct scope names, every component is in exactly one part of the plan, as
    * often as it was registered. */
  lemma PlanConserves(resolved: seq<Component>, providers: seq<Provider>, plan: Plan, scopes: seq<Scope>,
                      stages: seq<seq<Component>>, c: Component)
    requires forall n :: !Repeated(scopes, n)
    requires plan.singletons == Placed(resolved, AsSingleton) && Filed(resolved, plan.transient)
    requires forall d <- resolved :: Place(d) != Broken && (Place(d).InScope? ==> Place(d).name in ScopeNames(scopes))
    requires |stages| == |scopes| && OrdersFrom(scopes, stages, plan.orders)
    requires AllStagesOrdered(resolved, providers, plan.transient, scopes, stages)
    ensures multiset(plan.singletons)[c] == if IsSingleton(c) then multiset(resolved)[c] else 0
    ensures forall n <- plan.orders ::
              multiset(plan.orders[n])[c] == if IsScoped(c, n) then multiset(resolved)[c] else 0
    ensures c in plan.transient.Values ==> c in resolved && c.scope.isTransient
    ensures c in resolved && (forall d <- resolved :: d.ty == c.ty ==> d == c) && c.scope.isTransient ==>
              c in plan.transient.Values
    ensures forall n :: c in resolved && IsScoped(c, n) ==> n in plan.orders && c in plan.orders[n]
    ensures c in resolved && IsSeeded(c) ==> c.ty in Start(resolved)
  {
    PlaceMeaning(c);
    PlacedMeaning(resolved, AsSingleton);
    PlacedMeaning(resolved, Seeded);
    forall n <- plan.orders
      ensures multiset(plan.orders[n])[c] == if Place(c) == InScope(n) then multiset(resolved)[c] else 0
    {
      PlacedMeaning(resolved, InScope(n));
      ScopeKeepsComponents(resolved, providers, plan.transient, scopes, stages, plan.orders, n);
    }
    if c in resolved && Place(c).InScope? {
      assert c in multiset(resolved);
      assert c in multiset(plan.orders[Place(c).name]);
    }
  }

  /** In exactly one part of the plan, and once: the singletons, the transients, the order of its scope, or
    * what is there before the first scope. */
  ghost predicate PlannedOnce(resolved: seq<Component>, plan: Plan, c: Component) {
    && multiset(plan.singletons)[c] == (if IsSingleton(c) then 1 else 0)
    && (forall n <- plan.orders :: multiset(plan.orders[n])[c] == if IsScoped(c, n) then 1 else 0)
    && (forall n :: IsScoped(c, n) ==> n in plan.orders)
    && (c in plan.transient.Values <==> c.scope.isTransient)
    && (IsSeeded(c) ==> c.ty in Start(resolved))
    && (c.scope.isTransient || IsSingleton(c) || IsSeeded(c) || IsScoped(c, c.scope.name))
  }

  lemma {:induction false} OncePerType(components: seq<Component>, c: Component)
    requires forall i, j :: 0 <= i < j < |components| ==> components[i].ty != components[j].ty
    requires c in components
    ensures multiset(components)[c] == 1
    ensures forall d <- components :: d.ty == c.ty ==> d == c
  {
    var k :| 0 <= k < |components| && components[k] == c;
    var before, after := components[..k], components[k + 1..];
    assert components == before + [c] + after;
    assert c !in before && c !in after;
    assert multiset(components) == multiset(before) + multiset{c} + multiset(after);
  }

  // ---------------------------------------------------------------- soundness

  /** Soundness across scopes: a gating edge of an ordered component to a concrete type is met by a
    * seed, a singleton, an earlier scope, or an earlier component of its own scope; one to a trait
    * finds every provider it selects from its own scope already built. */
  lemma PlanIsSound(resolved: seq<Component>, providers: seq<Provider>, transient: map<TypeId, Component>,
                    scopes: seq<Scope>, stages: seq<seq<Component>>, i: nat, k: nat, dep: Dependency)
    requires |stages| == |scopes| && AllStagesOrdered(resolved, providers, transient, scopes, stages)
    requires i < |stages| && k < |stages[i]| && dep in stages[i][k].GatingDependencies()
    ensures EdgeSatisfied(StageGraph(resolved, providers, transient, scopes, i), dep,
                          Base(Start(resolved), stages[..i]) + Ids(stages[i][..k]))
    ensures dep.cardinality.One? && (forall p <- providers :: p.traitTy != dep.ty) ==>
              || dep.ty in Ids(Placed(resolved, Seeded))
              || dep.ty in Ids(Placed(resolved, AsSingleton))
              || (exists j: nat :: j < i && dep.ty in Ids(stages[j]))
              || dep.ty in Ids(stages[i][..k])
  {
    var g := StageGraph(resolved, providers, transient, scopes, i);
    StageAt(resolved, providers, transient, scopes, stages, i);
    var pw, tw :| Tables(g, pw, tw) && BuildOrder(g, stages[i], pw, tw, Base(Start(resolved), stages[..i]));
    OrderSatisfiesEdges(g, stages[i], pw, tw, Base(Start(resolved), stages[..i]), k, dep);
    if dep.ty in Base(Start(resolved), stages[..i]) {
      BaseMeaning(Start(resolved), stages[..i], dep.ty);
    }
  }

  function OrderOf(plan: Plan, name: string): seq<Component> {
    if name in plan.orders then plan.orders[name] else []
  }

  /** What the plan has built before it opens the `i`th scope. */
  ghost function BuiltBefore(resolved: seq<Component>, plan: Plan, scopes: seq<Scope>, i: nat): set<TypeId>
    requires i <= |scopes|
  {
    if i == 0 then Start(resolved)
    else BuiltBefore(resolved, plan, scopes, i - 1) + Ids(OrderOf(plan, scopes[i - 1].name))
  }

  /** Every gating edge of the plan's order for the `i`th scope is satisfied in time. */
  ghost predicate InTime(resolved: seq<Component>, providers: seq<Provider>, plan: Plan, scopes: seq<Scope>, i: nat)
    requires i < |scopes|
  {
    var order := OrderOf(plan, scopes[i].name);
    forall k, dep | 0 <= k < |order| && dep in order[k].GatingDependencies() ::
      EdgeSatisfied(StageGraph(resolved, providers, plan.transient, scopes, i), dep,
                    BuiltBefore(resolved, plan, scopes, i) + Ids(order[..k]))
  }

  /** With distinct names, the stages are the plan's orders. */
  lemma StageIsOrder(scopes: seq<Scope>, stages: seq<seq<Component>>, plan: Plan, i: nat)
    requires i < |scopes| == |stages| && OrdersFrom(scopes, stages, plan.orders) && !Repeated(scopes, scopes[i].name)
    ensures stages[i] == OrderOf(plan, scopes[i].name)
  {
    assert NamedLast(scopes, i);
  }

  ghost predicate StagesAreOrders(scopes: seq<Scope>, stages: seq<seq<Component>>, plan: Plan) {
    |scopes| == |stages| && forall i :: 0 <= i < |stages| ==> stages[i] == OrderOf(plan, scopes[i].name)
  }

  lemma {:induction false} BaseIsBuiltBefore(resolved: seq<Component>, scopes: seq<Scope>,
                                             stages: seq<seq<Component>>, plan: Plan, i: nat)
    requires i <= |scopes| && StagesAreOrders(scopes, stages, plan)
    ensures Base(Start(resolved), stages[..i]) == BuiltBefore(resolved, plan, scopes, i)
  {
    if i > 0 {
      var before, order := stages[..i - 1], stages[i - 1];
      BaseIsBuiltBefore(resolved, scopes, stages, plan, i - 1);
      BaseStep(Start(resolved), before, order);
      assert stages[..i] == before + [order];
    }
  }

  /** Soundness of the plan itself, by scope name. */
  lemma PlanIsInTime(resolved: seq<Component>, providers: seq<Provider>, plan: Plan, scopes: seq<Scope>,
                     stages: seq<seq<Component>>, i: nat)
    requires i < |scopes| == |stages| && OrdersFrom(scopes, stages, plan.orders)
    requires AllStagesOrdered(resolved, providers, plan.transient, scopes, stages)
    requires forall n :: !Repeated(scopes, n)
    ensures InTime(resolved, providers, plan, scopes, i)
  {
    forall j | 0 <= j < |stages| ensures stages[j] == OrderOf(plan, scopes[j].name) {
      StageIsOrder(scopes, stages, plan, j);
    }
    BaseIsBuiltBefore(resolved, scopes, stages, plan, i);
    forall k, dep | 0 <= k < |stages[i]| && dep in stages[i][k].GatingDependencies()
      ensures EdgeSatisfied(StageGraph(resolved, providers, plan.transient, scopes, i), dep,
                            Base(Start(resolved), stages[..i]) + Ids(stages[i][..k]))
    {
      PlanIsSound(resolved, providers, plan.transient, scopes, stages, i, k, dep);
    }
  }

  lemma {:induction false} BaseMeaning(start: set<TypeId>, stages: seq<seq<Component>>, t: TypeId)
    ensures t in Base(start, stages) <==> t in start || exists j: nat :: j < |stages| && t in Ids(stages[j])
  {
    if stages != [] {
      var last := |stages| - 1;
      BaseMeaning(start, stages[..last], t);
      assert forall j: nat :: j < last ==> stages[..last][j] == stages[j];
    }
  }

  /** From the registry on: whatever was registered, the one descriptor per type that survives is in
    * exactly one part of the plan, and once; and the plan builds everything in time. */
  method PlanRegistered(registered: seq<Component>, providers: seq<Provider>, scopes: seq<Scope>)
    returns (r: Result<Plan, DiError>, resolved: seq<Component>)
    ensures r.Ok? ==> Chosen(registered, resolved)
    ensures r.Ok? && (forall n :: !Repeated(scopes, n)) ==> forall c <- resolved :: PlannedOnce(resolved, r.value, c)
    ensures r.Ok? && (forall n :: !Repeated(scopes, n)) ==>
              forall i :: 0 <= i < |scopes| ==> InTime(resolved, providers, r.value, scopes, i)
    ensures r.Err? ==>
              || (exists i :: 0 <= i < |registered| && FirstFault(registered, i, r.error))
              || (Chosen(registered, resolved) &&
                  exists stages: seq<seq<Component>> :: Justified(resolved, providers, scopes, stages, r.error))
  {
    var chosen := ResolvedComponents(registered);
    if chosen.Err? {
      return Err(chosen.error), [];
    }
    resolved := chosen.value;
    ghost var stages, waits;
    r, stages, waits := Partition(resolved, providers, scopes);
    if r.Ok? && forall n :: !Repeated(scopes, n) {
      forall c <- resolved ensures PlannedOnce(resolved, r.value, c) {
        OncePerType(resolved, c);
        PlanConserves(resolved, providers, r.value, scopes, stages, c);
        PlaceMeaning(c);
      }
      forall i | 0 <= i < |scopes| ensures InTime(resolved, providers, r.value, scopes, i) {
        PlanIsInTime(resolved, providers, r.value, scopes, stages, i);
      }
    }
  }

  // ---------------------------------------------------------------- transients by their own type

  /** A scoped component with one gating edge, to the concrete type of a transient: the rule of lifetimes
    * allows the edge, but nothing ever builds its target, so planning ends in a cycle error. */
  lemma TransientTargetFails(consumer: Component, recipe: Component, s: Scope, dep: Dependency,
                             stages: seq<seq<Component>>, waits: seq<WaitTables>, r: Result<Plan, DiError>)
    requires Place(consumer) == InScope(s.name) && Place(recipe) == AsTransient && consumer.ty != recipe.ty
    requires consumer.Dependencies() == [dep] && recipe.Dependencies() == []
    requires dep.Gating() && dep.cardinality.One? && dep.ty == recipe.ty
    requires Outcome([consumer, recipe], [], [s], stages, waits, r)
    ensures AllAllowed([consumer, recipe], [])
    ensures r.Err? && r.error.DependencyCycle?
  {
    TransientTargetIsAllowed(consumer, recipe, dep);
    LoneStage(consumer, recipe, s);
    TransientTargetBlocks(consumer, recipe, s, dep, waits);
  }

  lemma TransientTargetIsAllowed(consumer: Component, recipe: Component, dep: Dependency)
    requires recipe.scope.isTransient && consumer.ty != recipe.ty
    requires consumer.Dependencies() == [dep] && recipe.Dependencies() == [] && dep.ty == recipe.ty
    ensures AllAllowed([consumer, recipe], [])
  {
    var scopeOf := ScopeOf([consumer, recipe]);
    ScopeOfMeaning([consumer, recipe]);
    assert recipe in [consumer, recipe];
    assert scopeOf[recipe.ty] == recipe.scope;
    assert Targets(scopeOf, [], dep) == {recipe.ty};
  }

  lemma TransientTargetBlocks(consumer: Component, recipe: Component, s: Scope, dep: Dependency, waits: seq<WaitTables>)
    requires Place(consumer) == InScope(s.name) && Place(recipe) == AsTransient && consumer.ty != recipe.ty
    requires consumer.Dependencies() == [dep]
    requires dep.Gating() && dep.cardinality.One? && dep.ty == recipe.ty && |waits| == 1
    ensures !AllFeasible([consumer, recipe], [], [s], waits)
  {
    var resolved := [consumer, recipe];
    var g := StageGraph(resolved, [], Recipes(resolved), [s], 0);
    LoneStage(consumer, recipe, s);
    assert dep in consumer.GatingDependencies();
    MissingTargetBlocks(g, [consumer], {}, waits[0].byProvider, waits[0].byTrait, consumer, dep);
    if AllFeasible(resolved, [], [s], waits) {
      FeasibleAt(resolved, [], [s], waits, 0);
    }
  }

  /** The consumer is all there is to sort, over nothing. */
  lemma LoneStage(consumer: Component, recipe: Component, s: Scope)
    requires Place(consumer) == InScope(s.name) && Place(recipe) == AsTransient
    ensures StageGroup([consumer, recipe], [s], 0) == [consumer] && GroupBase([consumer, recipe], [s], 0) == {}
    ensures WellPlaced([consumer, recipe], [s])
  {
    PlacedPair(consumer, recipe, InScope(s.name));
    PlacedPair(consumer, recipe, Seeded);
    PlacedPair(consumer, recipe, AsSingleton);
    assert [s][..0] == [] && ScopeNames([s]) == ScopeNames([]) + {s.name};
  }

  lemma PlacedPair(a: Component, b: Component, p: Placement)
    ensures Placed([a, b], p) == (if Place(a) == p then [a] else []) + (if Place(b) == p then [b] else [])
  {
    PlacedStep([], a, p);
    PlacedStep([a], b, p);
    assert [] + [a] == [a] && [a] + [b] == [a, b];
  }

  /** Such components exist for every intermediate scope. */
  lemma SomeTransientTargetFails(s: Scope) returns (consumer: Component, recipe: Component)
    requires !s.isTransient && s.rank != SINGLETON_RANK
    ensures Place(consumer) == InScope(s.name) && Place(recipe) == AsTransient && AllAllowed([consumer, recipe], [])
    ensures forall stages, waits, r | Outcome([consumer, recipe], [], [s], stages, waits, r) ::
              r.Err? && r.error.DependencyCycle?
  {
    var dep := Dependency(1, One, false, false, None, false, Eager);
    consumer := Component("consumer", "Consumer", 0, s, [Factory([dep], true)]);
    recipe := Component("recipe", "Recipe", 1, Scope(0, "transient", true), [Factory([], true)]);
    assert consumer.EffectiveFactory() == Ok(Some(Factory([dep], true)));
    assert recipe.EffectiveFactory() == Ok(Some(Factory([], true)));
    TransientTargetIsAllowed(consumer, recipe, dep);
    forall stages, waits, r | Outcome([consumer, recipe], [], [s], stages, waits, r)
      ensures r.Err? && r.error.DependencyCycle?
    {
      TransientTargetFails(consumer, recipe, s, dep, stages, waits, r);
    }
  }
}

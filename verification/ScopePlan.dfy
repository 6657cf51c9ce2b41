/** Splitting the resolved components by scope and ordering each scope over everything built before. */
module ScopePlan {
  import opened Common
  import opened DependencyGraph
  import opened ExpansionGraph
  import opened TopologicalSort

  /** Where a component belongs. */
  datatype Placement = AsTransient | AsSingleton | InScope(name: string) | Seeded | Broken

  function Place(c: Component): Placement {
    if c.scope.isTransient then AsTransient
    else if c.scope.rank == SINGLETON_RANK then AsSingleton
    else match c.EffectiveFactory()
      case Err(_) => Broken
      case Ok(Some(_)) => InScope(c.scope.name)
      case Ok(None) => Seeded
  }

  /** Where a descriptor puts a component, said of the descriptor. A singleton outlives every scope. */
  predicate IsSingleton(c: Component) { !c.scope.isTransient && c.scope.rank == 255 }

  /** Constructed when its scope is opened. */
  predicate IsScoped(c: Component, name: string) {
    && !c.scope.isTransient && c.scope.rank != 255 && c.scope.name == name
    && c.EffectiveFactory().Ok? && c.EffectiveFactory().value.Some?
  }

  /** Handed in when its scope is opened. */
  predicate IsSeeded(c: Component) {
    !c.scope.isTransient && c.scope.rank != 255 && c.EffectiveFactory() == Ok(None)
  }

  lemma PlaceMeaning(c: Component)
    ensures Place(c) == AsTransient <==> c.scope.isTransient
    ensures Place(c) == AsSingleton <==> IsSingleton(c)
    ensures forall name :: Place(c) == InScope(name) <==> IsScoped(c, name)
    ensures Place(c) == Seeded <==> IsSeeded(c)
    ensures Place(c) == Broken <==> !c.scope.isTransient && !IsSingleton(c) && c.EffectiveFactory().Err?
  {
  }

  /** The components that belong at `p`, in registration order. */
  function Placed(components: seq<Component>, p: Placement): seq<Component> {
    if components == [] then []
    else
      var last := |components| - 1;
      Placed(components[..last], p) + if Place(components[last]) == p then [components[last]] else []
  }

  lemma PlacedStep(a: seq<Component>, c: Component, p: Placement)
    ensures Placed(a + [c], p) == Placed(a, p) + if Place(c) == p then [c] else []
  {
    assert (a + [c])[..|a|] == a;
  }

  lemma {:induction false} PlacedMeaning(components: seq<Component>, p: Placement)
    ensures forall c :: c in Placed(components, p) <==> c in components && Place(c) == p
    ensures forall c :: multiset(Placed(components, p))[c] == if Place(c) == p then multiset(components)[c] else 0
  {
    if components != [] {
      var last := |components| - 1;
      PlacedMeaning(components[..last], p);
      assert components == components[..last] + [components[last]];
    }
  }

  datatype Plan = Plan(
    singletons: seq<Component>,
    transient: map<TypeId, Component>,
    orders: map<string, seq<Component>>
  )

  function ScopeNames(scopes: seq<Scope>): set<string> {
    if scopes == [] then {} else ScopeNames(scopes[..|scopes| - 1]) + {scopes[|scopes| - 1].name}
  }

  /** The transient recipes under their own types; a later one replaces an earlier one. */
  function Recipes(components: seq<Component>): map<TypeId, Component> {
    if components == [] then map[]
    else
      var last := |components| - 1;
      var before := Recipes(components[..last]);
      if Place(components[last]) == AsTransient then before[components[last].ty := components[last]] else before
  }

  lemma RecipesStep(a: seq<Component>, c: Component)
    ensures Recipes(a + [c]) == if Place(c) == AsTransient then Recipes(a)[c.ty := c] else Recipes(a)
  {
    assert (a + [c])[..|a|] == a;
  }

  /** The transient recipes, filed under their own types. */
  ghost predicate Filed(components: seq<Component>, transient: map<TypeId, Component>) {
    && (forall t <- transient ::
          transient[t] in components && Place(transient[t]) == AsTransient && transient[t].ty == t)
    && (forall c <- components :: Place(c) == AsTransient ==> c.ty in transient)
  }

  /** The constructable components of every intermediate scope that has any. */
  ghost predicate Grouped(components: seq<Component>, byScope: map<string, seq<Component>>) {
    && (forall n :: n in byScope <==> Placed(components, InScope(n)) != [])
    && (forall n <- byScope :: byScope[n] == Placed(components, InScope(n)))
  }

  /** The result of the first loop, over `components`. */
  ghost predicate Split(components: seq<Component>, singletons: seq<Component>, transient: map<TypeId, Component>,
                        byScope: map<string, seq<Component>>, seeds: set<TypeId>) {
    && singletons == Placed(components, AsSingleton)
    && Filed(components, transient) && transient == Recipes(components)
    && Grouped(components, byScope)
    && seeds == Ids(Placed(components, Seeded))
  }

  lemma FiledStep(a: seq<Component>, c: Component, transient: map<TypeId, Component>)
    requires Filed(a, transient)
    ensures Filed(a + [c], if Place(c) == AsTransient then transient[c.ty := c] else transient)
  {
  }

  lemma GroupedStep(a: seq<Component>, c: Component, byScope: map<string, seq<Component>>)
    requires Grouped(a, byScope)
    ensures !Place(c).InScope? ==> Grouped(a + [c], byScope)
    ensures Place(c).InScope? ==>
              var n := Place(c).name;
              Grouped(a + [c], byScope[n := (if n in byScope then byScope[n] else []) + [c]])
  {
    forall n { PlacedStep(a, c, InScope(n)); }
  }

  lemma SeedsStep(a: seq<Component>, c: Component)
    ensures Ids(Placed(a + [c], Seeded)) == Ids(Placed(a, Seeded)) + if Place(c) == Seeded then {c.ty} else {}
  {
    PlacedStep(a, c, Seeded);
    assert forall d :: d in Placed(a + [c], Seeded) <==> d in Placed(a, Seeded) || (d == c && Place(c) == Seeded);
  }

  /** One iteration of the first loop. */
  method PlaceOne(ghost done: seq<Component>, c: Component, singletons: seq<Component>,
                  transient: map<TypeId, Component>,
                  byScope: map<string, seq<Component>>, seeds: set<TypeId>)
    returns (error: Option<DiError>, singletons': seq<Component>, transient': map<TypeId, Component>,
             byScope': map<string, seq<Component>>, seeds': set<TypeId>)
    requires Split(done, singletons, transient, byScope, seeds)
    ensures error.None? <==> Place(c) != Broken
    ensures error.Some? ==> c.EffectiveFactory() == Err(error.value)
    ensures error.None? ==> Split(done + [c], singletons', transient', byScope', seeds')
  {
    error, singletons', transient', byScope', seeds' := None, singletons, transient, byScope, seeds;
    PlacedStep(done, c, AsSingleton);
    FiledStep(done, c, transient);
    RecipesStep(done, c);
    GroupedStep(done, c, byScope);
    SeedsStep(done, c);
    if c.scope.isTransient {
      transient' := transient[c.ty := c];
    } else if c.scope.rank == SINGLETON_RANK {
      singletons' := singletons + [c];
    } else {
      var factory := c.EffectiveFactory();
      if factory.Err? {
        error := Some(factory.error);
      } else if factory.value.Some? {
        var before := if c.scope.name in byScope then byScope[c.scope.name] else [];
        byScope' := byScope[c.scope.name := before + [c]];
      } else {
        seeds' := seeds + {c.ty};
      }
    }
  }

  method SplitByScope(resolved: seq<Component>)
    returns (error: Option<DiError>, singletons: seq<Component>, transient: map<TypeId, Component>,
             byScope: map<string, seq<Component>>, seeds: set<TypeId>)
    ensures error.None? <==> forall c <- resolved :: Place(c) != Broken
    ensures error.Some? ==> exists c <- resolved :: Place(c) == Broken && c.EffectiveFactory() == Err(error.value)
    ensures error.None? ==> Split(resolved, singletons, transient, byScope, seeds)
  {
    singletons, transient, byScope, seeds := [], map[], map[], {};
    error := None;
    for i := 0 to |resolved|
      invariant error.None? && Split(resolved[..i], singletons, transient, byScope, seeds)
      invariant forall c <- resolved[..i] :: Place(c) != Broken
    {
      assert resolved[..i + 1] == resolved[..i] + [resolved[i]];
      error, singletons, transient, byScope, seeds :=
        PlaceOne(resolved[..i], resolved[i], singletons, transient, byScope, seeds);
      if error.Some? {
        assert resolved[i] in resolved;
        return;
      }
    }
    assert resolved[..|resolved|] == resolved;
  }

  // ---------------------------------------------------------------- the plan

  /** What scope `s` gets to order: its group, unless an earlier scope of the same name already took it. */
  ghost function NextGroup(resolved: seq<Component>, seen: seq<Scope>, s: Scope): seq<Component> {
    if s.name in ScopeNames(seen) then [] else Placed(resolved, InScope(s.name))
  }

  ghost function StageGroup(resolved: seq<Component>, scopes: seq<Scope>, i: nat): seq<Component>
    requires i < |scopes|
  {
    NextGroup(resolved, scopes[..i], scopes[i])
  }

  /** What is available before the first scope is opened: seeds and singletons. */
  ghost function Start(resolved: seq<Component>): set<TypeId> {
    Ids(Placed(resolved, Seeded)) + Ids(Placed(resolved, AsSingleton))
  }

  /** What is available once `stages` are built. */
  ghost function Base(start: set<TypeId>, stages: seq<seq<Component>>): set<TypeId> {
    if stages == [] then start
    else Base(start, stages[..|stages| - 1]) + Ids(stages[|stages| - 1])
  }

  /** The same, from the groups alone. */
  ghost function GroupBase(resolved: seq<Component>, scopes: seq<Scope>, i: nat): set<TypeId>
    requires i <= |scopes|
  {
    if i == 0 then Start(resolved)
    else GroupBase(resolved, scopes, i - 1) + Ids(StageGroup(resolved, scopes, i - 1))
  }

  ghost function StageGraph(resolved: seq<Component>, providers: seq<Provider>, transient: map<TypeId, Component>,
                            scopes: seq<Scope>, i: nat): Graph
    requires i < |scopes|
  {
    SortGraph(StageGroup(resolved, scopes, i), providers, transient)
  }

  /** `order` is a permutation of the group that comes after `stages`, and a build order over their base. */
  ghost predicate StageOrdered(resolved: seq<Component>, providers: seq<Provider>, transient: map<TypeId, Component>,
                               scopes: seq<Scope>, stages: seq<seq<Component>>, order: seq<Component>)
    requires |stages| < |scopes|
  {
    && multiset(order) == multiset(StageGroup(resolved, scopes, |stages|))
    && exists pw: Waits, tw: Waits ::
         && Tables(StageGraph(resolved, providers, transient, scopes, |stages|), pw, tw)
         && BuildOrder(StageGraph(resolved, providers, transient, scopes, |stages|), order, pw, tw,
                       Base(Start(resolved), stages))
  }

  /** No arrangement of the next stage's group would have worked. */
  ghost predicate StageHopeless(resolved: seq<Component>, providers: seq<Provider>, transient: map<TypeId, Component>,
                                scopes: seq<Scope>, stages: seq<seq<Component>>)
    requires |stages| < |scopes|
  {
    forall order: seq<Component> | multiset(order) == multiset(StageGroup(resolved, scopes, |stages|)) ::
      !DeclaredOrder(StageGraph(resolved, providers, transient, scopes, |stages|), order, Base(Start(resolved), stages))
  }

  ghost predicate AllStagesOrdered(resolved: seq<Component>, providers: seq<Provider>,
                                   transient: map<TypeId, Component>,
                                   scopes: seq<Scope>, stages: seq<seq<Component>>)
    requires |stages| <= |scopes|
    decreases |stages|
  {
    stages == [] ||
    (&& AllStagesOrdered(resolved, providers, transient, scopes, stages[..|stages| - 1])
     && StageOrdered(resolved, providers, transient, scopes, stages[..|stages| - 1], stages[|stages| - 1]))
  }

  /** What is available to a stage does not depend on how the stages before it were ordered. */
  lemma BaseIsGroupBase(resolved: seq<Component>, providers: seq<Provider>, transient: map<TypeId, Component>,
                        scopes: seq<Scope>, stages: seq<seq<Component>>)
    requires |stages| <= |scopes| && AllStagesOrdered(resolved, providers, transient, scopes, stages)
    ensures Base(Start(resolved), stages) == GroupBase(resolved, scopes, |stages|)
  {
    forall i | 0 <= i < |stages| ensures Ids(stages[i]) == Ids(StageGroup(resolved, scopes, i)) {
      StageAt(resolved, providers, transient, scopes, stages, i);
      StageIds(resolved, providers, transient, scopes, stages[..i], stages[i]);
    }
    BaseFromIds(resolved, scopes, stages);
  }

  lemma {:induction false} BaseFromIds(resolved: seq<Component>, scopes: seq<Scope>, stages: seq<seq<Component>>)
    requires |stages| <= |scopes|
    requires forall i :: 0 <= i < |stages| ==> Ids(stages[i]) == Ids(StageGroup(resolved, scopes, i))
    ensures Base(Start(resolved), stages) == GroupBase(resolved, scopes, |stages|)
  {
    if stages != [] {
      BaseFromIds(resolved, scopes, stages[..|stages| - 1]);
    }
  }

  lemma StageIds(resolved: seq<Component>, providers: seq<Provider>, transient: map<TypeId, Component>,
                 scopes: seq<Scope>, stages: seq<seq<Component>>, order: seq<Component>)
    requires |stages| < |scopes| && StageOrdered(resolved, providers, transient, scopes, stages, order)
    ensures Ids(order) == Ids(StageGroup(resolved, scopes, |stages|))
  {
    SamePermutation(order, StageGroup(resolved, scopes, |stages|));
  }

  /** With these wait tables, some permutation of the `i`th group is a build order over its base. */
  ghost predicate StageFeasible(resolved: seq<Component>, providers: seq<Provider>, scopes: seq<Scope>,
                                i: nat, waits: WaitTables)
    requires i < |scopes|
  {
    CanBeOrdered(StageGraph(resolved, providers, Recipes(resolved), scopes, i), StageGroup(resolved, scopes, i),
                 waits.byProvider, waits.byTrait, GroupBase(resolved, scopes, i))
  }

  ghost predicate StageTables(resolved: seq<Component>, providers: seq<Provider>, scopes: seq<Scope>,
                              i: nat, waits: WaitTables)
    requires i < |scopes|
  {
    Tables(StageGraph(resolved, providers, Recipes(resolved), scopes, i), waits.byProvider, waits.byTrait)
  }

  /** `waits` are wait tables of the first stages. */
  ghost predicate AllTables(resolved: seq<Component>, providers: seq<Provider>, scopes: seq<Scope>,
                            waits: seq<WaitTables>)
  {
    waits == [] ||
    (&& AllTables(resolved, providers, scopes, waits[..|waits| - 1])
     && |waits| <= |scopes| && StageTables(resolved, providers, scopes, |waits| - 1, waits[|waits| - 1]))
  }

  /** With these tables, all of the first stages are feasible. */
  ghost predicate AllFeasible(resolved: seq<Component>, providers: seq<Provider>, scopes: seq<Scope>,
                              waits: seq<WaitTables>)
    requires |waits| <= |scopes|
  {
    waits == [] ||
    (&& AllFeasible(resolved, providers, scopes, waits[..|waits| - 1])
     && StageFeasible(resolved, providers, scopes, |waits| - 1, waits[|waits| - 1]))
  }

  lemma {:induction false} FeasibleAt(resolved: seq<Component>, providers: seq<Provider>, scopes: seq<Scope>,
                                      waits: seq<WaitTables>, i: nat)
    requires i < |waits| <= |scopes| && AllFeasible(resolved, providers, scopes, waits)
    ensures StageFeasible(resolved, providers, scopes, i, waits[i])
  {
    if i < |waits| - 1 {
      FeasibleAt(resolved, providers, scopes, waits[..|waits| - 1], i);
    }
  }

  lemma {:induction false} TablesAt(resolved: seq<Component>, providers: seq<Provider>, scopes: seq<Scope>,
                                    waits: seq<WaitTables>, i: nat)
    requires i < |waits| <= |scopes| && AllTables(resolved, providers, scopes, waits)
    ensures StageTables(resolved, providers, scopes, i, waits[i])
  {
    if i < |waits| - 1 {
      TablesAt(resolved, providers, scopes, waits[..|waits| - 1], i);
    }
  }

  lemma {:induction false} FirstInfeasible(resolved: seq<Component>, providers: seq<Provider>, scopes: seq<Scope>,
                                           waits: seq<WaitTables>) returns (i: nat)
    requires |waits| <= |scopes| && !AllFeasible(resolved, providers, scopes, waits)
    ensures i < |waits| && !StageFeasible(resolved, providers, scopes, i, waits[i])
  {
    i := |waits| - 1;
    if !AllFeasible(resolved, providers, scopes, waits[..i]) {
      i := FirstInfeasible(resolved, providers, scopes, waits[..i]);
    }
  }

  /** Tables for the remaining stages, which are never sorted. */
  lemma PadTables(resolved: seq<Component>, providers: seq<Provider>, scopes: seq<Scope>, waits: seq<WaitTables>)
    returns (all: seq<WaitTables>)
    requires AllTables(resolved, providers, scopes, waits)
    ensures AllTables(resolved, providers, scopes, all) && |all| == |scopes|
    ensures !AllFeasible(resolved, providers, scopes, waits) ==> !AllFeasible(resolved, providers, scopes, all)
    decreases |scopes| - |waits|
  {
    if |waits| == |scopes| {
      all := waits;
    } else {
      var g := StageGraph(resolved, providers, Recipes(resolved), scopes, |waits|);
      FullTablesAreTables(g);
      WaitsStep(resolved, providers, scopes, waits, FullTables(g));
      all := PadTables(resolved, providers, scopes, waits + [FullTables(g)]);
    }
  }

  lemma WaitsStep(resolved: seq<Component>, providers: seq<Provider>, scopes: seq<Scope>, waits: seq<WaitTables>,
                  more: WaitTables)
    requires |waits| < |scopes| && AllTables(resolved, providers, scopes, waits)
    requires StageTables(resolved, providers, scopes, |waits|, more)
    ensures AllTables(resolved, providers, scopes, waits + [more])
    ensures AllFeasible(resolved, providers, scopes, waits + [more]) <==>
              AllFeasible(resolved, providers, scopes, waits) &&
              StageFeasible(resolved, providers, scopes, |waits|, more)
  {
    var longer := waits + [more];
    assert longer[..|waits|] == waits;
    TablesSnoc(resolved, providers, scopes, waits, more, longer);
    FeasibleSnoc(resolved, providers, scopes, waits, more, longer);
  }

  lemma TablesSnoc(resolved: seq<Component>, providers: seq<Provider>, scopes: seq<Scope>, waits: seq<WaitTables>,
                   more: WaitTables, longer: seq<WaitTables>)
    requires |longer| == |waits| + 1 <= |scopes| && longer[..|waits|] == waits && longer[|waits|] == more
    requires AllTables(resolved, providers, scopes, waits) && StageTables(resolved, providers, scopes, |waits|, more)
    ensures AllTables(resolved, providers, scopes, longer)
  {
  }

  lemma FeasibleSnoc(resolved: seq<Component>, providers: seq<Provider>, scopes: seq<Scope>, waits: seq<WaitTables>,
                     more: WaitTables, longer: seq<WaitTables>)
    requires |longer| == |waits| + 1 <= |scopes| && longer[..|waits|] == waits && longer[|waits|] == more
    ensures AllFeasible(resolved, providers, scopes, longer) <==>
              AllFeasible(resolved, providers, scopes, waits) &&
              StageFeasible(resolved, providers, scopes, |waits|, more)
  {
  }

  /** Where no expansion cycle is in reach, feasible means that the waits themselves can be satisfied. */
  lemma FeasibleMeaning(resolved: seq<Component>, providers: seq<Provider>, scopes: seq<Scope>,
                        i: nat, waits: WaitTables)
    requires i < |scopes| && StageTables(resolved, providers, scopes, i, waits)
    requires CycleFreeGraph(StageGraph(resolved, providers, Recipes(resolved), scopes, i))
    ensures StageFeasible(resolved, providers, scopes, i, waits) <==> Declarable(resolved, providers, scopes, i)
  {
    OrderableMeaning(StageGraph(resolved, providers, Recipes(resolved), scopes, i), StageGroup(resolved, scopes, i),
                     waits.byProvider, waits.byTrait, GroupBase(resolved, scopes, i));
  }

  /** So each stage is ordered over the ones before it. */
  lemma StageAt(resolved: seq<Component>, providers: seq<Provider>, transient: map<TypeId, Component>,
                scopes: seq<Scope>, stages: seq<seq<Component>>, i: nat)
    requires i < |stages| <= |scopes| && AllStagesOrdered(resolved, providers, transient, scopes, stages)
    ensures StageOrdered(resolved, providers, transient, scopes, stages[..i], stages[i])
  {
    var before, order := stages[..i], stages[i];
    PrefixAt(stages, i, before, order);
    StageOf(resolved, providers, transient, scopes, stages, before, order);
  }

  lemma PrefixAt(stages: seq<seq<Component>>, i: nat, before: seq<seq<Component>>, order: seq<Component>)
    requires i < |stages| && before == stages[..i] && order == stages[i]
    ensures before + [order] <= stages
  {
  }

  lemma {:induction false} StageOf(resolved: seq<Component>, providers: seq<Provider>,
                                   transient: map<TypeId, Component>, scopes: seq<Scope>,
                                   stages: seq<seq<Component>>, before: seq<seq<Component>>, order: seq<Component>)
    requires before + [order] <= stages && |stages| <= |scopes|
    requires AllStagesOrdered(resolved, providers, transient, scopes, stages)
    ensures StageOrdered(resolved, providers, transient, scopes, before, order)
    decreases |stages|
  {
    var front := stages[..|stages| - 1];
    if |before| < |front| {
      StageOf(resolved, providers, transient, scopes, front, before, order);
    } else {
      assert before == front && order == stages[|front|];
    }
  }

  /** The order kept under a name is the one of the last scope with that name. */
  ghost predicate OrdersFrom(scopes: seq<Scope>, stages: seq<seq<Component>>, orders: map<string, seq<Component>>)
    requires |stages| == |scopes|
  {
    && orders.Keys == ScopeNames(scopes)
    && forall i :: 0 <= i < |scopes| && NamedLast(scopes, i) ==>
         scopes[i].name in orders && orders[scopes[i].name] == stages[i]
  }

  ghost predicate NamedLast(scopes: seq<Scope>, i: nat)
    requires i < |scopes|
  {
    forall j :: i < j < |scopes| ==> scopes[j].name != scopes[i].name
  }

  /** The groups that the scopes seen so far have not taken. */
  ghost predicate Untaken(resolved: seq<Component>, seen: seq<Scope>, byScope: map<string, seq<Component>>) {
    && (forall n :: n in byScope <==> Placed(resolved, InScope(n)) != [] && n !in ScopeNames(seen))
    && (forall n <- byScope :: byScope[n] == Placed(resolved, InScope(n)))
  }

  lemma ScopeNamesStep(seen: seq<Scope>, s: Scope)
    ensures ScopeNames(seen + [s]) == ScopeNames(seen) + {s.name}
  {
    assert (seen + [s])[..|seen|] == seen;
  }

  lemma OrdersStep(scopes: seq<Scope>, stages: seq<seq<Component>>, orders: map<string, seq<Component>>, s: Scope,
                   order: seq<Component>)
    requires |stages| == |scopes| && OrdersFrom(scopes, stages, orders)
    ensures OrdersFrom(scopes + [s], stages + [order], orders[s.name := order])
  {
    ScopeNamesStep(scopes, s);
    var longer := scopes + [s];
    forall i | 0 <= i < |longer| && NamedLast(longer, i)
      ensures longer[i].name in orders[s.name := order]
                && orders[s.name := order][longer[i].name] == (stages + [order])[i]
    {
      if i < |scopes| {
        assert longer[|scopes|] == s;
        assert forall j :: i < j < |scopes| ==> longer[j] == scopes[j];
        assert NamedLast(scopes, i);
      }
    }
  }

  lemma StagesStep(resolved: seq<Component>, providers: seq<Provider>, transient: map<TypeId, Component>,
                   scopes: seq<Scope>, stages: seq<seq<Component>>, order: seq<Component>)
    requires |stages| < |scopes|
    requires AllStagesOrdered(resolved, providers, transient, scopes, stages)
    requires StageOrdered(resolved, providers, transient, scopes, stages, order)
    ensures AllStagesOrdered(resolved, providers, transient, scopes, stages + [order])
  {
    assert (stages + [order])[..|stages|] == stages;
  }

  lemma StageIsOrdered(resolved: seq<Component>, providers: seq<Provider>, transient: map<TypeId, Component>,
                       scopes: seq<Scope>, stages: seq<seq<Component>>, order: seq<Component>, pw: Waits, tw: Waits)
    requires |stages| < |scopes|
    requires multiset(order) == multiset(StageGroup(resolved, scopes, |stages|))
    requires Tables(StageGraph(resolved, providers, transient, scopes, |stages|), pw, tw)
    requires BuildOrder(StageGraph(resolved, providers, transient, scopes, |stages|), order, pw, tw,
                        Base(Start(resolved), stages))
    ensures StageOrdered(resolved, providers, transient, scopes, stages, order)
  {
  }

  lemma BaseStep(start: set<TypeId>, stages: seq<seq<Component>>, order: seq<Component>)
    ensures Base(start, stages + [order]) == Base(start, stages) + Ids(order)
  {
    assert (stages + [order])[..|stages|] == stages;
  }

  lemma StageIsHopeless(g: Graph, components: seq<Component>, pw: Waits, tw: Waits, prebuilt: set<TypeId>,
                        stuck: seq<Component>)
    requires Tables(g, pw, tw) && stuck != [] && multiset(stuck) <= multiset(components)
    requires Unbuildable(g, components, stuck, pw, tw, prebuilt)
    ensures forall order: seq<Component> | multiset(order) == multiset(components) :: !DeclaredOrder(g, order, prebuilt)
  {
    CycleIffNoOrder(g, components, prebuilt, pw, tw, Err(DependencyCycle([])), stuck);
    forall order: seq<Component> | multiset(order) == multiset(components) ensures !DeclaredOrder(g, order, prebuilt) {
      BuildOrderIsDeclared(g, order, pw, tw, prebuilt);
    }
  }

  ghost predicate Undeclared(resolved: seq<Component>, scopes: seq<Scope>, component: string, scope: string) {
    && scope !in ScopeNames(scopes)
    && exists c <- resolved :: Place(c) == InScope(scope) && c.name == component
  }

  /** One sort of the second loop. */
  method OrderStage(ghost resolved: seq<Component>, providers: seq<Provider>, transient: map<TypeId, Component>,
                    ghost scopes: seq<Scope>, ghost stages: seq<seq<Component>>, components: seq<Component>,
                    prebuilt: set<TypeId>)
    returns (r: Result<seq<Component>, DiError>, ghost waits: WaitTables)
    requires |stages| < |scopes| && AllStagesOrdered(resolved, providers, transient, scopes, stages)
    requires components == StageGroup(resolved, scopes, |stages|) && prebuilt == Base(Start(resolved), stages)
    requires Filed(resolved, transient) && transient == Recipes(resolved)
    ensures r.Ok? ==> AllStagesOrdered(resolved, providers, transient, scopes, stages + [r.value])
    ensures r.Err? ==> r.error.DependencyCycle? && StageHopeless(resolved, providers, transient, scopes, stages)
    ensures StageTables(resolved, providers, scopes, |stages|, waits)
    ensures r.Ok? <==> StageFeasible(resolved, providers, scopes, |stages|, waits)
  {
    ghost var stuck, pw, tw;
    r, stuck, pw, tw := Sort(components, prebuilt, providers, transient);
    waits := WaitTables(pw, tw);
    BaseIsGroupBase(resolved, providers, transient, scopes, stages);
    if r.Err? {
      StageIsHopeless(StageGraph(resolved, providers, transient, scopes, |stages|), components, pw, tw, prebuilt,
                      stuck);
    } else {
      StageIsOrdered(resolved, providers, transient, scopes, stages, r.value, pw, tw);
      StagesStep(resolved, providers, transient, scopes, stages, r.value);
    }
  }

  /** The state of the second loop once the scopes `seen` are ordered. */
  ghost predicate Progress(resolved: seq<Component>, seen: seq<Scope>,
                           stages: seq<seq<Component>>, orders: map<string, seq<Component>>,
                           byScope: map<string, seq<Component>>, prebuilt: set<TypeId>)
  {
    && |stages| == |seen|
    && OrdersFrom(seen, stages, orders)
    && Untaken(resolved, seen, byScope)
    && prebuilt == Base(Start(resolved), stages)
  }

  lemma ProgressStart(resolved: seq<Component>, scopes: seq<Scope>, groups: map<string, seq<Component>>)
    requires Grouped(resolved, groups)
    ensures Progress(resolved, scopes[..0], [], map[], groups, Start(resolved))
  {
    assert scopes[..0] == [];
  }

  /** What the next scope gets, and what is built by then. */
  lemma ProgressMeaning(resolved: seq<Component>, scopes: seq<Scope>, stages: seq<seq<Component>>,
                        orders: map<string, seq<Component>>, byScope: map<string, seq<Component>>,
                        prebuilt: set<TypeId>)
    requires |stages| < |scopes| && Progress(resolved, scopes[..|stages|], stages, orders, byScope, prebuilt)
    ensures var name := scopes[|stages|].name;
            (if name in byScope then byScope[name] else []) == StageGroup(resolved, scopes, |stages|)
    ensures prebuilt == Base(Start(resolved), stages)
  {
    UntakenStep(resolved, scopes[..|stages|], scopes[|stages|], byScope);
  }

  lemma ProgressStep(resolved: seq<Component>, scopes: seq<Scope>, stages: seq<seq<Component>>,
                     orders: map<string, seq<Component>>, byScope: map<string, seq<Component>>,
                     prebuilt: set<TypeId>, order: seq<Component>)
    requires |stages| < |scopes| && Progress(resolved, scopes[..|stages|], stages, orders, byScope, prebuilt)
    ensures var name := scopes[|stages|].name;
            Progress(resolved, scopes[..|stages| + 1], stages + [order],
                     orders[name := order], byScope - {name}, prebuilt + Ids(order))
  {
    var seen, s := scopes[..|stages|], scopes[|stages|];
    assert scopes[..|stages| + 1] == seen + [s];
    UntakenStep(resolved, seen, s, byScope);
    OrdersStep(seen, stages, orders, s, order);
    BaseStep(Start(resolved), stages, order);
  }

  /** The second loop's state, with the tables of the sorts so far. */
  ghost predicate Ordering(resolved: seq<Component>, providers: seq<Provider>, transient: map<TypeId, Component>,
                           scopes: seq<Scope>, stages: seq<seq<Component>>,
                           orders: map<string, seq<Component>>, byScope: map<string, seq<Component>>,
                           prebuilt: set<TypeId>, waits: seq<WaitTables>)
  {
    && |stages| == |waits| <= |scopes|
    && AllStagesOrdered(resolved, providers, transient, scopes, stages)
    && Progress(resolved, scopes[..|stages|], stages, orders, byScope, prebuilt)
    && AllTables(resolved, providers, scopes, waits) && AllFeasible(resolved, providers, scopes, waits)
  }

  /** The next sort failed, so no plan is possible. */
  ghost predicate Hopeless(resolved: seq<Component>, providers: seq<Provider>, transient: map<TypeId, Component>,
                           scopes: seq<Scope>, stages: seq<seq<Component>>, waits: seq<WaitTables>)
    requires |stages| < |scopes|
  {
    && AllStagesOrdered(resolved, providers, transient, scopes, stages)
    && StageHopeless(resolved, providers, transient, scopes, stages)
    && |waits| == |scopes| && AllTables(resolved, providers, scopes, waits)
    && !AllFeasible(resolved, providers, scopes, waits)
  }

  /** One iteration of the second loop. */
  method OrderOne(ghost resolved: seq<Component>, providers: seq<Provider>, transient: map<TypeId, Component>,
                  ghost scopes: seq<Scope>, ghost stages: seq<seq<Component>>, s: Scope,
                  orders: map<string, seq<Component>>, byScope: map<string, seq<Component>>, prebuilt: set<TypeId>,
                  ghost waits: seq<WaitTables>)
    returns (r: Result<seq<Component>, DiError>, orders': map<string, seq<Component>>,
             byScope': map<string, seq<Component>>, prebuilt': set<TypeId>, ghost waits': seq<WaitTables>)
    requires Filed(resolved, transient) && transient == Recipes(resolved)
    requires |stages| < |scopes| && s == scopes[|stages|]
    requires Ordering(resolved, providers, transient, scopes, stages, orders, byScope, prebuilt, waits)
    ensures r.Ok? ==>
              Ordering(resolved, providers, transient, scopes, stages + [r.value], orders', byScope', prebuilt', waits')
    ensures r.Ok? ==> orders' == orders[s.name := r.value]
    ensures r.Ok? ==> byScope' == byScope - {s.name} && prebuilt' == prebuilt + Ids(r.value)
    ensures r.Err? ==> r.error.DependencyCycle?
    ensures r.Err? ==> Hopeless(resolved, providers, transient, scopes, stages, waits')
  {
    orders', byScope', prebuilt' := orders, byScope, prebuilt;
    var components := if s.name in byScope then byScope[s.name] else [];
    ProgressMeaning(resolved, scopes, stages, orders, byScope, prebuilt);
    ghost var more;
    r, more := OrderStage(resolved, providers, transient, scopes, stages, components, prebuilt);
    WaitsStep(resolved, providers, scopes, waits, more);
    waits' := waits + [more];
    if r.Ok? {
      ProgressStep(resolved, scopes, stages, orders, byScope, prebuilt, r.value);
      byScope' := byScope - {s.name};
      prebuilt' := prebuilt + Ids(r.value);
      orders' := orders[s.name := r.value];
    } else {
      waits' := PadTables(resolved, providers, scopes, waits');
    }
  }

  /** The second loop: one sort per scope of the chain, each over everything built before it. */
  method OrderScopes(resolved: seq<Component>, providers: seq<Provider>, transient: map<TypeId, Component>,
                     scopes: seq<Scope>, groups: map<string, seq<Component>>, start: set<TypeId>)
    returns (error: Option<DiError>, orders: map<string, seq<Component>>, byScope: map<string, seq<Component>>,
             ghost prebuilt: set<TypeId>, ghost stages: seq<seq<Component>>, ghost waits: seq<WaitTables>)
    requires Grouped(resolved, groups) && start == Start(resolved)
    requires Filed(resolved, transient) && transient == Recipes(resolved)
    ensures error.None? ==>
              && |stages| == |scopes|
              && Ordering(resolved, providers, transient, scopes, stages, orders, byScope, prebuilt, waits)
    ensures error.Some? ==> error.value.DependencyCycle?
    ensures error.Some? ==> |stages| < |scopes| && Hopeless(resolved, providers, transient, scopes, stages, waits)
  {
    var built := start;
    stages, waits, orders, byScope, error := [], [], map[], groups, None;
    ProgressStart(resolved, scopes, groups);
    for i := 0 to |scopes|
      invariant |stages| == i
      invariant Ordering(resolved, providers, transient, scopes, stages, orders, byScope, built, waits)
    {
      var sorted;
      sorted, orders, byScope, built, waits :=
        OrderOne(resolved, providers, transient, scopes, stages, scopes[i], orders, byScope, built, waits);
      if sorted.Err? {
        error, prebuilt := Some(sorted.error), built;
        return;
      }
      stages := stages + [sorted.value];
    }
    prebuilt := built;
  }

  lemma UntakenStep(resolved: seq<Component>, seen: seq<Scope>, s: Scope, byScope: map<string, seq<Component>>)
    requires Untaken(resolved, seen, byScope)
    ensures Untaken(resolved, seen + [s], byScope - {s.name})
    ensures (if s.name in byScope then byScope[s.name] else []) == NextGroup(resolved, seen, s)
  {
    ScopeNamesStep(seen, s);
  }

  /** What the final check of the left-over groups establishes. */
  lemma NothingUntaken(resolved: seq<Component>, scopes: seq<Scope>, byScope: map<string, seq<Component>>)
    requires Untaken(resolved, scopes, byScope)
    ensures byScope == map[] ==> forall c <- resolved :: Place(c).InScope? ==> Place(c).name in ScopeNames(scopes)
    ensures forall n <- byScope :: byScope[n] != [] && Undeclared(resolved, scopes, byScope[n][0].name, n)
  {
    forall c <- resolved | Place(c).InScope? && byScope == map[] ensures Place(c).name in ScopeNames(scopes) {
      PlacedMeaning(resolved, Place(c));
      assert c in Placed(resolved, InScope(Place(c).name));
      assert Place(c).name !in byScope;
    }
    forall n <- byScope ensures byScope[n] != [] && Undeclared(resolved, scopes, byScope[n][0].name, n) {
      PlacedMeaning(resolved, InScope(n));
      assert byScope[n][0] in Placed(resolved, InScope(n));
    }
  }

  /** No plan exists because of an ambiguous factory, a component in a scope outside the chain, or a stage
    * that no arrangement of its group can order over the ordered stages before it. */
  ghost predicate Justified(resolved: seq<Component>, providers: seq<Provider>, scopes: seq<Scope>,
                            stages: seq<seq<Component>>, error: DiError)
  {
    || (exists c <- resolved :: Place(c) == Broken && c.EffectiveFactory() == Err(error))
    || (error.UndeclaredScope? && Undeclared(resolved, scopes, error.component, error.scope))
    || (error.DependencyCycle? && |stages| < |scopes| &&
        exists transient: map<TypeId, Component> :: CannotGoOn(resolved, providers, transient, scopes, stages))
  }

  ghost predicate CannotGoOn(resolved: seq<Component>, providers: seq<Provider>, transient: map<TypeId, Component>,
                             scopes: seq<Scope>, stages: seq<seq<Component>>)
    requires |stages| < |scopes|
  {
    && Filed(resolved, transient)
    && AllStagesOrdered(resolved, providers, transient, scopes, stages)
    && StageHopeless(resolved, providers, transient, scopes, stages)
  }

  ghost predicate NoExpansionCycles(resolved: seq<Component>, providers: seq<Provider>, scopes: seq<Scope>) {
    forall i :: 0 <= i < |scopes| ==> CycleFreeGraph(StageGraph(resolved, providers, Recipes(resolved), scopes, i))
  }

  /** Some arrangement of the `i`th group satisfies the declarative waits over its base. */
  ghost predicate Declarable(resolved: seq<Component>, providers: seq<Provider>, scopes: seq<Scope>, i: nat)
    requires i < |scopes|
  {
    CanBeDeclared(StageGraph(resolved, providers, Recipes(resolved), scopes, i),
                  StageGroup(resolved, scopes, i), GroupBase(resolved, scopes, i))
  }

  ghost predicate AllDeclarable(resolved: seq<Component>, providers: seq<Provider>, scopes: seq<Scope>) {
    forall i :: 0 <= i < |scopes| ==> Declarable(resolved, providers, scopes, i)
  }

  /** Without expansion cycles, whether all stages are feasible is a matter of the declarations alone. */
  lemma AllFeasibleMeaning(resolved: seq<Component>, providers: seq<Provider>, scopes: seq<Scope>,
                           waits: seq<WaitTables>)
    requires |waits| == |scopes| && AllTables(resolved, providers, scopes, waits)
    requires NoExpansionCycles(resolved, providers, scopes)
    ensures AllFeasible(resolved, providers, scopes, waits) <==> AllDeclarable(resolved, providers, scopes)
  {
    if AllFeasible(resolved, providers, scopes, waits) {
      forall i | 0 <= i < |scopes| ensures Declarable(resolved, providers, scopes, i) {
        FeasibleAt(resolved, providers, scopes, waits, i);
        TablesAt(resolved, providers, scopes, waits, i);
        FeasibleMeaning(resolved, providers, scopes, i, waits[i]);
      }
    } else {
      var i := FirstInfeasible(resolved, providers, scopes, waits);
      TablesAt(resolved, providers, scopes, waits, i);
      FeasibleMeaning(resolved, providers, scopes, i, waits[i]);
    }
  }

  /** Nothing stands in the way of a plan but the order of a stage. */
  ghost predicate WellPlaced(resolved: seq<Component>, scopes: seq<Scope>) {
    forall c <- resolved :: Place(c) != Broken && (Place(c).InScope? ==> Place(c).name in ScopeNames(scopes))
  }

  /** How a partition ends: with a plan exactly when every component has a place and every stage is
    * feasible, else with an error that names the reason. */
  ghost predicate Outcome(resolved: seq<Component>, providers: seq<Provider>, scopes: seq<Scope>,
                          stages: seq<seq<Component>>, waits: seq<WaitTables>, r: Result<Plan, DiError>)
  {
    && |waits| == |scopes| && AllTables(resolved, providers, scopes, waits)
    && (r.Ok? <==> WellPlaced(resolved, scopes) && AllFeasible(resolved, providers, scopes, waits))
    && match r
       case Ok(plan) => Planned(resolved, providers, scopes, stages, plan)
       case Err(error) => Justified(resolved, providers, scopes, stages, error)
  }

  /** What a plan holds. */
  ghost predicate Planned(resolved: seq<Component>, providers: seq<Provider>, scopes: seq<Scope>,
                          stages: seq<seq<Component>>, plan: Plan)
  {
    && plan.singletons == Placed(resolved, AsSingleton)
    && Filed(resolved, plan.transient) && plan.transient == Recipes(resolved)
    && |stages| == |scopes| && OrdersFrom(scopes, stages, plan.orders)
    && AllStagesOrdered(resolved, providers, plan.transient, scopes, stages)
  }

  /** What a plan makes of each descriptor, whatever the scopes. */
  ghost predicate KeptApart(resolved: seq<Component>, plan: Plan, c: Component) {
    && multiset(plan.singletons)[c] == (if IsSingleton(c) then multiset(resolved)[c] else 0)
    && (c in plan.transient.Values ==> c in resolved && c.scope.isTransient)
    && (c in resolved && c.scope.isTransient ==> c.ty in plan.transient)
  }

  lemma PlannedKeepsApart(resolved: seq<Component>, plan: Plan)
    requires plan.singletons == Placed(resolved, AsSingleton) && Filed(resolved, plan.transient)
    ensures forall c :: KeptApart(resolved, plan, c)
  {
    PlacedMeaning(resolved, AsSingleton);
    forall c ensures KeptApart(resolved, plan, c) {
      PlaceMeaning(c);
    }
  }

  /** What is there before the first scope is opened: the singletons, and what is handed in. */
  lemma StartMeaning(resolved: seq<Component>, t: TypeId)
    ensures t in Start(resolved) <==> exists c <- resolved :: c.ty == t && (IsSingleton(c) || IsSeeded(c))
  {
    PlacedMeaning(resolved, AsSingleton);
    PlacedMeaning(resolved, Seeded);
    forall c <- resolved { PlaceMeaning(c); }
    if c :| c in resolved && c.ty == t && (IsSingleton(c) || IsSeeded(c)) {
      assert c in Placed(resolved, AsSingleton) || c in Placed(resolved, Seeded);
    }
  }

  lemma CycleOutcome(resolved: seq<Component>, providers: seq<Provider>, transient: map<TypeId, Component>,
                     scopes: seq<Scope>, stages: seq<seq<Component>>, waits: seq<WaitTables>, error: DiError)
    requires |stages| < |scopes| && error.DependencyCycle? && Filed(resolved, transient)
    requires Hopeless(resolved, providers, transient, scopes, stages, waits)
    ensures Outcome(resolved, providers, scopes, stages, waits, Err(error))
  {
    assert CannotGoOn(resolved, providers, transient, scopes, stages);
  }

  lemma UndeclaredOutcome(resolved: seq<Component>, providers: seq<Provider>, scopes: seq<Scope>,
                          stages: seq<seq<Component>>, waits: seq<WaitTables>, byScope: map<string, seq<Component>>,
                          n: string)
    requires Untaken(resolved, scopes, byScope) && n in byScope
    requires |waits| == |scopes| && AllTables(resolved, providers, scopes, waits)
    ensures byScope[n] != []
    ensures Outcome(resolved, providers, scopes, stages, waits, Err(UndeclaredScope(byScope[n][0].name, n)))
  {
    NothingUntaken(resolved, scopes, byScope);
    assert Undeclared(resolved, scopes, byScope[n][0].name, n);
  }

  lemma PlannedOutcome(resolved: seq<Component>, providers: seq<Provider>, scopes: seq<Scope>,
                       stages: seq<seq<Component>>, waits: seq<WaitTables>, byScope: map<string, seq<Component>>,
                       plan: Plan)
    requires Untaken(resolved, scopes, byScope) && byScope == map[] && forall c <- resolved :: Place(c) != Broken
    requires |waits| == |scopes| && AllTables(resolved, providers, scopes, waits)
    requires AllFeasible(resolved, providers, scopes, waits)
    requires Planned(resolved, providers, scopes, stages, plan)
    ensures Outcome(resolved, providers, scopes, stages, waits, Ok(plan))
  {
    NothingUntaken(resolved, scopes, byScope);
  }

  /** The second loop and the check after it, on what the first loop has split. */
  method PlanGroups(resolved: seq<Component>, providers: seq<Provider>, scopes: seq<Scope>,
                    singletons: seq<Component>, transient: map<TypeId, Component>,
                    groups: map<string, seq<Component>>, seeds: set<TypeId>)
    returns (r: Result<Plan, DiError>, ghost stages: seq<seq<Component>>, ghost waits: seq<WaitTables>)
    requires Split(resolved, singletons, transient, groups, seeds)
    requires forall c <- resolved :: Place(c) != Broken
    ensures Outcome(resolved, providers, scopes, stages, waits, r)
    ensures r.Ok? ==> WellPlaced(resolved, scopes) && r.value.singletons == singletons && r.value.transient == transient
  {
    var failed, orders, byScope;
    ghost var prebuilt;
    failed, orders, byScope, prebuilt, stages, waits :=
      OrderScopes(resolved, providers, transient, scopes, groups, seeds + Ids(singletons));
    if failed.Some? {
      CycleOutcome(resolved, providers, transient, scopes, stages, waits, failed.value);
      return Err(failed.value), stages, waits;
    }
    assert scopes[..|scopes|] == scopes;
    if byScope != map[] {
      var scope :| scope in byScope;
      UndeclaredOutcome(resolved, providers, scopes, stages, waits, byScope, scope);
      return Err(UndeclaredScope(byScope[scope][0].name, scope)), stages, waits;
    }
    r := Ok(Plan(singletons, transient, orders));
    PlannedOutcome(resolved, providers, scopes, stages, waits, byScope, r.value);
  }

  /** `ScopePlan::partition`. The ghost `stages` are the orders in chain order, before the map keeps one
    * per name; the ghost `waits` are the wait tables of the sorts. */
  method Partition(resolved: seq<Component>, providers: seq<Provider>, scopes: seq<Scope>)
    returns (r: Result<Plan, DiError>, ghost stages: seq<seq<Component>>, ghost waits: seq<WaitTables>)
    ensures Outcome(resolved, providers, scopes, stages, waits, r)
    ensures r.Ok? ==> WellPlaced(resolved, scopes)
    ensures r.Ok? ==> forall c :: KeptApart(resolved, r.value, c)
    ensures NoExpansionCycles(resolved, providers, scopes) ==>
              (r.Ok? <==> WellPlaced(resolved, scopes) && AllDeclarable(resolved, providers, scopes))
  {
    var error, singletons, transient, groups, seeds := SplitByScope(resolved);
    if error.Some? {
      stages := [];
      waits := PadTables(resolved, providers, scopes, []);
      return Err(error.value), stages, waits;
    }
    r, stages, waits := PlanGroups(resolved, providers, scopes, singletons, transient, groups, seeds);
    if r.Ok? {
      PlannedKeepsApart(resolved, r.value);
    }
    if NoExpansionCycles(resolved, providers, scopes) {
      AllFeasibleMeaning(resolved, providers, scopes, waits);
    }
  }
}

/** Which provider an edge waits for, said of the registered providers themselves: no grouping by trait, no
  * selection function, no wait sets. */
module ProviderChoice {
  import opened Common
  import opened DependencyGraph
  import opened ExpansionGraph
  import opened TopologicalSort

  // ---------------------------------------------------------------- selection in a filtered list

  function Where(providers: seq<Provider>, pool: Provider -> bool): seq<Provider> {
    if providers == [] then []
    else (if pool(providers[0]) then [providers[0]] else []) + Where(providers[1..], pool)
  }

  /** The `i`th registered provider is the choice of `dep` among those in `pool`: the first with the edge's
    * qualifier; without one, the only provider there is or the only primary. */
  ghost predicate Choice(dep: Dependency, providers: seq<Provider>, pool: Provider -> bool, i: nat) {
    && i < |providers| && pool(providers[i])
    && match dep.qualifier
       case Some(q) =>
         && providers[i].qualifier == q
         && forall j :: 0 <= j < i && pool(providers[j]) ==> providers[j].qualifier != q
       case None =>
         || OnlyOne(providers, pool, i)
         || (providers[i].primary &&
             forall j :: 0 <= j < |providers| && j != i && pool(providers[j]) ==> !providers[j].primary)
  }

  ghost predicate OnlyOne(providers: seq<Provider>, pool: Provider -> bool, i: nat) {
    i < |providers| && pool(providers[i]) && forall j :: 0 <= j < |providers| && j != i ==> !pool(providers[j])
  }

  lemma {:induction false} WhereNone(providers: seq<Provider>, pool: Provider -> bool)
    ensures Where(providers, pool) == [] <==> forall j :: 0 <= j < |providers| ==> !pool(providers[j])
  {
    if providers != [] {
      WhereNone(providers[1..], pool);
      assert forall j :: 0 < j < |providers| ==> providers[j] == providers[1..][j - 1];
      assert forall j :: 0 <= j < |providers| - 1 ==> providers[1..][j] == providers[j + 1];
    }
  }

  lemma {:induction false} WhereOnly(providers: seq<Provider>, pool: Provider -> bool, i: nat)
    requires OnlyOne(providers, pool, i)
    ensures Where(providers, pool) == [providers[i]]
  {
    var rest := providers[1..];
    assert forall j :: 0 <= j < |rest| ==> rest[j] == providers[j + 1];
    if i == 0 {
      WhereNone(rest, pool);
    } else {
      WhereOnly(rest, pool, i - 1);
    }
  }

  lemma {:induction false} WhereOne(providers: seq<Provider>, pool: Provider -> bool) returns (i: nat)
    requires |Where(providers, pool)| == 1
    ensures OnlyOne(providers, pool, i) && Where(providers, pool) == [providers[i]]
  {
    var rest := providers[1..];
    assert forall j :: 0 < j < |providers| ==> providers[j] == rest[j - 1];
    if pool(providers[0]) {
      WhereNone(rest, pool);
      i := 0;
    } else {
      i := WhereOne(rest, pool);
      i := i + 1;
    }
  }

  function AndPrimary(pool: Provider -> bool): Provider -> bool {
    (p: Provider) => pool(p) && p.primary
  }

  lemma {:induction false} PrimariesWhere(providers: seq<Provider>, pool: Provider -> bool)
    ensures Primaries(Where(providers, pool)) == Where(providers, AndPrimary(pool))
  {
    if providers != [] {
      PrimariesWhere(providers[1..], pool);
      if pool(providers[0]) {
        assert Where(providers, pool)[1..] == Where(providers[1..], pool);
      } else {
        assert Where(providers, pool) == Where(providers[1..], pool);
      }
    }
  }

  lemma {:induction false} FirstWhere(providers: seq<Provider>, pool: Provider -> bool, q: string, i: nat)
    requires i < |providers| && pool(providers[i]) && providers[i].qualifier == q
    requires forall j :: 0 <= j < i && pool(providers[j]) ==> providers[j].qualifier != q
    ensures FirstQualified(Where(providers, pool), q) == Some(providers[i])
  {
    if i > 0 {
      var rest := providers[1..];
      assert forall j :: 0 <= j < |rest| ==> rest[j] == providers[j + 1];
      FirstWhere(rest, pool, q, i - 1);
      WhereStep(providers, pool);
    }
  }

  lemma WhereStep(providers: seq<Provider>, pool: Provider -> bool)
    requires providers != []
    ensures pool(providers[0]) ==>
              Where(providers, pool) != [] && Where(providers, pool)[0] == providers[0] &&
              Where(providers, pool)[1..] == Where(providers[1..], pool)
    ensures !pool(providers[0]) ==> Where(providers, pool) == Where(providers[1..], pool)
  {
  }

  lemma {:induction false} FirstWhereAt(providers: seq<Provider>, pool: Provider -> bool, q: string) returns (i: nat)
    requires FirstQualified(Where(providers, pool), q).Some?
    ensures i < |providers| && pool(providers[i]) && providers[i].qualifier == q
    ensures forall j :: 0 <= j < i && pool(providers[j]) ==> providers[j].qualifier != q
  {
    i := 0;
    WhereStep(providers, pool);
    if !(pool(providers[0]) && providers[0].qualifier == q) {
      i := FirstWhereAt(providers[1..], pool, q);
      i := i + 1;
      assert forall j :: 0 < j < |providers| ==> providers[j] == providers[1..][j - 1];
    }
  }

  /** The choice is what is selected, */
  lemma PooledChoiceIsSelected(dep: Dependency, providers: seq<Provider>, pool: Provider -> bool, i: nat)
    requires Choice(dep, providers, pool, i)
    ensures SelectFor(dep, Where(providers, pool)) == Some(providers[i])
  {
    if dep.qualifier.Some? {
      FirstWhere(providers, pool, dep.qualifier.value, i);
    } else if |Where(providers, pool)| == 1 {
      var k := WhereOne(providers, pool);
    } else if OnlyOne(providers, pool, i) {
      WhereOnly(providers, pool, i);
    } else {
      PrimariesWhere(providers, pool);
      WhereOnly(providers, AndPrimary(pool), i);
    }
  }

  /** and without a choice nothing is. */
  lemma PooledSelectedIsChoice(dep: Dependency, providers: seq<Provider>, pool: Provider -> bool) returns (i: nat)
    requires SelectFor(dep, Where(providers, pool)).Some?
    ensures Choice(dep, providers, pool, i) && SelectFor(dep, Where(providers, pool)) == Some(providers[i])
  {
    if dep.qualifier.Some? {
      i := FirstWhereAt(providers, pool, dep.qualifier.value);
    } else if |Where(providers, pool)| == 1 {
      i := WhereOne(providers, pool);
    } else {
      PrimariesWhere(providers, pool);
      i := WhereOne(providers, AndPrimary(pool));
    }
    PooledChoiceIsSelected(dep, providers, pool, i);
  }

  // ---------------------------------------------------------------- the pools of an edge

  /** All providers of a trait. */
  function OfTrait(t: TypeId): Provider -> bool {
    (p: Provider) => p.traitTy == t
  }

  /** Those built in this sort. */
  function SortedOfTrait(t: TypeId, sortable: set<TypeId>): Provider -> bool {
    (p: Provider) => p.traitTy == t && p.concreteTy in sortable
  }

  lemma {:induction false} WhereSnoc(a: seq<Provider>, p: Provider, pool: Provider -> bool)
    ensures Where(a + [p], pool) == Where(a, pool) + if pool(p) then [p] else []
  {
    if a == [] {
      assert a + [p] == [p] && [p][1..] == [];
    } else {
      var head := if pool(a[0]) then [a[0]] else [];
      assert (a + [p])[0] == a[0] && (a + [p])[1..] == a[1..] + [p];
      WhereSnoc(a[1..], p, pool);
      assert head + (Where(a[1..], pool) + if pool(p) then [p] else [])
             == head + Where(a[1..], pool) + if pool(p) then [p] else [];
    }
  }

  lemma {:induction false} ProvidersOfIsWhere(providers: seq<Provider>, t: TypeId)
    ensures ProvidersOf(providers, t) == Where(providers, OfTrait(t))
  {
    if providers != [] {
      var last := |providers| - 1;
      ProvidersOfIsWhere(providers[..last], t);
      assert providers == providers[..last] + [providers[last]];
      WhereSnoc(providers[..last], providers[last], OfTrait(t));
    }
  }

  lemma {:induction false} LocalIsWhere(providers: seq<Provider>, t: TypeId, sortable: set<TypeId>)
    ensures Local(Where(providers, OfTrait(t)), sortable) == Where(providers, SortedOfTrait(t, sortable))
  {
    if providers != [] {
      LocalIsWhere(providers[1..], t, sortable);
      WhereStep(providers, OfTrait(t));
    }
  }

  /** A trait has providers exactly if one is registered. */
  ghost predicate Provided(providers: seq<Provider>, t: TypeId) {
    exists i :: 0 <= i < |providers| && providers[i].traitTy == t
  }

  /** The choice among all providers of the trait is constructed on demand. */
  ghost predicate OnDemand(dep: Dependency, providers: seq<Provider>, transients: map<TypeId, Component>) {
    exists i: nat :: Choice(dep, providers, OfTrait(dep.ty), i) && providers[i].concreteTy in transients
  }

  lemma GroupedProviders(components: seq<Component>, providers: seq<Provider>, transients: map<TypeId, Component>,
                         t: TypeId)
    ensures var g := SortGraph(components, providers, transients);
            && (t in g.providers <==> Provided(providers, t))
            && (t in g.providers ==> g.providers[t] == Where(providers, OfTrait(t)))
  {
    ProvidersOfIsWhere(providers, t);
    if t in Traits(providers) {
      var p :| p in providers && p.traitTy == t;
      var i :| 0 <= i < |providers| && providers[i] == p;
    }
  }

  lemma SelectedOverall(dep: Dependency, components: seq<Component>, providers: seq<Provider>,
                        transients: map<TypeId, Component>)
    requires Provided(providers, dep.ty)
    ensures var g := SortGraph(components, providers, transients);
            && dep.ty in g.providers
            && (OnDemand(dep, providers, transients) <==>
                SelectFor(dep, g.providers[dep.ty]).Some? &&
                SelectFor(dep, g.providers[dep.ty]).value.concreteTy in transients)
  {
    GroupedProviders(components, providers, transients, dep.ty);
    var pool := OfTrait(dep.ty);
    if SelectFor(dep, Where(providers, pool)).Some? {
      var i := PooledSelectedIsChoice(dep, providers, pool);
    }
    if i: nat :| Choice(dep, providers, pool, i) && providers[i].concreteTy in transients {
      PooledChoiceIsSelected(dep, providers, pool, i);
    }
  }

  // ---------------------------------------------------------------- when an edge is ready

  /** A single-valued edge whose choice is not constructed on demand is ready when the choice among the
    * providers sorted here is built; */
  lemma ReadyByChoice(components: seq<Component>, providers: seq<Provider>, transients: map<TypeId, Component>,
                      pw: Waits, tw: Waits, dep: Dependency, built: set<TypeId>, i: nat)
    requires Tables(SortGraph(components, providers, transients), pw, tw)
    requires dep.cardinality.One? && Provided(providers, dep.ty) && !OnDemand(dep, providers, transients)
    requires Choice(dep, providers, SortedOfTrait(dep.ty, Ids(components)), i)
    ensures DepReady(SortGraph(components, providers, transients), dep, pw, tw, built) <==>
              providers[i].concreteTy in built
  {
    var local := LocalProviders(components, providers, transients, dep);
    PooledChoiceIsSelected(dep, providers, SortedOfTrait(dep.ty, Ids(components)), i);
    ReadyBySelection(SortGraph(components, providers, transients), dep, pw, tw, built, local);
  }

  /** when nothing is chosen, an unqualified edge waits for all of them and a qualified one for nothing. */
  lemma ReadyWithoutChoice(components: seq<Component>, providers: seq<Provider>, transients: map<TypeId, Component>,
                           pw: Waits, tw: Waits, dep: Dependency, built: set<TypeId>)
    requires Tables(SortGraph(components, providers, transients), pw, tw)
    requires dep.cardinality.One? && Provided(providers, dep.ty) && !OnDemand(dep, providers, transients)
    requires forall i: nat :: !Choice(dep, providers, SortedOfTrait(dep.ty, Ids(components)), i)
    ensures DepReady(SortGraph(components, providers, transients), dep, pw, tw, built) <==>
              dep.qualifier.Some? ||
              forall i :: 0 <= i < |providers| && SortedOfTrait(dep.ty, Ids(components))(providers[i]) ==>
                providers[i].concreteTy in built
  {
    var pool := SortedOfTrait(dep.ty, Ids(components));
    var local := LocalProviders(components, providers, transients, dep);
    if SelectFor(dep, local).Some? {
      var i := PooledSelectedIsChoice(dep, providers, pool);
    }
    ReadyWithoutSelection(SortGraph(components, providers, transients), dep, pw, tw, built, local);
    WhereMembers(providers, pool);
  }

  /** The providers sorted here, and that no transient is selected. */
  lemma LocalProviders(components: seq<Component>, providers: seq<Provider>, transients: map<TypeId, Component>,
                       dep: Dependency) returns (local: seq<Provider>)
    requires Provided(providers, dep.ty) && !OnDemand(dep, providers, transients)
    ensures local == Where(providers, SortedOfTrait(dep.ty, Ids(components)))
    ensures LocalTo(SortGraph(components, providers, transients), dep, local)
  {
    GroupedProviders(components, providers, transients, dep.ty);
    SelectedOverall(dep, components, providers, transients);
    LocalIsWhere(providers, dep.ty, Ids(components));
    local := Where(providers, SortedOfTrait(dep.ty, Ids(components)));
  }

  ghost predicate LocalTo(g: Graph, dep: Dependency, local: seq<Provider>) {
    && dep.ty in g.providers && local == Local(g.providers[dep.ty], g.sortable)
    && (SelectFor(dep, g.providers[dep.ty]).Some? ==>
          SelectFor(dep, g.providers[dep.ty]).value.concreteTy !in g.transients)
  }

  lemma {:induction false} WhereMembers(providers: seq<Provider>, pool: Provider -> bool)
    ensures forall p :: p in Where(providers, pool) <==>
              exists i :: 0 <= i < |providers| && providers[i] == p && pool(p)
  {
    if providers != [] {
      var rest := providers[1..];
      WhereMembers(rest, pool);
      assert forall i :: 0 < i < |providers| ==> providers[i] == rest[i - 1];
      assert forall i :: 0 <= i < |rest| ==> rest[i] == providers[i + 1];
    }
  }

  /** Each provider sorted here waits for itself. */
  lemma LocalWaits(g: Graph, dep: Dependency, pw: Waits, tw: Waits, local: seq<Provider>)
    requires Tables(g, pw, tw) && LocalTo(g, dep, local)
    ensures forall p <- local :: p.concreteTy in pw && pw[p.concreteTy] == {p.concreteTy}
  {
    forall p <- local ensures p.concreteTy in pw && pw[p.concreteTy] == {p.concreteTy} {
      assert p in g.providers[dep.ty];
      assert Entry(g, Provide(p.concreteTy), pw[p.concreteTy]);
    }
  }

  lemma ReadyBySelection(g: Graph, dep: Dependency, pw: Waits, tw: Waits, built: set<TypeId>, local: seq<Provider>)
    requires Tables(g, pw, tw) && dep.cardinality.One? && LocalTo(g, dep, local) && SelectFor(dep, local).Some?
    ensures DepReady(g, dep, pw, tw, built) <==> SelectFor(dep, local).value.concreteTy in built
  {
    LocalWaits(g, dep, pw, tw, local);
    SelectionMeaning(dep, local);
    var c := SelectFor(dep, local).value.concreteTy;
    assert pw[c] == {c};
  }

  lemma ReadyWithoutSelection(g: Graph, dep: Dependency, pw: Waits, tw: Waits, built: set<TypeId>, local: seq<Provider>)
    requires Tables(g, pw, tw) && dep.cardinality.One? && LocalTo(g, dep, local) && SelectFor(dep, local).None?
    ensures DepReady(g, dep, pw, tw, built) <==> dep.qualifier.Some? || forall p <- local :: p.concreteTy in built
  {
    LocalWaits(g, dep, pw, tw, local);
  }

  // ---------------------------------------------------------------- what an order has built

  /** Only these edges gate: required, static, eager, and not to a configuration value. */
  ghost predicate GatesConstruction(c: Component, dep: Dependency) {
    dep in c.Dependencies() && !dep.optional && !dep.dynamic && !dep.config && dep.resolution == Eager
  }

  /** In an order found by the sort, each gating single-valued trait edge finds the provider it will capture
    * built: the choice among the providers sorted here, unless the trait's provider is constructed on
    * demand; and all of them if there is no choice and no qualifier. */
  lemma OrderHoldsChoice(components: seq<Component>, providers: seq<Provider>, transients: map<TypeId, Component>,
                         prebuilt: set<TypeId>, order: seq<Component>, pw: Waits, tw: Waits, k: nat, dep: Dependency)
    requires Tables(SortGraph(components, providers, transients), pw, tw)
    requires BuildOrder(SortGraph(components, providers, transients), order, pw, tw, prebuilt)
    requires k < |order| && GatesConstruction(order[k], dep) && dep.cardinality.One?
    requires Provided(providers, dep.ty) && !OnDemand(dep, providers, transients)
    ensures forall i: nat | Choice(dep, providers, SortedOfTrait(dep.ty, Ids(components)), i) ::
              providers[i].concreteTy in prebuilt + Ids(order[..k])
    ensures dep.qualifier.None?
              && (forall i: nat :: !Choice(dep, providers, SortedOfTrait(dep.ty, Ids(components)), i)) ==>
              forall i :: 0 <= i < |providers| && SortedOfTrait(dep.ty, Ids(components))(providers[i]) ==>
                providers[i].concreteTy in prebuilt + Ids(order[..k])
  {
    var g := SortGraph(components, providers, transients);
    var built := prebuilt + Ids(order[..k]);
    assert Ready(g, order[k], pw, tw, built) && dep in order[k].GatingDependencies();
    assert DepReady(g, dep, pw, tw, built);
    var pool := SortedOfTrait(dep.ty, Ids(components));
    forall i: nat | Choice(dep, providers, pool, i) ensures providers[i].concreteTy in built {
      ReadyByChoice(components, providers, transients, pw, tw, dep, built, i);
    }
    if forall i: nat :: !Choice(dep, providers, pool, i) {
      ReadyWithoutChoice(components, providers, transients, pw, tw, dep, built);
    }
  }

  /** Where the provider is constructed on demand and no expansion cycle is in reach, everything its recipe
    * needs is built instead. */
  lemma OrderHoldsRecipe(components: seq<Component>, providers: seq<Provider>, transients: map<TypeId, Component>,
                         prebuilt: set<TypeId>, order: seq<Component>, pw: Waits, tw: Waits, k: nat, dep: Dependency,
                         i: nat, x: TypeId)
    requires Tables(SortGraph(components, providers, transients), pw, tw)
    requires CycleFreeGraph(SortGraph(components, providers, transients))
    requires BuildOrder(SortGraph(components, providers, transients), order, pw, tw, prebuilt)
    requires k < |order| && GatesConstruction(order[k], dep) && dep.cardinality.One?
    requires Choice(dep, providers, OfTrait(dep.ty), i) && providers[i].concreteTy in transients
    requires Gates(SortGraph(components, providers, transients), Provide(providers[i].concreteTy), x)
    ensures x in prebuilt + Ids(order[..k])
  {
    var g := SortGraph(components, providers, transients);
    GroupedProviders(components, providers, transients, dep.ty);
    PooledChoiceIsSelected(dep, providers, OfTrait(dep.ty), i);
    assert dep in order[k].GatingDependencies();
    assert EdgeTargets(g, dep, g.providers[dep.ty]) == {providers[i].concreteTy};
    assert EdgeGates(g, dep, x);
    CycleFreeGraphIsSettled(g, dep);
    OrderSatisfiesEdges(g, order, pw, tw, prebuilt, k, dep);
  }

  /** A collection or keyed edge finds every provider of its trait that is sorted here. */
  lemma OrderHoldsAll(components: seq<Component>, providers: seq<Provider>, transients: map<TypeId, Component>,
                      prebuilt: set<TypeId>, order: seq<Component>, pw: Waits, tw: Waits, k: nat, dep: Dependency,
                      i: nat)
    requires Tables(SortGraph(components, providers, transients), pw, tw)
    requires BuildOrder(SortGraph(components, providers, transients), order, pw, tw, prebuilt)
    requires k < |order| && GatesConstruction(order[k], dep) && !dep.cardinality.One?
    requires i < |providers| && SortedOfTrait(dep.ty, Ids(components))(providers[i])
    ensures providers[i].concreteTy in prebuilt + Ids(order[..k])
  {
    var g := SortGraph(components, providers, transients);
    GroupedProviders(components, providers, transients, dep.ty);
    WhereMembers(providers, OfTrait(dep.ty));
    assert dep in order[k].GatingDependencies();
    OrderSatisfiesEdges(g, order, pw, tw, prebuilt, k, dep);
  }

  // ---------------------------------------------------------------- what never gates

  /** Components all of whose edges are optional, dynamic, to configuration values or not eager can always be
    * ordered. */
  lemma FreeComponentsAreOrdered(components: seq<Component>, providers: seq<Provider>,
                                 transients: map<TypeId, Component>, prebuilt: set<TypeId>, pw: Waits, tw: Waits)
    requires forall c <- components, dep <- c.Dependencies() ::
               dep.optional || dep.dynamic || dep.config || dep.resolution != Eager
    ensures CanBeOrdered(SortGraph(components, providers, transients), components, pw, tw, prebuilt)
  {
    var g := SortGraph(components, providers, transients);
    forall i | 0 <= i < |components| ensures Ready(g, components[i], pw, tw, prebuilt + Ids(components[..i])) {
      assert components[i] in components;
      assert components[i].GatingDependencies() == {};
    }
    assert BuildOrder(g, components, pw, tw, prebuilt);
  }

  // ---------------------------------------------------------------- what a recipe needs

  /** The wait relation, rule by rule. A sorted type is waited for itself; a transient for what its recipe
    * needs; a trait for what its providers need. */
  lemma GateRules(g: Graph, c: TypeId, t: TypeId, x: TypeId)
    ensures Gates(g, Provide(c), x) <==>
              if c in g.sortable then x == c else c in g.transients && Gates(g, Recipe(g.transients[c]), x)
    ensures Gates(g, Trait(t), x) <==>
              t in g.providers && exists p <- g.providers[t] :: Gates(g, Provide(p.concreteTy), x)
  {
    if Gates(g, Provide(c), x) {
      GatesSplit(g, Provide(c), x);
    } else if c in g.sortable && x == c {
      GatesHere(g, Provide(c), x);
    } else if c !in g.sortable && c in g.transients && Gates(g, Recipe(g.transients[c]), x) {
      GatesVia(g, Provide(c), Recipe(g.transients[c]), x);
    }
    if Gates(g, Trait(t), x) {
      GatesSplit(g, Trait(t), x);
    } else if t in g.providers {
      forall p <- g.providers[t] ensures !Gates(g, Provide(p.concreteTy), x) {
        if Gates(g, Provide(p.concreteTy), x) {
          GatesVia(g, Trait(t), Provide(p.concreteTy), x);
        }
      }
    }
  }

  /** What one gating edge of a recipe needs: a sorted type itself; for a trait, what the single choice or
    * every provider needs; for another transient by its own type, what its recipe needs. */
  ghost predicate EdgeNeeds(g: Graph, dep: Dependency, x: TypeId) {
    if dep.ty in g.sortable then x == dep.ty
    else if dep.ty in g.providers then
      if dep.cardinality.One? then exists c <- EdgeTargets(g, dep, g.providers[dep.ty]) :: Gates(g, Provide(c), x)
      else exists p <- g.providers[dep.ty] :: Gates(g, Provide(p.concreteTy), x)
    else dep.ty in g.transients && Gates(g, Recipe(g.transients[dep.ty]), x)
  }

  lemma RecipeRule(g: Graph, recipe: Component, x: TypeId)
    ensures Gates(g, Recipe(recipe), x) <==> exists dep :: GatesConstruction(recipe, dep) && EdgeNeeds(g, dep, x)
  {
    if Gates(g, Recipe(recipe), x) {
      GatesSplit(g, Recipe(recipe), x);
      if x in Direct(g, Recipe(recipe)) {
        var dep :| dep in recipe.GatingDependencies() && dep.ty in g.sortable && dep.ty == x;
        assert GatesConstruction(recipe, dep) && EdgeNeeds(g, dep, x);
      } else {
        var m :| m in Next(g, Recipe(recipe)) && Gates(g, m, x);
        var dep :| dep in recipe.GatingDependencies() && m in EdgeNext(g, dep);
        if m.Trait? {
          GateRules(g, 0, dep.ty, x);
        }
        assert GatesConstruction(recipe, dep) && EdgeNeeds(g, dep, x);
      }
    }
    if dep :| GatesConstruction(recipe, dep) && EdgeNeeds(g, dep, x) {
      EdgeNeedsGates(g, recipe, dep, x);
    }
  }

  lemma EdgeNeedsGates(g: Graph, recipe: Component, dep: Dependency, x: TypeId)
    requires GatesConstruction(recipe, dep) && EdgeNeeds(g, dep, x)
    ensures Gates(g, Recipe(recipe), x)
  {
    assert dep in recipe.GatingDependencies();
    if dep.ty in g.sortable {
      GatesHere(g, Recipe(recipe), x);
    } else {
      var m: Node;
      if dep.ty in g.providers && dep.cardinality.One? {
        var c :| c in EdgeTargets(g, dep, g.providers[dep.ty]) && Gates(g, Provide(c), x);
        m := Provide(c);
      } else if dep.ty in g.providers {
        GateRules(g, 0, dep.ty, x);
        m := Trait(dep.ty);
      } else {
        m := Recipe(g.transients[dep.ty]);
      }
      assert m in EdgeNext(g, dep) && m in Next(g, Recipe(recipe));
      GatesVia(g, Recipe(recipe), m, x);
    }
  }
}

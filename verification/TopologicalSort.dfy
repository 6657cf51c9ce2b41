/** The greedy construction order: sound, complete, and stuck only on what nothing can build. */
module TopologicalSort {
  import opened Common
  import opened DependencyGraph
  import opened ExpansionGraph
  import W = WaitExpansion

  type Waits = map<TypeId, set<TypeId>>

  function ProvidersOf(providers: seq<Provider>, t: TypeId): seq<Provider> {
    if providers == [] then []
    else ProvidersOf(providers[..|providers| - 1], t) + OneProvider(providers[|providers| - 1], t)
  }

  function OneProvider(p: Provider, t: TypeId): seq<Provider> {
    if p.traitTy == t then [p] else []
  }

  function Traits(providers: seq<Provider>): set<TypeId> {
    set p <- providers :: p.traitTy
  }

  function ByTrait(providers: seq<Provider>): map<TypeId, seq<Provider>> {
    map t <- Traits(providers) :: ProvidersOf(providers, t)
  }

  /** A trait's providers are exactly the registered ones for it. */
  lemma {:induction false} ProvidersOfMeaning(providers: seq<Provider>, t: TypeId)
    ensures forall p :: p in ProvidersOf(providers, t) <==> p in providers && p.traitTy == t
    ensures ProvidersOf(providers, t) != [] <==> t in Traits(providers)
  {
    if providers != [] {
      var last := |providers| - 1;
      ProvidersOfMeaning(providers[..last], t);
      assert providers == providers[..last] + [providers[last]];
      assert forall p :: p in providers <==> p in providers[..last] || p == providers[last];
    }
  }

  lemma TraitsStep(a: seq<Provider>, p: Provider)
    ensures Traits(a + [p]) == Traits(a) + {p.traitTy}
  {
    assert forall q :: q in a + [p] <==> q in a || q == p;
  }

  lemma ProvidersOfStep(a: seq<Provider>, p: Provider, t: TypeId)
    ensures ProvidersOf(a + [p], t) == ProvidersOf(a, t) + OneProvider(p, t)
  {
    assert (a + [p])[..|a|] == a;
  }

  lemma ByTraitStep(a: seq<Provider>, p: Provider, before: seq<Provider>)
    requires before == if p.traitTy in ByTrait(a) then ByTrait(a)[p.traitTy] else []
    ensures ByTrait(a + [p]) == ByTrait(a)[p.traitTy := before + [p]]
  {
    var longer := ByTrait(a + [p]);
    TraitsStep(a, p);
    ProvidersOfMeaning(a, p.traitTy);
    forall t <- longer ensures longer[t] == ByTrait(a)[p.traitTy := before + [p]][t] {
      ProvidersOfStep(a, p, t);
    }
  }

  /** Groups the providers by trait, keeping registration order within each trait. */
  method GroupByTrait(providers: seq<Provider>) returns (grouped: map<TypeId, seq<Provider>>)
    ensures grouped == ByTrait(providers)
  {
    grouped := map[];
    for i := 0 to |providers|
      invariant grouped == ByTrait(providers[..i])
    {
      var p := providers[i];
      var before := if p.traitTy in grouped then grouped[p.traitTy] else [];
      ByTraitStep(providers[..i], p, before);
      assert providers[..i + 1] == providers[..i] + [p];
      grouped := grouped[p.traitTy := before + [p]];
    }
    assert providers[..|providers|] == providers;
  }

  // ---------------------------------------------------------------- the precomputed wait tables

  function AllConcretes(g: Graph): set<TypeId> {
    set t <- g.providers, p <- g.providers[t] :: p.concreteTy
  }

  /** One wait table entry: never too much; exact wherever no expansion cycle is in reach; and, on
    * every graph, holding the sorted providers themselves. */
  ghost predicate Entry(g: Graph, node: Node, waits: set<TypeId>) {
    && Sound(g, node, waits)
    && (Settled(g, node) ==> Complete(g, node, waits))
    && (node.Provide? && node.concrete in g.sortable ==> waits == {node.concrete})
    && (node.Trait? && node.ty in g.providers ==> Concretes(Local(g.providers[node.ty], g.sortable)) <= waits)
  }

  ghost predicate Tables(g: Graph, pw: Waits, tw: Waits) {
    && pw.Keys == AllConcretes(g) && tw.Keys == g.providers.Keys
    && (forall c <- pw :: Entry(g, Provide(c), pw[c]))
    && (forall t <- tw :: Entry(g, Trait(t), tw[t]))
  }

  datatype WaitTables = WaitTables(byProvider: Waits, byTrait: Waits)

  /** The tables that the wait relation itself defines. */
  ghost function FullTables(g: Graph): WaitTables {
    WaitTables(map c | c in AllConcretes(g) :: GateSet(g, Provide(c)),
               map t | t in g.providers.Keys :: GateSet(g, Trait(t)))
  }

  ghost function GateSet(g: Graph, node: Node): set<TypeId> {
    set x | x in g.sortable && Gates(g, node, x)
  }

  /** They are tables, so tables exist for every graph. */
  lemma FullTablesAreTables(g: Graph)
    ensures Tables(g, FullTables(g).byProvider, FullTables(g).byTrait)
  {
    forall c <- AllConcretes(g) ensures Entry(g, Provide(c), GateSet(g, Provide(c))) {
      GateSetIsEntry(g, Provide(c));
    }
    forall t <- g.providers ensures Entry(g, Trait(t), GateSet(g, Trait(t))) {
      GateSetIsEntry(g, Trait(t));
    }
  }

  lemma GateSetIsEntry(g: Graph, node: Node)
    requires !node.Recipe?
    ensures Entry(g, node, GateSet(g, node))
  {
    forall x | Gates(g, node, x) ensures x in g.sortable {
      var steps: nat :| GatesWithin(g, node, x, steps);
      GatesAreSortable(g, node, x, steps);
    }
    if node.Provide? && node.concrete in g.sortable {
      GatesHere(g, node, node.concrete);
      forall x | Gates(g, node, x) ensures x == node.concrete {
        GatesSplit(g, node, x);
      }
    } else if node.Trait? && node.ty in g.providers {
      forall c <- Concretes(Local(g.providers[node.ty], g.sortable)) ensures Gates(g, node, c) {
        GatesHere(g, Provide(c), c);
        GatesVia(g, node, Provide(c), c);
      }
    }
  }

  /** The expansion between two top-level queries. */
  ghost predicate Idle(expansion: W.WaitExpansion, g: Graph)
    reads expansion
  {
    expansion.Valid() && expansion.g == g && expansion.rank == CycleFreeRank(g) && expansion.visiting == {}
  }

  /** `pw` is what the expansion has memoised. */
  ghost predicate Memoised(expansion: W.WaitExpansion, pw: Waits)
    reads expansion
  {
    forall c <- pw :: c in expansion.providerMemo && expansion.providerMemo[c] == pw[c]
  }

  method ComputeProviderWaits(g: Graph, expansion: W.WaitExpansion) returns (pw: Waits)
    requires Idle(expansion, g)
    modifies expansion
    ensures Idle(expansion, g) && Memoised(expansion, pw)
    ensures pw.Keys == AllConcretes(g) && forall c <- pw :: Entry(g, Provide(c), pw[c])
  {
    var pending := AllConcretes(g);
    pw := map[];
    while pending != {}
      invariant Idle(expansion, g) && Memoised(expansion, pw)
      invariant pw.Keys == AllConcretes(g) - pending && pending <= AllConcretes(g)
      invariant forall c <- pw :: Entry(g, Provide(c), pw[c])
      decreases pending
    {
      var c :| c in pending;
      var waits := expansion.ProviderWaits(c);
      if Settled(g, Provide(c)) {
        SettledIsRanked(g, Provide(c));
      }
      pw := pw[c := waits];
      pending := pending - {c};
    }
  }

  method ComputeTraitWaits(g: Graph, expansion: W.WaitExpansion, ghost pw: Waits) returns (tw: Waits)
    requires Idle(expansion, g) && Memoised(expansion, pw)
    modifies expansion
    ensures Idle(expansion, g) && Memoised(expansion, pw)
    ensures tw.Keys == g.providers.Keys && forall t <- tw :: Entry(g, Trait(t), tw[t])
  {
    var pending := g.providers.Keys;
    tw := map[];
    while pending != {}
      invariant Idle(expansion, g) && Memoised(expansion, pw)
      invariant tw.Keys == g.providers.Keys - pending && pending <= g.providers.Keys
      invariant forall t <- tw :: Entry(g, Trait(t), tw[t])
      decreases pending
    {
      var t :| t in pending;
      var waits := expansion.TraitWaits(t);
      if Settled(g, Trait(t)) {
        SettledIsRanked(g, Trait(t));
      }
      tw := tw[t := waits];
      pending := pending - {t};
    }
  }

  /** Precomputes every wait set, querying providers and then traits in an arbitrary order. */
  method ComputeWaits(g: Graph) returns (expansion: W.WaitExpansion, pw: Waits, tw: Waits)
    requires g.WellKeyed()
    ensures Tables(g, pw, tw)
    ensures fresh(expansion) && Idle(expansion, g) && Memoised(expansion, pw)
  {
    CycleFreeRankIsRanking(g);
    expansion := new W.WaitExpansion(g, CycleFreeRank(g));
    pw := ComputeProviderWaits(g, expansion);
    tw := ComputeTraitWaits(g, expansion, pw);
  }

  // ---------------------------------------------------------------- readiness

  /** A missing table entry imposes nothing. */
  predicate WaitsBuilt(waits: Waits, key: TypeId, built: set<TypeId>) {
    key in waits ==> waits[key] <= built
  }

  /** `dep_ready`. */
  predicate DepReady(g: Graph, dep: Dependency, pw: Waits, tw: Waits, built: set<TypeId>) {
    if dep.ty !in g.providers then
      dep.cardinality.One? ==> dep.ty in built
    else if !dep.cardinality.One? then
      WaitsBuilt(tw, dep.ty, built)
    else
      var providers := g.providers[dep.ty];
      var selected := SelectFor(dep, providers);
      if selected.Some? && selected.value.concreteTy in g.transients then
        WaitsBuilt(pw, selected.value.concreteTy, built)
      else
        var local := Local(providers, g.sortable);
        match SelectFor(dep, local)
        case Some(provider) => WaitsBuilt(pw, provider.concreteTy, built)
        case None =>
          dep.qualifier.None? ==> forall p <- local :: WaitsBuilt(pw, p.concreteTy, built)
  }

  lemma ReadyMeansTargets(g: Graph, dep: Dependency, pw: Waits, tw: Waits, built: set<TypeId>)
    requires pw.Keys == AllConcretes(g) && dep.cardinality.One? && dep.ty in g.providers
    ensures EdgeTargets(g, dep, g.providers[dep.ty]) <= pw.Keys
    ensures DepReady(g, dep, pw, tw, built) <==> forall c <- EdgeTargets(g, dep, g.providers[dep.ty]) :: pw[c] <= built
  {
    TargetsAreProviders(g, dep);
    var local := Local(g.providers[dep.ty], g.sortable);
    assert forall p <- local :: p.concreteTy in Concretes(local);
  }

  /** The readiness rule and the wait-set rule for single-valued edges, written separately, agree: an
    * edge is ready exactly when everything `SingleEdgeWaits` returns for it is built. */
  lemma SingleEdgeRulesAgree(g: Graph, dep: Dependency, pw: Waits, tw: Waits, built: set<TypeId>, waits: set<TypeId>)
    requires pw.Keys == AllConcretes(g) && dep.cardinality.One? && dep.ty in g.providers
    requires forall c <- EdgeTargets(g, dep, g.providers[dep.ty]) :: c in pw && pw[c] <= waits
    requires forall x <- waits :: exists c <- EdgeTargets(g, dep, g.providers[dep.ty]) :: c in pw && x in pw[c]
    ensures DepReady(g, dep, pw, tw, built) <==> waits <= built
  {
    ReadyMeansTargets(g, dep, pw, tw, built);
  }

  lemma TargetsAreProviders(g: Graph, dep: Dependency)
    requires dep.ty in g.providers
    ensures forall c <- EdgeTargets(g, dep, g.providers[dep.ty]) :: c in AllConcretes(g)
  {
    var providers := g.providers[dep.ty];
    SelectionMeaning(dep, providers);
    SelectionMeaning(dep, Local(providers, g.sortable));
    forall c <- EdgeTargets(g, dep, providers) ensures c in AllConcretes(g) {
      assert exists p <- providers :: p.concreteTy == c;
    }
  }

  /** The same, of the code: once the tables are computed, `SingleEdgeWaits` answers the union of the memoised
    * waits of the edge's targets, and that is what readiness checks, whatever has been built. */
  method SingleEdgeWaitsAreReadiness(g: Graph, dep: Dependency)
    returns (expansion: W.WaitExpansion, waits: set<TypeId>, pw: Waits, tw: Waits)
    requires g.WellKeyed() && dep.cardinality.One? && dep.ty in g.providers
    ensures Tables(g, pw, tw) && Idle(expansion, g) && Memoised(expansion, pw)
    ensures expansion.Union(EdgeTargets(g, dep, g.providers[dep.ty]), waits)
    ensures forall built: set<TypeId> :: DepReady(g, dep, pw, tw, built) <==> waits <= built
  {
    expansion, pw, tw := ComputeWaits(g);
    TargetsAreProviders(g, dep);
    waits := expansion.SingleEdgeWaits(dep, g.providers[dep.ty]);
    forall built: set<TypeId> {
      SingleEdgeRulesAgree(g, dep, pw, tw, built, waits);
    }
  }

  /** What an edge declaratively waits for. */
  ghost predicate EdgeGates(g: Graph, dep: Dependency, x: TypeId) {
    if dep.ty !in g.providers then dep.cardinality.One? && x == dep.ty
    else if dep.cardinality.One? then exists c <- EdgeTargets(g, dep, g.providers[dep.ty]) :: Gates(g, Provide(c), x)
    else Gates(g, Trait(dep.ty), x)
  }

  ghost predicate EdgeSettled(g: Graph, dep: Dependency) {
    dep.ty in g.providers ==>
      if dep.cardinality.One? then forall c <- EdgeTargets(g, dep, g.providers[dep.ty]) :: Settled(g, Provide(c))
      else Settled(g, Trait(dep.ty))
  }

  /** Readiness says what it should: never more than the edge waits for, and all of it where no
    * expansion cycle is in reach. */
  lemma ReadinessMeaning(g: Graph, dep: Dependency, pw: Waits, tw: Waits, built: set<TypeId>)
    requires Tables(g, pw, tw)
    ensures (forall x | EdgeGates(g, dep, x) :: x in built) ==> DepReady(g, dep, pw, tw, built)
    ensures EdgeSettled(g, dep) ==> (DepReady(g, dep, pw, tw, built) <==> forall x | EdgeGates(g, dep, x) :: x in built)
  {
    if dep.ty in g.providers && dep.cardinality.One? {
      ReadyMeansTargets(g, dep, pw, tw, built);
      forall c <- EdgeTargets(g, dep, g.providers[dep.ty]), x <- pw[c] ensures EdgeGates(g, dep, x) {
        assert Entry(g, Provide(c), pw[c]);
      }
      forall c <- EdgeTargets(g, dep, g.providers[dep.ty]) | EdgeSettled(g, dep)
        ensures Complete(g, Provide(c), pw[c])
      {
        assert Entry(g, Provide(c), pw[c]);
      }
    } else if dep.ty in g.providers {
      assert Entry(g, Trait(dep.ty), tw[dep.ty]);
    } else if dep.cardinality.One? {
      assert EdgeGates(g, dep, dep.ty);
    }
  }

  // ---------------------------------------------------------------- the sort

  predicate Ready(g: Graph, c: Component, pw: Waits, tw: Waits, built: set<TypeId>) {
    forall dep <- c.GatingDependencies() :: DepReady(g, dep, pw, tw, built)
  }

  /** Each component is ready against what is prebuilt and what comes before it. */
  ghost predicate BuildOrder(g: Graph, order: seq<Component>, pw: Waits, tw: Waits, prebuilt: set<TypeId>) {
    forall i :: 0 <= i < |order| ==> Ready(g, order[i], pw, tw, prebuilt + Ids(order[..i]))
  }

  lemma ReadyMonotone(g: Graph, c: Component, pw: Waits, tw: Waits, built: set<TypeId>, more: set<TypeId>)
    requires Ready(g, c, pw, tw, built) && built <= more
    ensures Ready(g, c, pw, tw, more)
  {
  }

  lemma BuildOrderPrefix(g: Graph, order: seq<Component>, n: nat, pw: Waits, tw: Waits, prebuilt: set<TypeId>)
    requires n <= |order| && BuildOrder(g, order, pw, tw, prebuilt)
    ensures BuildOrder(g, order[..n], pw, tw, prebuilt)
  {
    forall i | 0 <= i < n ensures Ready(g, order[..n][i], pw, tw, prebuilt + Ids(order[..n][..i])) {
      assert order[..n][..i] == order[..i];
      assert Ready(g, order[i], pw, tw, prebuilt + Ids(order[..i]));
    }
  }

  /** If nothing in `stuck` is ready once everything else is built, then no build order over the same
    * components contains any of it, however it is arranged. */
  lemma {:induction false} StuckIsStuck(g: Graph, pw: Waits, tw: Waits, prebuilt: set<TypeId>,
                                        result: seq<Component>, stuck: seq<Component>, other: seq<Component>)
    requires forall c <- stuck :: !Ready(g, c, pw, tw, prebuilt + Ids(result))
    requires forall c <- other :: c in result || c in stuck
    requires BuildOrder(g, other, pw, tw, prebuilt)
    ensures forall c <- other :: c !in stuck && c in result
  {
    if other != [] {
      var last := |other| - 1;
      BuildOrderPrefix(g, other, last, pw, tw, prebuilt);
      MembersSnoc(other);
      StuckIsStuck(g, pw, tw, prebuilt, result, stuck, other[..last]);
      StuckStep(g, pw, tw, prebuilt, result, stuck, other[..last], other[last]);
    }
  }

  lemma StuckStep(g: Graph, pw: Waits, tw: Waits, prebuilt: set<TypeId>,
                  result: seq<Component>, stuck: seq<Component>, built: seq<Component>, c: Component)
    requires c in stuck ==> !Ready(g, c, pw, tw, prebuilt + Ids(result))
    requires forall d <- built :: d in result
    requires Ready(g, c, pw, tw, prebuilt + Ids(built))
    ensures c !in stuck
  {
    IdsMonotone(built, result);
    ReadyMonotone(g, c, pw, tw, prebuilt + Ids(built), prebuilt + Ids(result));
  }

  lemma MembersSnoc(s: seq<Component>)
    requires s != []
    ensures forall c :: c in s <==> c in s[..|s| - 1] || c == s[|s| - 1]
  {
    assert s == s[..|s| - 1] + [s[|s| - 1]];
  }

  lemma IdsMonotone(a: seq<Component>, b: seq<Component>)
    requires forall c <- a :: c in b
    ensures Ids(a) <= Ids(b)
  {
  }

  /** One `retain` pass as a function of the tables: the longer order and what is kept, in order. */
  function Retain(g: Graph, remaining: seq<Component>, order: seq<Component>, prebuilt: set<TypeId>, pw: Waits,
                  tw: Waits)
    : (seq<Component>, seq<Component>)
    decreases |remaining|
  {
    if remaining == [] then (order, [])
    else if Ready(g, remaining[0], pw, tw, prebuilt + Ids(order)) then
      Retain(g, remaining[1..], order + [remaining[0]], prebuilt, pw, tw)
    else
      var (longer, kept) := Retain(g, remaining[1..], order, prebuilt, pw, tw);
      (longer, [remaining[0]] + kept)
  }

  /** The greedy loop as a function of the tables: the order found, and what is stuck. */
  function Greedy(g: Graph, remaining: seq<Component>, order: seq<Component>, prebuilt: set<TypeId>, pw: Waits,
                  tw: Waits)
    : (seq<Component>, seq<Component>)
    decreases |remaining|
  {
    if remaining == [] then (order, [])
    else
      var (longer, kept) := Retain(g, remaining, order, prebuilt, pw, tw);
      if |kept| >= |remaining| then (order, remaining) else Greedy(g, kept, longer, prebuilt, pw, tw)
  }

  /** One `retain` pass: what is ready moves to the order at once, the rest is kept. A pass that
    * keeps everything found nothing ready. */
  method RetainPass(g: Graph, remaining: seq<Component>, order: seq<Component>, prebuilt: set<TypeId>, pw: Waits,
                    tw: Waits)
    returns (longer: seq<Component>, kept: seq<Component>)
    requires BuildOrder(g, order, pw, tw, prebuilt)
    ensures (longer, kept) == Retain(g, remaining, order, prebuilt, pw, tw)
    ensures multiset(longer) + multiset(kept) == multiset(order) + multiset(remaining)
    ensures BuildOrder(g, longer, pw, tw, prebuilt)
    ensures |kept| <= |remaining|
    ensures |kept| == |remaining| ==> longer == order && kept == remaining
    ensures |kept| == |remaining| ==> forall c <- kept :: !Ready(g, c, pw, tw, prebuilt + Ids(order))
  {
    longer, kept := order, [];
    var rest := remaining;
    KeptBefore([], Retain(g, remaining, order, prebuilt, pw, tw));
    while rest != []
      invariant KeptThen(kept, Retain(g, rest, longer, prebuilt, pw, tw))
                == Retain(g, remaining, order, prebuilt, pw, tw)
      invariant Retained(g, remaining, order, prebuilt, pw, tw, longer, kept, rest)
      decreases |rest|
    {
      var c := rest[0];
      assert rest == [c] + rest[1..];
      rest := rest[1..];
      RetainUnfolds(g, c, rest, longer, kept, prebuilt, pw, tw);
      if Ready(g, c, pw, tw, prebuilt + Ids(longer)) {
        RetainMoves(g, remaining, order, prebuilt, pw, tw, longer, kept, c, rest);
        longer := longer + [c];
      } else {
        RetainKeeps(g, remaining, order, prebuilt, pw, tw, longer, kept, c, rest);
        kept := kept + [c];
      }
    }
    assert kept + [] == kept;
  }

  /** What `rest` contributes to a pass that has kept `kept` so far. */
  function KeptThen(kept: seq<Component>, pass: (seq<Component>, seq<Component>)): (seq<Component>, seq<Component>) {
    (pass.0, kept + pass.1)
  }

  lemma KeptBefore(kept: seq<Component>, pass: (seq<Component>, seq<Component>))
    ensures KeptThen([], pass) == pass
    ensures forall c :: KeptThen(kept, (pass.0, [c] + pass.1)) == KeptThen(kept + [c], pass)
  {
    assert [] + pass.1 == pass.1;
    forall c ensures KeptThen(kept, (pass.0, [c] + pass.1)) == KeptThen(kept + [c], pass) {
      assert kept + ([c] + pass.1) == kept + [c] + pass.1;
    }
  }

  /** The state of a pass that has `rest` still to look at. */
  ghost predicate Retained(g: Graph, remaining: seq<Component>, order: seq<Component>, prebuilt: set<TypeId>,
                           pw: Waits, tw: Waits, longer: seq<Component>, kept: seq<Component>, rest: seq<Component>)
  {
    && multiset(longer) + multiset(kept) + multiset(rest) == multiset(order) + multiset(remaining)
    && BuildOrder(g, longer, pw, tw, prebuilt)
    && |kept| + |rest| <= |remaining|
    && (|kept| + |rest| == |remaining| ==> longer == order && kept + rest == remaining)
    && (|kept| + |rest| == |remaining| ==> forall c <- kept :: !Ready(g, c, pw, tw, prebuilt + Ids(order)))
  }

  lemma RetainMoves(g: Graph, remaining: seq<Component>, order: seq<Component>, prebuilt: set<TypeId>,
                    pw: Waits, tw: Waits, longer: seq<Component>, kept: seq<Component>, c: Component,
                    rest: seq<Component>)
    requires Retained(g, remaining, order, prebuilt, pw, tw, longer, kept, [c] + rest)
    requires Ready(g, c, pw, tw, prebuilt + Ids(longer))
    ensures Retained(g, remaining, order, prebuilt, pw, tw, longer + [c], kept, rest)
  {
    MultisetMove(longer, kept, c, rest);
    BuildOrderAppend(g, longer, c, pw, tw, prebuilt);
  }

  lemma RetainKeeps(g: Graph, remaining: seq<Component>, order: seq<Component>, prebuilt: set<TypeId>,
                    pw: Waits, tw: Waits, longer: seq<Component>, kept: seq<Component>, c: Component,
                    rest: seq<Component>)
    requires Retained(g, remaining, order, prebuilt, pw, tw, longer, kept, [c] + rest)
    requires !Ready(g, c, pw, tw, prebuilt + Ids(longer))
    ensures Retained(g, remaining, order, prebuilt, pw, tw, longer, kept + [c], rest)
  {
    MultisetMove(longer, kept, c, rest);
    assert kept + ([c] + rest) == kept + [c] + rest;
  }

  /** What the next component does to the pass as a function. */
  lemma RetainUnfolds(g: Graph, c: Component, rest: seq<Component>, longer: seq<Component>, kept: seq<Component>,
                      prebuilt: set<TypeId>, pw: Waits, tw: Waits)
    ensures KeptThen(kept, Retain(g, [c] + rest, longer, prebuilt, pw, tw)) ==
              if Ready(g, c, pw, tw, prebuilt + Ids(longer))
              then KeptThen(kept, Retain(g, rest, longer + [c], prebuilt, pw, tw))
              else KeptThen(kept + [c], Retain(g, rest, longer, prebuilt, pw, tw))
  {
    assert ([c] + rest)[1..] == rest;
    KeptBefore(kept, Retain(g, rest, longer, prebuilt, pw, tw));
  }

  lemma MultisetMove(longer: seq<Component>, kept: seq<Component>, c: Component, rest: seq<Component>)
    ensures multiset(longer + [c]) + multiset(kept) + multiset(rest)
            == multiset(longer) + multiset(kept) + multiset([c] + rest)
    ensures multiset(longer) + multiset(kept + [c]) + multiset(rest)
            == multiset(longer) + multiset(kept) + multiset([c] + rest)
  {
  }

  /** No build order over `components` touches `stuck`. */
  ghost predicate Unbuildable(g: Graph, components: seq<Component>, stuck: seq<Component>, pw: Waits, tw: Waits,
                              prebuilt: set<TypeId>) {
    forall other: seq<Component> | (forall c <- other :: c in components) && BuildOrder(g, other, pw, tw, prebuilt) ::
      forall c <- other :: c !in stuck
  }

  /** The greedy loop: it splits the components into a build order and a rest that no build order over
    * these components, however arranged, can touch. */
  method GreedyOrder(g: Graph, components: seq<Component>, prebuilt: set<TypeId>, pw: Waits, tw: Waits)
    returns (order: seq<Component>, stuck: seq<Component>)
    ensures (order, stuck) == Greedy(g, components, [], prebuilt, pw, tw)
    ensures multiset(order) + multiset(stuck) == multiset(components)
    ensures BuildOrder(g, order, pw, tw, prebuilt)
    ensures Unbuildable(g, components, stuck, pw, tw, prebuilt)
  {
    order := [];
    var remaining := components;
    while remaining != []
      invariant Greedy(g, remaining, order, prebuilt, pw, tw) == Greedy(g, components, [], prebuilt, pw, tw)
      invariant multiset(order) + multiset(remaining) == multiset(components)
      invariant BuildOrder(g, order, pw, tw, prebuilt)
      decreases |remaining|
    {
      var longer, kept := RetainPass(g, remaining, order, prebuilt, pw, tw);
      if |kept| == |remaining| {
        StuckIsUnbuildable(g, components, pw, tw, prebuilt, order, remaining);
        return order, remaining;
      }
      order, remaining := longer, kept;
    }
    stuck := [];
  }

  lemma StuckIsUnbuildable(g: Graph, components: seq<Component>, pw: Waits, tw: Waits, prebuilt: set<TypeId>,
                           result: seq<Component>, stuck: seq<Component>)
    requires multiset(result) + multiset(stuck) == multiset(components)
    requires forall c <- stuck :: !Ready(g, c, pw, tw, prebuilt + Ids(result))
    ensures Unbuildable(g, components, stuck, pw, tw, prebuilt)
  {
    forall c <- components ensures c in result || c in stuck {
      assert c in multiset(components);
    }
    forall other: seq<Component> | (forall c <- other :: c in components) && BuildOrder(g, other, pw, tw, prebuilt)
      ensures forall c <- other :: c !in stuck
    {
      StuckIsStuck(g, pw, tw, prebuilt, result, stuck, other);
    }
  }

  lemma BuildOrderAppend(g: Graph, order: seq<Component>, c: Component, pw: Waits, tw: Waits, prebuilt: set<TypeId>)
    requires BuildOrder(g, order, pw, tw, prebuilt)
    requires Ready(g, c, pw, tw, prebuilt + Ids(order))
    ensures BuildOrder(g, order + [c], pw, tw, prebuilt)
  {
    var longer := order + [c];
    forall i | 0 <= i < |longer| ensures Ready(g, longer[i], pw, tw, prebuilt + Ids(longer[..i])) {
      assert longer[..i] == order[..i];
      assert order[..|order|] == order;
    }
  }

  function SortGraph(components: seq<Component>, providers: seq<Provider>, transients: map<TypeId, Component>): Graph {
    Graph(ByTrait(providers), transients, Ids(components))
  }

  /** Some permutation of the components is a build order. */
  ghost predicate CanBeOrdered(g: Graph, components: seq<Component>, pw: Waits, tw: Waits, prebuilt: set<TypeId>) {
    exists order: seq<Component> :: multiset(order) == multiset(components) && BuildOrder(g, order, pw, tw, prebuilt)
  }

  /** The outcome of the sort as a function of the tables. */
  function Sorted(g: Graph, components: seq<Component>, prebuilt: set<TypeId>, pw: Waits, tw: Waits)
    : Result<seq<Component>, DiError>
  {
    var (order, stuck) := Greedy(g, components, [], prebuilt, pw, tw);
    if stuck == [] then Ok(order) else Err(DependencyCycle(Names(stuck)))
  }

  /** `topological_sort`: it fails exactly when no permutation of the components is a build order. */
  method Sort(components: seq<Component>, prebuilt: set<TypeId>, providers: seq<Provider>,
              transients: map<TypeId, Component>)
    returns (r: Result<seq<Component>, DiError>, ghost stuck: seq<Component>, ghost pw: Waits, ghost tw: Waits)
    requires SortGraph(components, providers, transients).WellKeyed()
    ensures Tables(SortGraph(components, providers, transients), pw, tw)
    ensures r.Ok? ==> multiset(r.value) == multiset(components)
    ensures r.Ok? ==> BuildOrder(SortGraph(components, providers, transients), r.value, pw, tw, prebuilt)
    ensures r.Err? ==> r.error == DependencyCycle(Names(stuck)) && stuck != []
    ensures r.Err? ==> |r.error.stuck| == |stuck| && forall i :: 0 <= i < |stuck| ==> r.error.stuck[i] == stuck[i].name
    ensures r.Err? ==> exists buildable: seq<Component> ::
              && multiset(buildable) + multiset(stuck) == multiset(components)
              && BuildOrder(SortGraph(components, providers, transients), buildable, pw, tw, prebuilt)
    ensures r.Err? ==> Unbuildable(SortGraph(components, providers, transients), components, stuck, pw, tw, prebuilt)
    ensures r.Err? <==> !CanBeOrdered(SortGraph(components, providers, transients), components, pw, tw, prebuilt)
    ensures r == Sorted(SortGraph(components, providers, transients), components, prebuilt, pw, tw)
  {
    var grouped := GroupByTrait(providers);
    var g := Graph(grouped, transients, Ids(components));
    var expansion, providerWaits, traitWaits := ComputeWaits(g);
    pw, tw := providerWaits, traitWaits;
    var order, rest := GreedyOrder(g, components, prebuilt, providerWaits, traitWaits);
    stuck := rest;
    if rest != [] {
      CycleIffNoOrder(g, components, prebuilt, pw, tw, Err(DependencyCycle(Names(rest))), rest);
      return Err(DependencyCycle(Names(rest))), rest, pw, tw;
    }
    assert multiset(rest) == multiset{};
    r := Ok(order);
  }

  /** Completeness: a cycle is reported exactly when no permutation of the components is a build order. */
  lemma CycleIffNoOrder(g: Graph, components: seq<Component>, prebuilt: set<TypeId>, pw: Waits, tw: Waits,
                        r: Result<seq<Component>, DiError>, stuck: seq<Component>)
    requires r.Ok? ==> multiset(r.value) == multiset(components) && BuildOrder(g, r.value, pw, tw, prebuilt)
    requires r.Err? ==> stuck != [] && multiset(stuck) <= multiset(components)
    requires r.Err? ==> Unbuildable(g, components, stuck, pw, tw, prebuilt)
    ensures r.Err? <==> !CanBeOrdered(g, components, pw, tw, prebuilt)
  {
    if r.Err? {
      forall order: seq<Component> | multiset(order) == multiset(components)
        ensures !BuildOrder(g, order, pw, tw, prebuilt)
      {
        SamePermutation(order, components);
        assert stuck[0] in multiset(stuck);
        assert stuck[0] in multiset(order);
        assert stuck[0] in order;
      }
    }
  }

  /** A single-valued edge without providers waits for its own type, transient or not: nothing that is
    * neither prebuilt nor sorted here can meet it. */
  lemma MissingTargetBlocks(g: Graph, components: seq<Component>, prebuilt: set<TypeId>, pw: Waits, tw: Waits,
                            c: Component, dep: Dependency)
    requires c in components && dep in c.Dependencies()
    requires !dep.optional && !dep.dynamic && !dep.config && dep.resolution == Eager
    requires dep.cardinality.One? && dep.ty !in g.providers && dep.ty !in prebuilt && dep.ty !in Ids(components)
    ensures !CanBeOrdered(g, components, pw, tw, prebuilt)
  {
    forall order: seq<Component> | multiset(order) == multiset(components)
      ensures !BuildOrder(g, order, pw, tw, prebuilt)
    {
      SamePermutation(order, components);
      var i :| 0 <= i < |order| && order[i] == c;
      assert forall d :: d in order[..i] ==> d in components;
      assert dep in order[i].GatingDependencies();
      assert !DepReady(g, dep, pw, tw, prebuilt + Ids(order[..i]));
      assert !Ready(g, order[i], pw, tw, prebuilt + Ids(order[..i]));
    }
  }

  /** For a lone component all of whose edges are of that kind, that is all there is to it. */
  lemma LoneComponent(g: Graph, c: Component, prebuilt: set<TypeId>, pw: Waits, tw: Waits)
    requires forall dep <- c.GatingDependencies() :: dep.cardinality.One? && dep.ty !in g.providers
    ensures CanBeOrdered(g, [c], pw, tw, prebuilt) <==> forall dep <- c.GatingDependencies() :: dep.ty in prebuilt
  {
    assert Ids([c][..0]) == {};
    if forall dep <- c.GatingDependencies() :: dep.ty in prebuilt {
      forall dep <- c.GatingDependencies() ensures DepReady(g, dep, pw, tw, prebuilt + Ids([c][..0])) {
      }
      assert BuildOrder(g, [c], pw, tw, prebuilt);
    } else {
      var dep :| dep in c.GatingDependencies() && dep.ty !in prebuilt;
      forall order: seq<Component> | multiset(order) == multiset([c]) ensures !BuildOrder(g, order, pw, tw, prebuilt) {
        assert |order| == |multiset(order)| == 1 && order[0] in multiset(order);
        assert order[..0] == [];
        assert !DepReady(g, dep, pw, tw, prebuilt + Ids(order[..0]));
        assert !Ready(g, order[0], pw, tw, prebuilt + Ids(order[..0]));
      }
    }
  }

  lemma SamePermutation(a: seq<Component>, b: seq<Component>)
    requires multiset(a) == multiset(b)
    ensures forall c :: c in a <==> c in b
  {
    assert forall c :: c in a <==> c in multiset(a);
    assert forall c :: c in b <==> c in multiset(b);
  }

  /** Soundness, edge by edge, on every graph: in a build order, each gating edge of each component
    * finds its concrete target, its selected provider or all its sorted providers already there. */
  ghost predicate EdgeSatisfied(g: Graph, dep: Dependency, built: set<TypeId>) {
    if dep.ty !in g.providers then
      dep.cardinality.One? ==> dep.ty in built
    else if dep.cardinality.One? then
      forall c <- EdgeTargets(g, dep, g.providers[dep.ty]) | c in g.sortable :: c in built
    else
      forall p <- g.providers[dep.ty] | p.concreteTy in g.sortable :: p.concreteTy in built
  }

  lemma ReadySatisfies(g: Graph, dep: Dependency, pw: Waits, tw: Waits, built: set<TypeId>)
    requires Tables(g, pw, tw) && DepReady(g, dep, pw, tw, built)
    ensures EdgeSatisfied(g, dep, built)
  {
    if dep.ty in g.providers && dep.cardinality.One? {
      ReadyMeansTargets(g, dep, pw, tw, built);
      forall c <- EdgeTargets(g, dep, g.providers[dep.ty]) | c in g.sortable ensures c in built {
        assert Entry(g, Provide(c), pw[c]);
        assert c in pw[c];
      }
    } else if dep.ty in g.providers {
      assert Entry(g, Trait(dep.ty), tw[dep.ty]);
      forall p <- g.providers[dep.ty] | p.concreteTy in g.sortable ensures p.concreteTy in built {
        assert p in Local(g.providers[dep.ty], g.sortable);
      }
    }
  }

  lemma OrderSatisfiesEdges(g: Graph, order: seq<Component>, pw: Waits, tw: Waits, prebuilt: set<TypeId>, i: nat,
                            dep: Dependency)
    requires Tables(g, pw, tw) && BuildOrder(g, order, pw, tw, prebuilt)
    requires i < |order| && dep in order[i].GatingDependencies()
    ensures EdgeSatisfied(g, dep, prebuilt + Ids(order[..i]))
    ensures EdgeSettled(g, dep) ==> forall x | EdgeGates(g, dep, x) :: x in prebuilt + Ids(order[..i])
  {
    var built := prebuilt + Ids(order[..i]);
    assert Ready(g, order[i], pw, tw, built);
    assert DepReady(g, dep, pw, tw, built);
    ReadinessMeaning(g, dep, pw, tw, built);
    ReadySatisfies(g, dep, pw, tw, built);
  }

  // ---------------------------------------------------------------- graphs without expansion cycles

  ghost predicate CycleFreeGraph(g: Graph) {
    forall id <- Expandable(g) :: CycleFree(g, id)
  }

  /** An order in which everything an edge declaratively waits for is there in time. */
  ghost predicate DeclaredOrder(g: Graph, order: seq<Component>, prebuilt: set<TypeId>) {
    forall i :: 0 <= i < |order| ==>
      forall dep <- order[i].GatingDependencies(), x | EdgeGates(g, dep, x) :: x in prebuilt + Ids(order[..i])
  }

  lemma CycleFreeGraphIsSettled(g: Graph, dep: Dependency)
    requires CycleFreeGraph(g)
    ensures EdgeSettled(g, dep)
  {
  }

  /** Every declared order is a build order, so a cycle report rules all of them out; and where there
    * is no expansion cycle the two notions coincide. */
  lemma BuildOrderIsDeclared(g: Graph, order: seq<Component>, pw: Waits, tw: Waits, prebuilt: set<TypeId>)
    requires Tables(g, pw, tw)
    ensures DeclaredOrder(g, order, prebuilt) ==> BuildOrder(g, order, pw, tw, prebuilt)
    ensures CycleFreeGraph(g) ==> (DeclaredOrder(g, order, prebuilt) <==> BuildOrder(g, order, pw, tw, prebuilt))
  {
    forall i, dep | 0 <= i < |order| && dep in order[i].GatingDependencies()
      ensures (forall x | EdgeGates(g, dep, x) :: x in prebuilt + Ids(order[..i])) ==>
                DepReady(g, dep, pw, tw, prebuilt + Ids(order[..i]))
      ensures CycleFreeGraph(g) && DepReady(g, dep, pw, tw, prebuilt + Ids(order[..i])) ==>
                forall x | EdgeGates(g, dep, x) :: x in prebuilt + Ids(order[..i])
    {
      ReadinessMeaning(g, dep, pw, tw, prebuilt + Ids(order[..i]));
      if CycleFreeGraph(g) {
        CycleFreeGraphIsSettled(g, dep);
      }
    }
  }

  /** Some permutation of the components satisfies the waits themselves. */
  ghost predicate CanBeDeclared(g: Graph, components: seq<Component>, prebuilt: set<TypeId>) {
    exists order: seq<Component> :: multiset(order) == multiset(components) && DeclaredOrder(g, order, prebuilt)
  }

  lemma OrderableMeaning(g: Graph, components: seq<Component>, pw: Waits, tw: Waits, prebuilt: set<TypeId>)
    requires Tables(g, pw, tw)
    ensures CanBeDeclared(g, components, prebuilt) ==> CanBeOrdered(g, components, pw, tw, prebuilt)
    ensures CycleFreeGraph(g) ==>
              (CanBeDeclared(g, components, prebuilt) <==> CanBeOrdered(g, components, pw, tw, prebuilt))
  {
    forall order: seq<Component> | multiset(order) == multiset(components)
      ensures DeclaredOrder(g, order, prebuilt) ==> BuildOrder(g, order, pw, tw, prebuilt)
      ensures CycleFreeGraph(g) && BuildOrder(g, order, pw, tw, prebuilt) ==> DeclaredOrder(g, order, prebuilt)
    {
      BuildOrderIsDeclared(g, order, pw, tw, prebuilt);
    }
  }

  /** The wait tables do not depend on the order in which the entries were asked for. */
  lemma TablesAreUnique(g: Graph, pw: Waits, tw: Waits, pw': Waits, tw': Waits)
    requires CycleFreeGraph(g)
    requires Tables(g, pw, tw) && Tables(g, pw', tw')
    ensures pw == pw' && tw == tw'
  {
    forall c <- pw ensures pw[c] == pw'[c] {
      EntryIsUnique(g, Provide(c), pw[c], pw'[c]);
    }
    forall t <- tw ensures tw[t] == tw'[t] {
      EntryIsUnique(g, Trait(t), tw[t], tw'[t]);
    }
  }

  /** So neither does the sort: two runs over the same input, however their hash maps were enumerated, return
    * the same order or name the same components. */
  lemma SortIsDetermined(g: Graph, components: seq<Component>, prebuilt: set<TypeId>,
                         pw: Waits, tw: Waits, r: Result<seq<Component>, DiError>,
                         pw': Waits, tw': Waits, r': Result<seq<Component>, DiError>)
    requires CycleFreeGraph(g) && Tables(g, pw, tw) && Tables(g, pw', tw')
    requires r == Sorted(g, components, prebuilt, pw, tw) && r' == Sorted(g, components, prebuilt, pw', tw')
    ensures r == r'
  {
    TablesAreUnique(g, pw, tw, pw', tw');
  }

  lemma EntryIsUnique(g: Graph, node: Node, a: set<TypeId>, b: set<TypeId>)
    requires Settled(g, node) && Entry(g, node, a) && Entry(g, node, b)
    ensures a == b
  {
    assert forall x :: x in a <==> Gates(g, node, x);
    assert forall x :: x in b <==> Gates(g, node, x);
  }
}

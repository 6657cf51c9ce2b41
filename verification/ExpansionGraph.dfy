/** The wait relation, declaratively: which components of a sort must be built before a provider, a
  * trait or a transient recipe can be resolved. */
module ExpansionGraph {
  import opened Common
  import opened DependencyGraph

  /** What one sort works on: providers by trait, transient recipes by type, and the sorted types. */
  datatype Graph = Graph(
    providers: map<TypeId, seq<Provider>>,
    transients: map<TypeId, Component>,
    sortable: set<TypeId>
  ) {
    /** Transient recipes are filed under their own type. */
    ghost predicate WellKeyed() {
      forall t <- transients :: transients[t].ty == t
    }

    predicate IsRecipe(c: TypeId) {
      c !in sortable && c in transients
    }
  }

  function Local(providers: seq<Provider>, sortable: set<TypeId>): (r: seq<Provider>)
    ensures forall p :: p in r <==> p in providers && p.concreteTy in sortable
  {
    if providers == [] then []
    else
      (if providers[0].concreteTy in sortable then [providers[0]] else []) + Local(providers[1..], sortable)
  }

  function Concretes(providers: seq<Provider>): set<TypeId> {
    set p <- providers :: p.concreteTy
  }

  /** Whose waits make up the waits of a single-valued edge: one type if a choice is forced, all sorted
    * candidates if an unqualified choice is not, none otherwise. */
  function EdgeTargets(g: Graph, dep: Dependency, providers: seq<Provider>): set<TypeId> {
    var selected := SelectFor(dep, providers);
    var local := Local(providers, g.sortable);
    if selected.Some? && selected.value.concreteTy in g.transients then {selected.value.concreteTy}
    else if SelectFor(dep, local).Some? then {SelectFor(dep, local).value.concreteTy}
    else if dep.qualifier.Some? then {}
    else Concretes(local)
  }

  /** The things whose waits are expanded. */
  datatype Node = Provide(concrete: TypeId) | Trait(ty: TypeId) | Recipe(component: Component)

  /** The nodes one gating edge of a recipe leads to. */
  function EdgeNext(g: Graph, dep: Dependency): set<Node> {
    if dep.ty in g.sortable then {}
    else if dep.ty in g.providers then
      if dep.cardinality.One? then set c <- EdgeTargets(g, dep, g.providers[dep.ty]) :: Provide(c) else {Trait(dep.ty)}
    else if dep.ty in g.transients then {Recipe(g.transients[dep.ty])}
    else {}
  }

  function Next(g: Graph, node: Node): set<Node> {
    match node
    case Provide(c) => if g.IsRecipe(c) then {Recipe(g.transients[c])} else {}
    case Trait(t) => if t in g.providers then set p <- g.providers[t] :: Provide(p.concreteTy) else {}
    case Recipe(d) => set dep <- d.GatingDependencies(), m <- EdgeNext(g, dep) :: m
  }

  /** The sorted types that a node names directly. */
  function Direct(g: Graph, node: Node): set<TypeId> {
    match node
    case Provide(c) => if c in g.sortable then {c} else {}
    case Trait(_) => {}
    case Recipe(d) => set dep <- d.GatingDependencies() | dep.ty in g.sortable :: dep.ty
  }

  ghost predicate GatesWithin(g: Graph, node: Node, x: TypeId, steps: nat)
    decreases steps
  {
    x in Direct(g, node) || (steps > 0 && exists m <- Next(g, node) :: GatesWithin(g, m, x, steps - 1))
  }

  /** `x` must be built before `node`: some chain of expansions from `node` names it. */
  ghost predicate Gates(g: Graph, node: Node, x: TypeId) {
    exists steps: nat :: GatesWithin(g, node, x, steps)
  }

  lemma GatesHere(g: Graph, node: Node, x: TypeId)
    requires x in Direct(g, node)
    ensures Gates(g, node, x)
  {
    assert GatesWithin(g, node, x, 0);
  }

  lemma GatesVia(g: Graph, node: Node, m: Node, x: TypeId)
    requires m in Next(g, node) && Gates(g, m, x)
    ensures Gates(g, node, x)
  {
    var steps: nat :| GatesWithin(g, m, x, steps);
    assert GatesWithin(g, node, x, steps + 1);
  }

  lemma GatesSplit(g: Graph, node: Node, x: TypeId)
    requires Gates(g, node, x)
    ensures x in Direct(g, node) || exists m <- Next(g, node) :: Gates(g, m, x)
  {
    var steps: nat :| GatesWithin(g, node, x, steps);
    if x !in Direct(g, node) {
      var m :| m in Next(g, node) && GatesWithin(g, m, x, steps - 1);
      assert Gates(g, m, x);
    }
  }

  /** Only types of the sort are ever waited for. */
  lemma {:induction false} GatesAreSortable(g: Graph, node: Node, x: TypeId, steps: nat)
    requires GatesWithin(g, node, x, steps)
    ensures x in g.sortable
    decreases steps
  {
    if x !in Direct(g, node) {
      var m :| m in Next(g, node) && GatesWithin(g, m, x, steps - 1);
      GatesAreSortable(g, m, x, steps - 1);
    }
  }

  // ---------------------------------------------------------------- well-founded regions

  /** `m` lies in the ranked region, strictly below `n`; what needs no expansion always does. */
  ghost predicate Below(g: Graph, rank: map<TypeId, nat>, m: Node, n: nat) {
    match m
    case Provide(c) => g.IsRecipe(c) ==> c in rank && rank[c] < n
    case Trait(t) => t in rank && rank[t] < n
    case Recipe(d) => d.ty in rank && rank[d.ty] < n
  }

  ghost predicate Ranked(g: Graph, rank: map<TypeId, nat>, m: Node) {
    match m
    case Provide(c) => g.IsRecipe(c) ==> c in rank
    case Trait(t) => t in rank
    case Recipe(d) => d.ty in rank
  }

  /** A numbering of traits and recipes that every expansion step decreases: its domain reaches no
    * expansion cycle. The empty numbering is always one; a graph without expansion cycles has one
    * that covers every trait and every transient. */
  ghost predicate Ranking(g: Graph, rank: map<TypeId, nat>) {
    && (forall t <- rank | t in g.providers :: forall m <- Next(g, Trait(t)) :: Below(g, rank, m, rank[t]))
    && (forall t <- rank | t in g.transients ::
          forall m <- Next(g, Recipe(g.transients[t])) :: Below(g, rank, m, rank[t]))
  }

  /** Everything ranked in `above` lies above `node`. */
  ghost predicate AllAbove(g: Graph, rank: map<TypeId, nat>, above: set<TypeId>, node: Node) {
    forall v <- above | v in rank :: Below(g, rank, node, rank[v])
  }

  /** One expansion step goes strictly down: inside the ranked region no cycle break ever happens. */
  lemma Descends(g: Graph, rank: map<TypeId, nat>, above: set<TypeId>, parent: Node, id: TypeId)
    requires Ranking(g, rank)
    requires (parent == Trait(id) && id in g.providers)
          || (id in g.transients && parent == Recipe(g.transients[id]) && g.transients[id].ty == id)
    requires AllAbove(g, rank, above, parent)
    ensures forall child <- Next(g, parent) :: AllAbove(g, rank, above + {id}, child)
  {
    forall child <- Next(g, parent), v <- above + {id} | v in rank ensures Below(g, rank, child, rank[v]) {
      if v != id {
        assert Below(g, rank, parent, rank[v]);
      }
    }
  }

  ghost predicate Sound(g: Graph, node: Node, waits: set<TypeId>) {
    forall x <- waits :: Gates(g, node, x)
  }

  ghost predicate Complete(g: Graph, node: Node, waits: set<TypeId>) {
    forall x :: Gates(g, node, x) ==> x in waits
  }

  // ---------------------------------------------------------------- expansion cycles

  /** The trait or transient whose expansion a node starts, if any. */
  predicate Expands(g: Graph, m: Node, id: TypeId) {
    match m
    case Provide(c) => g.IsRecipe(c) && c == id
    case Trait(t) => t == id
    case Recipe(d) => d.ty == id
  }

  ghost predicate IsNodeOf(g: Graph, node: Node, id: TypeId) {
    (id in g.providers && node == Trait(id)) || (id in g.transients && node == Recipe(g.transients[id]))
  }

  ghost predicate Steps(g: Graph, a: TypeId, b: TypeId) {
    exists node, m :: IsNodeOf(g, node, a) && m in Next(g, node) && Expands(g, m, b)
  }

  ghost predicate ReachesIn(g: Graph, a: TypeId, b: TypeId, n: nat)
    decreases n
  {
    if n == 0 then Steps(g, a, b) else exists c :: Steps(g, a, c) && ReachesIn(g, c, b, n - 1)
  }

  ghost predicate Reaches(g: Graph, a: TypeId, b: TypeId) {
    exists n: nat :: ReachesIn(g, a, b, n)
  }

  /** No expansion that starts at `id` can come round to something it passed. */
  ghost predicate CycleFree(g: Graph, id: TypeId) {
    !Reaches(g, id, id) && forall b :: Reaches(g, id, b) ==> !Reaches(g, b, b)
  }

  lemma StepReaches(g: Graph, a: TypeId, c: TypeId)
    requires Steps(g, a, c)
    ensures Reaches(g, a, c)
    ensures forall b :: Reaches(g, c, b) ==> Reaches(g, a, b)
    ensures CycleFree(g, a) ==> CycleFree(g, c)
  {
    assert ReachesIn(g, a, c, 0);
    forall b | Reaches(g, c, b) ensures Reaches(g, a, b) {
      var n: nat :| ReachesIn(g, c, b, n);
      assert ReachesIn(g, a, b, n + 1);
    }
  }

  ghost function Expandable(g: Graph): set<TypeId> {
    g.providers.Keys + g.transients.Keys
  }

  ghost function ReachSet(g: Graph, a: TypeId): set<TypeId> {
    set b <- Expandable(g) | Reaches(g, a, b)
  }

  /** Numbers every cycle-free trait and transient by how much it can still reach. */
  ghost function CycleFreeRank(g: Graph): map<TypeId, nat> {
    map id <- Expandable(g) | CycleFree(g, id) :: |ReachSet(g, id)|
  }

  /** Expanding `m` cannot run into an expansion cycle. */
  ghost predicate Settled(g: Graph, m: Node) {
    forall id | Expands(g, m, id) :: id in Expandable(g) && CycleFree(g, id)
  }

  lemma SettledIsRanked(g: Graph, m: Node)
    requires Settled(g, m)
    ensures Ranked(g, CycleFreeRank(g), m)
  {
    match m
    case Provide(c) => assert g.IsRecipe(c) ==> Expands(g, m, c);
    case Trait(t) => assert Expands(g, m, t);
    case Recipe(d) => assert Expands(g, m, d.ty);
  }

  lemma SmallerSet(a: set<TypeId>, b: set<TypeId>)
    requires a < b
    ensures |a| < |b|
  {
    assert b == a + (b - a);
    assert |b| == |a| + |b - a|;
  }

  lemma StepDecreases(g: Graph, node: Node, m: Node, a: TypeId, b: TypeId)
    requires g.WellKeyed() && a in CycleFreeRank(g)
    requires IsNodeOf(g, node, a) && m in Next(g, node) && Expands(g, m, b)
    ensures b in CycleFreeRank(g) && CycleFreeRank(g)[b] < CycleFreeRank(g)[a]
  {
    assert Steps(g, a, b);
    StepReaches(g, a, b);
    assert b in Expandable(g);
    assert ReachSet(g, b) <= ReachSet(g, a);
    assert b in ReachSet(g, a) && b !in ReachSet(g, b);
    SmallerSet(ReachSet(g, b), ReachSet(g, a));
  }

  /** Expansion steps away from a cycle-free node always go down. */
  lemma CycleFreeRankIsRanking(g: Graph)
    requires g.WellKeyed()
    ensures Ranking(g, CycleFreeRank(g))
  {
    var rank := CycleFreeRank(g);
    forall a <- rank, node, m | IsNodeOf(g, node, a) && m in Next(g, node) ensures Below(g, rank, m, rank[a]) {
      match m
      case Provide(c) =>
        if g.IsRecipe(c) {
          StepDecreases(g, node, m, a, c);
        }
      case Trait(t) => StepDecreases(g, node, m, a, t);
      case Recipe(d) => StepDecreases(g, node, m, a, d.ty);
    }
    forall t <- rank | t in g.providers ensures forall m <- Next(g, Trait(t)) :: Below(g, rank, m, rank[t]) {
      assert IsNodeOf(g, Trait(t), t);
    }
    forall t <- rank | t in g.transients
      ensures forall m <- Next(g, Recipe(g.transients[t])) :: Below(g, rank, m, rank[t])
    {
      assert IsNodeOf(g, Recipe(g.transients[t]), t);
    }
  }
}

/** The memoised, cycle-breaking expansion, proved against the declarative wait relation. */
module WaitExpansion {
  import opened Common
  import opened DependencyGraph
  import opened ExpansionGraph

  class WaitExpansion {
    const g: Graph
    ghost const rank: map<TypeId, nat>
    var providerMemo: map<TypeId, set<TypeId>>
    var traitMemo: map<TypeId, set<TypeId>>
    var visiting: set<TypeId>

    /** A memo entry never overstates; inside the ranked region it is exact; and, on every graph, it
      * holds the providers that are sorted here. */
    ghost predicate Memo(node: Node, waits: set<TypeId>) {
      && Sound(g, node, waits)
      && (Ranked(g, rank, node) ==> Complete(g, node, waits))
      && (node.Provide? && node.concrete in g.sortable ==> waits == {node.concrete})
      && (node.Trait? && node.ty in g.providers ==> Concretes(Local(g.providers[node.ty], g.sortable)) <= waits)
    }

    ghost predicate Valid()
      reads this
    {
      && g.WellKeyed() && Ranking(g, rank)
      && (forall c <- providerMemo :: Memo(Provide(c), providerMemo[c]))
      && (forall t <- traitMemo :: Memo(Trait(t), traitMemo[t]))
      && visiting <= Expandable()
    }

    ghost function Expandable(): set<TypeId> {
      g.providers.Keys + g.transients.Keys
    }

    /** Everything being expanded lies above `node`, as far as it is ranked. */
    ghost predicate Reachable(node: Node)
      reads this
    {
      AllAbove(g, rank, visiting, node)
    }

    constructor (g: Graph, ghost rank: map<TypeId, nat>)
      requires g.WellKeyed() && Ranking(g, rank)
      ensures Valid() && this.g == g && this.rank == rank
      ensures visiting == {} && providerMemo == map[] && traitMemo == map[]
    {
      this.g, this.rank := g, rank;
      providerMemo, traitMemo, visiting := map[], map[], {};
    }

    /** Memos only gain entries: what was memoised before a call is what is memoised after it. */
    twostate predicate Grows()
      reads this
    {
      && (forall c <- old(providerMemo) :: c in providerMemo && providerMemo[c] == old(providerMemo)[c])
      && (forall t <- old(traitMemo) :: t in traitMemo && traitMemo[t] == old(traitMemo)[t])
    }

    /** `waits` is the union of the memoised waits of `targets`. */
    ghost predicate Union(targets: set<TypeId>, waits: set<TypeId>)
      reads this
    {
      && (forall c <- targets :: c in providerMemo && providerMemo[c] <= waits)
      && (forall x <- waits :: exists c <- targets :: c in providerMemo && x in providerMemo[c])
    }

    method ProviderWaits(concrete: TypeId) returns (waits: set<TypeId>)
      requires Valid() && Reachable(Provide(concrete))
      modifies this
      ensures Valid() && Grows() && visiting == old(visiting)
      ensures Memo(Provide(concrete), waits)
      ensures concrete in providerMemo && providerMemo[concrete] == waits
      decreases Expandable() - visiting, 1
    {
      if concrete in providerMemo {
        return providerMemo[concrete];
      }
      waits := {};
      if concrete in g.sortable {
        waits := {concrete};
      } else if concrete in g.transients {
        waits := ExpandTransient(g.transients[concrete], waits);
      }
      ProviderMemo(g, rank, concrete, waits);
      providerMemo := providerMemo[concrete := waits];
    }

    /** The wait set of one single-valued trait edge: what is memoised for its targets. */
    method SingleEdgeWaits(dep: Dependency, providers: seq<Provider>) returns (waits: set<TypeId>)
      requires Valid()
      requires forall c <- EdgeTargets(g, dep, providers) :: Reachable(Provide(c))
      modifies this
      ensures Valid() && Grows() && visiting == old(visiting)
      ensures Union(EdgeTargets(g, dep, providers), waits)
      decreases Expandable() - visiting, 3
    {
      var selected := SelectFor(dep, providers);
      if selected.Some? && selected.value.concreteTy in g.transients {
        waits := ProviderWaits(selected.value.concreteTy);
        return;
      }
      var local := Local(providers, g.sortable);
      var chosen := SelectFor(dep, local);
      if chosen.Some? {
        waits := ProviderWaits(chosen.value.concreteTy);
      } else if local == [] || dep.qualifier.Some? {
        waits := {};
      } else {
        waits := AllWaits(local);
      }
    }

    method AllWaits(local: seq<Provider>) returns (waits: set<TypeId>)
      requires Valid()
      requires forall c <- Concretes(local) :: Reachable(Provide(c))
      modifies this
      ensures Valid() && Grows() && visiting == old(visiting)
      ensures Union(Concretes(local), waits)
      decreases Expandable() - visiting, 2
    {
      waits := {};
      for i := 0 to |local|
        invariant Valid() && Grows() && visiting == old(visiting)
        invariant Union(Concretes(local[..i]), waits)
      {
        assert local[i].concreteTy in Concretes(local);
        assert Concretes(local[..i + 1]) == Concretes(local[..i]) + {local[i].concreteTy};
        var more := ProviderWaits(local[i].concreteTy);
        waits := waits + more;
      }
      assert local[..|local|] == local;
    }

    /** Memoised like `ProviderWaits`; a trait that is being expanded answers nothing, and is not memoised. */
    method TraitWaits(t: TypeId) returns (waits: set<TypeId>)
      requires Valid() && Reachable(Trait(t)) && t in g.providers
      modifies this
      ensures Valid() && Grows() && visiting == old(visiting)
      ensures Sound(g, Trait(t), waits)
      ensures t !in old(visiting) ==> Memo(Trait(t), waits) && t in traitMemo && traitMemo[t] == waits
      ensures t in rank ==> Complete(g, Trait(t), waits)
      decreases Expandable() - visiting, 2
    {
      if t in traitMemo {
        return traitMemo[t];
      }
      if t in visiting {
        return {};
      }
      Descends(g, rank, visiting, Trait(t), t);
      visiting := visiting + {t};
      forall c <- Concretes(g.providers[t]) ensures Reachable(Provide(c)) {
        assert Provide(c) in Next(g, Trait(t));
      }
      waits := AllWaits(g.providers[t]);
      TraitUnion(t, waits);
      visiting := visiting - {t};
      traitMemo := traitMemo[t := waits];
    }

    lemma TraitUnion(t: TypeId, waits: set<TypeId>)
      requires Valid() && t in g.providers
      requires Union(Concretes(g.providers[t]), waits)
      ensures Memo(Trait(t), waits)
    {
      var targets := Concretes(g.providers[t]);
      forall c <- targets ensures Provide(c) in Next(g, Trait(t)) {
      }
      forall x <- waits ensures Gates(g, Trait(t), x) {
        var c :| c in targets && c in providerMemo && x in providerMemo[c];
        assert Memo(Provide(c), providerMemo[c]);
        GatesVia(g, Trait(t), Provide(c), x);
      }
      forall x | t in rank && Gates(g, Trait(t), x) ensures x in waits {
        GatesSplit(g, Trait(t), x);
        var m :| m in Next(g, Trait(t)) && Gates(g, m, x);
        assert Memo(m, providerMemo[m.concrete]) && Below(g, rank, m, rank[t]);
      }
      forall c <- Concretes(Local(g.providers[t], g.sortable)) ensures c in waits {
        assert Memo(Provide(c), providerMemo[c]);
      }
    }

    /** Adds what a transient recipe waits for, edge by edge; a recipe already under expansion adds
      * nothing. */
    method ExpandTransient(d: Component, before: set<TypeId>) returns (waits: set<TypeId>)
      requires Valid() && Reachable(Recipe(d))
      requires d.ty in g.transients && g.transients[d.ty] == d
      modifies this
      ensures Valid() && Grows() && visiting == old(visiting)
      ensures before <= waits
      ensures Sound(g, Recipe(d), waits - before)
      ensures d.ty in rank ==> Complete(g, Recipe(d), waits)
      decreases Expandable() - visiting, 0
    {
      waits := before;
      if d.ty in visiting {
        return;
      }
      Descends(g, rank, visiting, Recipe(d), d.ty);
      visiting := visiting + {d.ty};
      var deps := d.Dependencies();
      for i := 0 to |deps|
        invariant Valid() && Grows() && visiting == old(visiting) + {d.ty}
        invariant before <= waits && Sound(g, Recipe(d), waits - before)
        invariant d.ty in rank ==> forall k :: 0 <= k < i && deps[k].Gating() ==> EdgeCovered(g, deps[k], waits)
      {
        if deps[i].Gating() {
          assert deps[i] in d.GatingDependencies();
          assert forall m <- EdgeNext(g, deps[i]) :: m in Next(g, Recipe(d));
          waits := ExpandEdge(d, deps[i], waits);
        }
      }
      if d.ty in rank {
        RecipeCovered(g, d, waits);
      }
      visiting := visiting - {d.ty};
    }

    /** One gating edge of a recipe that is under expansion. */
    method ExpandEdge(d: Component, dep: Dependency, before: set<TypeId>) returns (waits: set<TypeId>)
      requires Valid()
      requires d.ty in g.transients && g.transients[d.ty] == d && d.ty in visiting
      requires forall m <- EdgeNext(g, dep) :: Reachable(m)
      requires dep in d.GatingDependencies()
      modifies this
      ensures Valid() && Grows() && visiting == old(visiting)
      ensures before <= waits && Sound(g, Recipe(d), waits - before)
      ensures d.ty in rank ==> EdgeCovered(g, dep, waits)
      decreases Expandable() - visiting, 4
    {
      waits := before;
      if dep.ty in g.sortable {
        GatesHere(g, Recipe(d), dep.ty);
        waits := waits + {dep.ty};
      } else if dep.ty in g.providers {
        if dep.cardinality.One? {
          var targets := EdgeTargets(g, dep, g.providers[dep.ty]);
          forall c <- targets ensures Reachable(Provide(c)) {
            assert Provide(c) in EdgeNext(g, dep);
          }
          var more := SingleEdgeWaits(dep, g.providers[dep.ty]);
          EdgeUnion(d, dep, more);
          waits := waits + more;
        } else {
          assert Trait(dep.ty) in EdgeNext(g, dep);
          var more := TraitWaits(dep.ty);
          EdgeSound(g, d, dep, Trait(dep.ty), more);
          waits := waits + more;
        }
      } else if dep.ty in g.transients {
        var next := g.transients[dep.ty];
        assert Recipe(next) in EdgeNext(g, dep);
        waits := ExpandTransient(next, waits);
        EdgeSound(g, d, dep, Recipe(next), waits - before);
      }
    }

    lemma EdgeUnion(d: Component, dep: Dependency, waits: set<TypeId>)
      requires Valid() && dep in d.GatingDependencies()
      requires dep.ty !in g.sortable && dep.ty in g.providers && dep.cardinality.One?
      requires Union(EdgeTargets(g, dep, g.providers[dep.ty]), waits)
      requires forall m <- EdgeNext(g, dep) :: d.ty in rank ==> Ranked(g, rank, m)
      ensures Sound(g, Recipe(d), waits)
      ensures d.ty in rank ==> EdgeCovered(g, dep, waits)
    {
      var targets := EdgeTargets(g, dep, g.providers[dep.ty]);
      forall x <- waits ensures Gates(g, Recipe(d), x) {
        var c :| c in targets && c in providerMemo && x in providerMemo[c];
        assert Provide(c) in EdgeNext(g, dep) && Memo(Provide(c), providerMemo[c]);
        EdgeSound(g, d, dep, Provide(c), providerMemo[c]);
      }
      forall m <- EdgeNext(g, dep) | d.ty in rank ensures Complete(g, m, waits) {
        assert Memo(m, providerMemo[m.concrete]);
      }
    }
  }

  lemma EdgeSound(g: Graph, d: Component, dep: Dependency, m: Node, waits: set<TypeId>)
    requires dep in d.GatingDependencies() && m in EdgeNext(g, dep)
    requires Sound(g, m, waits)
    ensures Sound(g, Recipe(d), waits)
  {
    forall x <- waits ensures Gates(g, Recipe(d), x) {
      GatesVia(g, Recipe(d), m, x);
    }
  }

  /** Everything one edge leads to is covered by `waits`. */
  ghost predicate EdgeCovered(g: Graph, dep: Dependency, waits: set<TypeId>) {
    && (dep.ty in g.sortable ==> dep.ty in waits)
    && (forall m <- EdgeNext(g, dep) :: Complete(g, m, waits))
  }

  lemma RecipeCovered(g: Graph, d: Component, waits: set<TypeId>)
    requires forall k :: 0 <= k < |d.Dependencies()| && d.Dependencies()[k].Gating() ==>
             EdgeCovered(g, d.Dependencies()[k], waits)
    ensures Complete(g, Recipe(d), waits)
  {
    forall x | Gates(g, Recipe(d), x) ensures x in waits {
      GatesSplit(g, Recipe(d), x);
    }
  }

  lemma ProviderMemo(g: Graph, rank: map<TypeId, nat>, concrete: TypeId, waits: set<TypeId>)
    requires g.WellKeyed()
    requires concrete in g.sortable ==> waits == {concrete}
    requires g.IsRecipe(concrete) ==> Sound(g, Recipe(g.transients[concrete]), waits)
    requires g.IsRecipe(concrete) && concrete in rank ==> Complete(g, Recipe(g.transients[concrete]), waits)
    requires concrete !in g.sortable && concrete !in g.transients ==> waits == {}
    ensures Sound(g, Provide(concrete), waits)
    ensures Ranked(g, rank, Provide(concrete)) ==> Complete(g, Provide(concrete), waits)
  {
    forall x <- waits ensures Gates(g, Provide(concrete), x) {
      if concrete in g.sortable {
        GatesHere(g, Provide(concrete), x);
      } else {
        GatesVia(g, Provide(concrete), Recipe(g.transients[concrete]), x);
      }
    }
    forall x | Gates(g, Provide(concrete), x) && Ranked(g, rank, Provide(concrete)) ensures x in waits {
      GatesSplit(g, Provide(concrete), x);
    }
  }
}

/** Component, provider and dependency descriptors, and the provider-selection rules. */
module DependencyGraph {
  import opened Common

  /** An opaque runtime type identity, for concrete types and trait objects alike. */
  type TypeId = nat

  datatype Cardinality = One | Collection | Keyed

  datatype ResolutionMode = Eager | Deferred | Lazy | Fresh

  datatype Dependency = Dependency(
    ty: TypeId,
    cardinality: Cardinality,
    optional: bool,
    dynamic: bool,
    qualifier: Option<string>,
    config: bool,
    resolution: ResolutionMode
  ) {
    /** Only these edges constrain construction order. */
    predicate Gating() {
      !optional && !dynamic && !config && resolution == Eager
    }
  }

  datatype Provider = Provider(traitTy: TypeId, concreteTy: TypeId, qualifier: string, primary: bool)

  type Rank = r: nat | r <= 255

  const SINGLETON_RANK: Rank := 255

  datatype Scope = Scope(rank: Rank, name: string, isTransient: bool)

  datatype Factory = Factory(dependencies: seq<Dependency>, isDefault: bool)

  datatype DiError =
    | AmbiguousFactory(component: string)
    | DuplicateComponentType(ty: TypeId)
    | DependencyCycle(stuck: seq<string>)
    | UndeclaredScope(component: string, scope: string)
    | ScopeViolation(component: string, dependency: TypeId)

  datatype Component = Component(id: string, name: string, ty: TypeId, scope: Scope, factories: seq<Factory>) {

    /** A sole factory, else the one explicit factory, else the first default one. */
    function EffectiveFactory(): Result<Option<Factory>, DiError> {
      if |factories| == 1 then Ok(Some(factories[0]))
      else
        var explicit := Explicit(factories);
        if |explicit| > 1 then Err(AmbiguousFactory(name))
        else if |explicit| == 1 then Ok(Some(explicit[0]))
        else Ok(if factories == [] then None else Some(factories[0]))
    }

    /** The effective factory's edges; none for a manual instance or an ambiguous choice. */
    function Dependencies(): seq<Dependency> {
      match EffectiveFactory()
      case Ok(Some(factory)) => factory.dependencies
      case _ => []
    }

    function GatingDependencies(): set<Dependency> {
      set d <- Dependencies() | d.Gating()
    }
  }

  function Explicit(factories: seq<Factory>): (r: seq<Factory>) {
    if factories == [] then []
    else (if factories[0].isDefault then [] else [factories[0]]) + Explicit(factories[1..])
  }

  lemma {:induction false} ExplicitMeaning(factories: seq<Factory>)
    ensures |Explicit(factories)| == 0 <==> forall i :: 0 <= i < |factories| ==> factories[i].isDefault
    ensures |Explicit(factories)| > 1 <==>
              exists i, j :: 0 <= i < j < |factories| && !factories[i].isDefault && !factories[j].isDefault
    ensures forall i :: 0 <= i < |factories| && !factories[i].isDefault && |Explicit(factories)| == 1 ==>
              Explicit(factories) == [factories[i]]
  {
    if factories != [] {
      var rest := factories[1..];
      ExplicitMeaning(rest);
      assert forall i :: 0 < i < |factories| ==> factories[i] == rest[i - 1];
      if i, j :| 0 <= i < j < |rest| && !rest[i].isDefault && !rest[j].isDefault {
        assert !factories[i + 1].isDefault && !factories[j + 1].isDefault;
      }
      if !factories[0].isDefault && |Explicit(rest)| > 0 {
        var i :| 0 <= i < |rest| && !rest[i].isDefault;
        assert !factories[i + 1].isDefault;
      }
    }
  }

  /** Which factory builds a component: the sole one; else the one explicit one, two being an error; else
    * the first default. Only a component without factories is provided by hand. */
  lemma FactoryMeaning(c: Component)
    ensures c.EffectiveFactory() == Ok(None) <==> c.factories == []
    ensures |c.factories| == 1 ==> c.EffectiveFactory() == Ok(Some(c.factories[0]))
    ensures |c.factories| != 1 ==>
              (c.EffectiveFactory() == Err(AmbiguousFactory(c.name)) <==>
               exists i, j :: 0 <= i < j < |c.factories| && !c.factories[i].isDefault && !c.factories[j].isDefault)
    ensures forall i :: 0 <= i < |c.factories| && !c.factories[i].isDefault && c.EffectiveFactory().Ok? ==>
              c.EffectiveFactory() == Ok(Some(c.factories[i]))
    ensures c.factories != [] && (forall i :: 0 <= i < |c.factories| ==> c.factories[i].isDefault) ==>
              c.EffectiveFactory() == Ok(Some(c.factories[0]))
    ensures c.EffectiveFactory().Ok? && c.EffectiveFactory().value.Some? ==>
              c.Dependencies() == c.EffectiveFactory().value.value.dependencies
    ensures !(c.EffectiveFactory().Ok? && c.EffectiveFactory().value.Some?) ==> c.Dependencies() == []
  {
    ExplicitMeaning(c.factories);
  }

  function Ids(components: seq<Component>): set<TypeId> {
    set c <- components :: c.ty
  }

  function Names(components: seq<Component>): seq<string> {
    seq(|components|, i requires 0 <= i < |components| => components[i].name)
  }

  // ---------------------------------------------------------------- provider selection

  function Primaries(providers: seq<Provider>): seq<Provider> {
    if providers == [] then []
    else (if providers[0].primary then [providers[0]] else []) + Primaries(providers[1..])
  }

  /** None as soon as the choice is not forced. */
  function SelectSingle(providers: seq<Provider>): Option<Provider> {
    if |providers| == 1 then Some(providers[0])
    else if |Primaries(providers)| == 1 then Some(Primaries(providers)[0])
    else None
  }

  function FirstQualified(providers: seq<Provider>, qualifier: string): Option<Provider> {
    if providers == [] then None
    else if providers[0].qualifier == qualifier then Some(providers[0])
    else FirstQualified(providers[1..], qualifier)
  }

  /** The provider a single trait edge selects among `providers`. */
  function SelectFor(dep: Dependency, providers: seq<Provider>): (r: Option<Provider>)
  {
    if dep.qualifier.Some? then FirstQualified(providers, dep.qualifier.value) else SelectSingle(providers)
  }

  ghost predicate SolePrimary(providers: seq<Provider>, i: nat)
    requires i < |providers|
  {
    providers[i].primary && forall j :: 0 <= j < |providers| && j != i ==> !providers[j].primary
  }

  lemma {:induction false} PrimariesMeaning(providers: seq<Provider>)
    ensures |Primaries(providers)| == 0 <==> forall j :: 0 <= j < |providers| ==> !providers[j].primary
    ensures |Primaries(providers)| == 1 <==> exists i :: 0 <= i < |providers| && SolePrimary(providers, i)
    ensures forall i :: 0 <= i < |providers| && SolePrimary(providers, i) ==> Primaries(providers) == [providers[i]]
    ensures forall p <- Primaries(providers) :: p in providers
  {
    if providers != [] {
      var rest := providers[1..];
      PrimariesMeaning(rest);
      assert forall j :: 0 <= j < |rest| ==> rest[j] == providers[j + 1];
      forall i | 0 <= i < |providers| && SolePrimary(providers, i)
        ensures Primaries(providers) == [providers[i]]
      {
        if i > 0 {
          assert SolePrimary(rest, i - 1);
        } else {
          assert forall j :: 0 <= j < |rest| ==> !rest[j].primary;
        }
      }
      if |Primaries(providers)| == 1 {
        if providers[0].primary {
          assert forall j :: 0 < j < |providers| ==> providers[j] == rest[j - 1];
          assert SolePrimary(providers, 0);
        } else {
          var i :| 0 <= i < |rest| && SolePrimary(rest, i);
          assert forall j :: 0 < j < |providers| ==> providers[j] == rest[j - 1];
          assert SolePrimary(providers, i + 1);
        }
      }
    }
  }

  /** The `i`th provider is the choice: the first with the edge's qualifier; without one, the sole provider
    * or the only primary. */
  ghost predicate Chooses(dep: Dependency, providers: seq<Provider>, i: nat)
    requires i < |providers|
  {
    match dep.qualifier
    case Some(q) => providers[i].qualifier == q && forall j :: 0 <= j < i ==> providers[j].qualifier != q
    case None => |providers| == 1 || SolePrimary(providers, i)
  }

  lemma {:induction false} FirstQualifiedMeaning(providers: seq<Provider>, qualifier: string, i: nat)
    requires i < |providers| && providers[i].qualifier == qualifier
    requires forall j :: 0 <= j < i ==> providers[j].qualifier != qualifier
    ensures FirstQualified(providers, qualifier) == Some(providers[i])
  {
    if i > 0 {
      assert forall j :: 0 <= j < |providers| - 1 ==> providers[1..][j] == providers[j + 1];
      FirstQualifiedMeaning(providers[1..], qualifier, i - 1);
    }
  }

  lemma {:induction false} FirstQualifiedAt(providers: seq<Provider>, qualifier: string) returns (i: nat)
    requires FirstQualified(providers, qualifier).Some?
    ensures i < |providers| && FirstQualified(providers, qualifier) == Some(providers[i])
    ensures providers[i].qualifier == qualifier && forall j :: 0 <= j < i ==> providers[j].qualifier != qualifier
  {
    i := 0;
    if providers[0].qualifier != qualifier {
      i := FirstQualifiedAt(providers[1..], qualifier);
      i := i + 1;
      assert forall j :: 0 < j < |providers| ==> providers[j] == providers[1..][j - 1];
    }
  }

  /** What is selected is the choice, */
  lemma ChoiceIsSelected(dep: Dependency, providers: seq<Provider>, i: nat)
    requires i < |providers| && Chooses(dep, providers, i)
    ensures SelectFor(dep, providers) == Some(providers[i])
  {
    PrimariesMeaning(providers);
    if dep.qualifier.Some? {
      FirstQualifiedMeaning(providers, dep.qualifier.value, i);
    }
  }

  /** and nothing is selected without one. */
  lemma SelectedIsChoice(dep: Dependency, providers: seq<Provider>) returns (i: nat)
    requires SelectFor(dep, providers).Some?
    ensures i < |providers| && Chooses(dep, providers, i) && SelectFor(dep, providers) == Some(providers[i])
  {
    PrimariesMeaning(providers);
    if dep.qualifier.Some? {
      i := FirstQualifiedAt(providers, dep.qualifier.value);
    } else if |providers| == 1 {
      i := 0;
    } else {
      i :| 0 <= i < |providers| && SolePrimary(providers, i);
    }
  }

  /** Selection picks among what it is given, and an unqualified edge selects something exactly when
    * there is one provider or one primary. */
  lemma {:induction false} SelectionMeaning(dep: Dependency, providers: seq<Provider>)
    ensures SelectFor(dep, providers).Some? ==> SelectFor(dep, providers).value in providers
    ensures dep.qualifier.None? ==>
              (SelectFor(dep, providers).Some? <==>
               |providers| == 1 || exists i :: 0 <= i < |providers| && SolePrimary(providers, i))
    ensures dep.qualifier.Some? ==>
              (SelectFor(dep, providers).None? <==>
               forall i :: 0 <= i < |providers| ==> providers[i].qualifier != dep.qualifier.value)
  {
    PrimariesMeaning(providers);
    if dep.qualifier.Some? && providers != [] && providers[0].qualifier != dep.qualifier.value {
      SelectionMeaning(dep, providers[1..]);
      assert forall i :: 0 < i < |providers| ==> providers[i] == providers[1..][i - 1];
    }
  }
}

/** One descriptor per type, and the captive-dependency rule. */
module ComponentRegistry {
  import opened Common
  import opened DependencyGraph

  // ---------------------------------------------------------------- one descriptor per type

  function OfType(components: seq<Component>, t: TypeId): seq<Component> {
    if components == [] then []
    else
      var last := |components| - 1;
      OfType(components[..last], t) + if components[last].ty == t then [components[last]] else []
  }

  /** The types in the order of their first registration. */
  function FirstTypes(components: seq<Component>): seq<TypeId> {
    if components == [] then []
    else
      var last := |components| - 1;
      var before := FirstTypes(components[..last]);
      if components[last].ty in before then before else before + [components[last].ty]
  }

  /** A manually provided instance: its effective factory is none. */
  predicate Manual(c: Component) {
    c.EffectiveFactory() == Ok(None)
  }

  /** The descriptor a type ends up with: its first manual one, else its first one. */
  function Winner(ds: seq<Component>): Component
    requires ds != []
  {
    if |ds| == 1 then ds[0]
    else
      var before := Winner(ds[..|ds| - 1]);
      if Manual(ds[|ds| - 1]) && !Manual(before) then ds[|ds| - 1] else before
  }

  /** The next descriptor of the same kind as the current winner must be the same registration. */
  ghost predicate Joins(ds: seq<Component>, c: Component) {
    ds == [] || Manual(c) != Manual(Winner(ds)) || c.id == Winner(ds).id
  }

  ghost predicate Compatible(ds: seq<Component>) {
    forall j :: 0 <= j < |ds| ==> Joins(ds[..j], ds[j])
  }

  ghost predicate IsFirstManual(ds: seq<Component>, i: nat)
    requires i < |ds|
  {
    Manual(ds[i]) && NoneManual(ds, i)
  }

  ghost predicate NoneManual(ds: seq<Component>, n: nat)
    requires n <= |ds|
  {
    forall k :: 0 <= k < n ==> !Manual(ds[k])
  }

  /** A manual descriptor overrides an automatic one wherever it is registered; the earliest of its
    * kind wins. */
  lemma {:induction false} WinnerMeaning(ds: seq<Component>)
    requires ds != []
    ensures || (NoneManual(ds, |ds|) && Winner(ds) == ds[0])
            || (exists i :: 0 <= i < |ds| && IsFirstManual(ds, i) && Winner(ds) == ds[i])
  {
    var last := |ds| - 1;
    if last > 0 {
      var front := ds[..last];
      WinnerMeaning(front);
      assert forall k :: 0 <= k < last ==> ds[k] == front[k];
      if i :| 0 <= i < last && IsFirstManual(front, i) && Winner(front) == front[i] {
        assert IsFirstManual(ds, i) && ds[i] == front[i];
      } else if Manual(ds[last]) {
        assert IsFirstManual(ds, last);
      }
    } else if Manual(ds[0]) {
      assert IsFirstManual(ds, 0);
    }
  }

  /** When several descriptors of a type are tolerated: all manual ones share an id, and so do the
    * automatic ones registered before the first manual one. Automatic ones after it are ignored. */
  lemma CompatibleMeaning(ds: seq<Component>)
    ensures Compatible(ds) <==>
              && (forall i, j :: 0 <= i < j < |ds| && Manual(ds[i]) && Manual(ds[j]) ==> ds[i].id == ds[j].id)
              && (forall j :: 0 < j < |ds| && (forall k :: 0 <= k <= j ==> !Manual(ds[k])) ==> ds[j].id == ds[0].id)
  {
    forall j | 0 < j < |ds|
      ensures Joins(ds[..j], ds[j]) <==>
                if Manual(ds[j]) then forall i :: 0 <= i < j && IsFirstManual(ds, i) ==> ds[i].id == ds[j].id
                else (forall k :: 0 <= k <= j ==> !Manual(ds[k])) ==> ds[j].id == ds[0].id
    {
      var front := ds[..j];
      WinnerMeaning(front);
      assert forall k :: 0 <= k < j ==> front[k] == ds[k];
      forall i | 0 <= i < j ensures IsFirstManual(front, i) <==> IsFirstManual(ds, i) {
      }
    }
    forall i | 0 <= i < |ds| && Manual(ds[i]) ensures exists f :: 0 <= f <= i && IsFirstManual(ds, f) {
      FirstManualUpTo(ds, i);
    }
  }

  lemma {:induction false} FirstManualUpTo(ds: seq<Component>, i: nat)
    requires i < |ds| && Manual(ds[i])
    ensures exists f :: 0 <= f <= i && IsFirstManual(ds, f)
    decreases i
  {
    if k :| 0 <= k < i && Manual(ds[k]) {
      FirstManualUpTo(ds, k);
    } else {
      assert IsFirstManual(ds, i);
    }
  }

  // ---------------------------------------------------------------- the order of registration

  /** `es` is `ds` registered in another order. */
  ghost predicate Reordered(ds: seq<Component>, es: seq<Component>) {
    multiset(es) == multiset(ds)
  }

  /** All manual descriptors, or all automatic ones, are the same registration. */
  ghost predicate Agree(ds: seq<Component>, manual: bool) {
    forall x, y | x in ds && y in ds && Manual(x) == manual && Manual(y) == manual :: x.id == y.id
  }

  ghost predicate SomeManual(ds: seq<Component>) {
    exists x :: x in ds && Manual(x)
  }

  lemma ReorderedMembers(ds: seq<Component>, es: seq<Component>)
    requires Reordered(ds, es)
    ensures forall x :: x in es <==> x in ds
  {
    assert forall x :: x in es <==> x in multiset(es);
    assert forall x :: x in ds <==> x in multiset(ds);
  }

  /** Any member can be registered first. */
  lemma PutFirst(ds: seq<Component>, x: Component) returns (rest: seq<Component>)
    requires x in ds
    ensures Reordered(ds, [x] + rest)
  {
    var i :| 0 <= i < |ds| && ds[i] == x;
    rest := ds[..i] + ds[i + 1..];
    assert ds == ds[..i] + [x] + ds[i + 1..];
  }

  lemma PutTwoFirst(ds: seq<Component>, x: Component, y: Component) returns (rest: seq<Component>)
    requires x in ds && y in ds && x != y
    ensures Reordered(ds, [x, y] + rest)
  {
    var others := PutFirst(ds, x);
    ReorderedMembers(ds, [x] + others);
    rest := PutFirst(others, y);
    assert [x, y] + rest == [x] + ([y] + rest);
  }

  /** Whether manual descriptors agree does not depend on the order, and disagreement is an error in any. */
  lemma CompatibleAgrees(ds: seq<Component>)
    requires Compatible(ds)
    ensures Agree(ds, true)
    ensures !SomeManual(ds) ==> Agree(ds, false)
  {
    CompatibleMeaning(ds);
    forall x, y | x in ds && y in ds && Manual(x) && Manual(y) ensures x.id == y.id {
      var i :| 0 <= i < |ds| && ds[i] == x;
      var j :| 0 <= j < |ds| && ds[j] == y;
    }
    forall x | x in ds && !SomeManual(ds) ensures x.id == ds[0].id {
      var i :| 0 <= i < |ds| && ds[i] == x;
    }
  }

  lemma AgreeingIsCompatible(ds: seq<Component>)
    requires Agree(ds, true)
    requires Agree(ds, false) || (ds != [] && Manual(ds[0]))
    ensures Compatible(ds)
  {
    CompatibleMeaning(ds);
    forall i | 0 <= i < |ds| ensures ds[i] in ds {
    }
  }

  /** Two automatic descriptors that disagree are rejected when they come first. */
  lemma TwoFirst(x: Component, y: Component, rest: seq<Component>)
    requires !Manual(x) && !Manual(y) && x.id != y.id
    ensures !Compatible([x, y] + rest)
  {
    var ds := [x, y] + rest;
    assert ds[..1] == [x] && !Joins([x], y);
    assert ds[1] == y && !Joins(ds[..1], ds[1]);
  }

  lemma DisagreeingIsRejected(ds: seq<Component>) returns (es: seq<Component>)
    requires !Agree(ds, false)
    ensures Reordered(ds, es) && !Compatible(es)
  {
    var x, y :| x in ds && y in ds && !Manual(x) && !Manual(y) && x.id != y.id;
    var rest := PutTwoFirst(ds, x, y);
    TwoFirst(x, y, rest);
    es := [x, y] + rest;
  }

  /** Descriptors are accepted in every order exactly when those of a kind all agree. */
  lemma AcceptedInEveryOrder(ds: seq<Component>)
    ensures (forall es | Reordered(ds, es) :: Compatible(es)) <==> Agree(ds, true) && Agree(ds, false)
  {
    if Agree(ds, true) && Agree(ds, false) {
      forall es | Reordered(ds, es) ensures Compatible(es) {
        ReorderedMembers(ds, es);
        AgreeingIsCompatible(es);
      }
    } else if Agree(ds, true) {
      var es := DisagreeingIsRejected(ds);
    } else {
      assert Reordered(ds, ds);
      if Compatible(ds) {
        CompatibleAgrees(ds);
      }
    }
  }

  /** They are accepted in some order exactly when the manual ones agree, and the automatic ones agree
    * too or have a manual one to come after. */
  lemma AcceptedInSomeOrder(ds: seq<Component>)
    ensures (exists es :: Reordered(ds, es) && Compatible(es)) <==>
              Agree(ds, true) && (SomeManual(ds) || Agree(ds, false))
  {
    if es :| Reordered(ds, es) && Compatible(es) {
      ReorderedMembers(ds, es);
      CompatibleAgrees(es);
    }
    if Agree(ds, true) && SomeManual(ds) {
      var x :| x in ds && Manual(x);
      var rest := PutFirst(ds, x);
      ReorderedMembers(ds, [x] + rest);
      AgreeingIsCompatible([x] + rest);
    } else if Agree(ds, true) && Agree(ds, false) {
      AgreeingIsCompatible(ds);
      assert Reordered(ds, ds);
    }
  }

  /** So the order of registration decides exactly when automatic descriptors disagree beside manual
    * ones that agree. */
  lemma OrderMatters(ds: seq<Component>)
    ensures (exists es, fs :: Reordered(ds, es) && Reordered(ds, fs) && Compatible(es) && !Compatible(fs)) <==>
              Agree(ds, true) && SomeManual(ds) && !Agree(ds, false)
  {
    AcceptedInEveryOrder(ds);
    AcceptedInSomeOrder(ds);
    if Agree(ds, true) && SomeManual(ds) && !Agree(ds, false) {
      var es :| Reordered(ds, es) && Compatible(es);
      var fs :| Reordered(ds, fs) && !Compatible(fs);
    }
  }

  lemma OfTypeStep(a: seq<Component>, c: Component, t: TypeId)
    ensures OfType(a + [c], t) == OfType(a, t) + if c.ty == t then [c] else []
  {
    assert (a + [c])[..|a|] == a;
  }

  lemma FirstTypesStep(a: seq<Component>, c: Component)
    ensures FirstTypes(a + [c]) == if c.ty in FirstTypes(a) then FirstTypes(a) else FirstTypes(a) + [c.ty]
  {
    assert (a + [c])[..|a|] == a;
  }

  lemma {:induction false} FirstTypesMeaning(components: seq<Component>, t: TypeId)
    ensures t in FirstTypes(components) <==> t in Ids(components)
    ensures OfType(components, t) != [] <==> t in FirstTypes(components)
    ensures forall c :: c in OfType(components, t) <==> c in components && c.ty == t
  {
    if components != [] {
      var last := |components| - 1;
      FirstTypesMeaning(components[..last], t);
      assert components == components[..last] + [components[last]];
      assert forall c :: c in components <==> c in components[..last] || c == components[last];
    }
  }

  lemma {:induction false} FirstTypesDistinct(components: seq<Component>)
    ensures Distinct(FirstTypes(components))
  {
    if components != [] {
      FirstTypesDistinct(components[..|components| - 1]);
    }
  }

  ghost predicate WinnerOf(components: seq<Component>, t: TypeId, d: Component) {
    OfType(components, t) != [] && d == Winner(OfType(components, t)) && d.ty == t
  }

  /** One winner per type, each in the place where its type was first registered. */
  ghost predicate Chosen(components: seq<Component>, chosen: seq<Component>) {
    && |chosen| == |FirstTypes(components)|
    && forall i :: 0 <= i < |chosen| ==> WinnerOf(components, FirstTypes(components)[i], chosen[i])
  }

  /** The `k`th registration is the one its type ends up with: the first manual one of the type, or the first
    * one if none is manual. */
  ghost predicate Wins(components: seq<Component>, k: nat) {
    && k < |components|
    && (if components[k].factories == [] then
          forall j :: 0 <= j < k && components[j].ty == components[k].ty ==> components[j].factories != []
        else
          && (forall j :: 0 <= j < |components| && components[j].ty == components[k].ty ==>
               components[j].factories != [])
          && (forall j :: 0 <= j < k ==> components[j].ty != components[k].ty))
  }

  /** `ds` are the registrations of `t`, and `at` is where they are. */
  ghost predicate Located(components: seq<Component>, ds: seq<Component>, at: seq<nat>, t: TypeId) {
    && |at| == |ds|
    && (forall i :: 0 <= i < |at| ==> at[i] < |components| && components[at[i]] == ds[i] && ds[i].ty == t)
    && (forall i, j :: 0 <= i < j < |at| ==> at[i] < at[j])
    && (forall k :: 0 <= k < |components| && components[k].ty == t ==> exists i :: 0 <= i < |at| && at[i] == k)
  }

  lemma LocatedSkip(a: seq<Component>, c: Component, ds: seq<Component>, at: seq<nat>, t: TypeId)
    requires Located(a, ds, at, t) && c.ty != t
    ensures Located(a + [c], ds, at, t)
  {
  }

  lemma LocatedNext(a: seq<Component>, c: Component, ds: seq<Component>, at: seq<nat>, t: TypeId)
    requires Located(a, ds, at, t) && c.ty == t
    ensures Located(a + [c], ds + [c], at + [|a|], t)
  {
    var longer := at + [|a|];
    forall k | 0 <= k <= |a| && (a + [c])[k].ty == t ensures exists i :: 0 <= i < |longer| && longer[i] == k {
      if k == |a| {
        assert longer[|at|] == k;
      } else {
        var i :| 0 <= i < |at| && at[i] == k;
        assert longer[i] == k;
      }
    }
  }

  lemma {:induction false} OfTypeAt(components: seq<Component>, t: TypeId) returns (at: seq<nat>)
    ensures Located(components, OfType(components, t), at, t)
  {
    if components == [] {
      at := [];
    } else {
      var last := |components| - 1;
      var front, c := components[..last], components[last];
      at := OfTypeAt(front, t);
      assert components == front + [c];
      if c.ty == t {
        LocatedNext(front, c, OfType(front, t), at, t);
        at := at + [last];
      } else {
        LocatedSkip(front, c, OfType(front, t), at, t);
        assert OfType(front, t) + [] == OfType(front, t);
      }
    }
  }

  lemma ManualMeaning(c: Component)
    ensures Manual(c) <==> c.factories == []
  {
    FactoryMeaning(c);
  }

  /** The winner of a type is the registration that wins. */
  lemma WinnerWins(components: seq<Component>, t: TypeId, d: Component) returns (k: nat)
    requires WinnerOf(components, t, d)
    ensures Wins(components, k) && components[k] == d && d.ty == t
  {
    var ds := OfType(components, t);
    var at := OfTypeAt(components, t);
    FirstTypesMeaning(components, t);
    forall c <- components { ManualMeaning(c); }
    WinnerMeaning(ds);
    if i :| 0 <= i < |ds| && IsFirstManual(ds, i) && Winner(ds) == ds[i] {
      k := at[i];
      ManualWins(components, ds, at, t, i);
    } else {
      k := at[0];
      AutomaticWins(components, ds, at, t);
    }
  }

  lemma ManualWins(components: seq<Component>, ds: seq<Component>, at: seq<nat>, t: TypeId, i: nat)
    requires Located(components, ds, at, t) && i < |ds| && IsFirstManual(ds, i)
    ensures Wins(components, at[i])
  {
    ManualMeaning(ds[i]);
    forall j | 0 <= j < at[i] && components[j].ty == t ensures components[j].factories != [] {
      var x :| 0 <= x < |at| && at[x] == j;
      assert x < i;
      ManualMeaning(ds[x]);
    }
  }

  lemma AutomaticWins(components: seq<Component>, ds: seq<Component>, at: seq<nat>, t: TypeId)
    requires Located(components, ds, at, t) && ds != [] && NoneManual(ds, |ds|)
    ensures Wins(components, at[0])
  {
    forall j | 0 <= j < |components| && components[j].ty == t ensures components[j].factories != [] && at[0] <= j {
      var x :| 0 <= x < |at| && at[x] == j;
      ManualMeaning(ds[x]);
    }
    ManualMeaning(ds[0]);
  }

  /** The types come in the order of their first registrations. */
  lemma {:induction false} FirstTypesAt(components: seq<Component>) returns (at: seq<nat>)
    ensures FirstAt(components, FirstTypes(components), at)
  {
    if components == [] {
      at := [];
    } else {
      var last := |components| - 1;
      var front, c := components[..last], components[last];
      at := FirstTypesAt(front);
      assert components == front + [c];
      if c.ty in FirstTypes(front) {
        FirstAtSkip(front, c, FirstTypes(front), at);
      } else {
        FirstTypesMeaning(front, c.ty);
        forall j | 0 <= j < last ensures front[j].ty != c.ty {
          assert front[j] in front;
        }
        FirstAtNext(front, c, FirstTypes(front), at);
        at := at + [last];
      }
    }
  }

  lemma FirstAtSkip(a: seq<Component>, c: Component, types: seq<TypeId>, at: seq<nat>)
    requires FirstAt(a, types, at)
    ensures FirstAt(a + [c], types, at)
  {
  }

  lemma FirstAtNext(a: seq<Component>, c: Component, types: seq<TypeId>, at: seq<nat>)
    requires FirstAt(a, types, at) && forall j :: 0 <= j < |a| ==> a[j].ty != c.ty
    ensures FirstAt(a + [c], types + [c.ty], at + [|a|])
  {
    var longer := at + [|a|];
    forall i, j | 0 <= i < |longer| && 0 <= j < longer[i] ensures (a + [c])[j].ty != (types + [c.ty])[i] {
      if i < |at| {
        assert a[j].ty != types[i];
      }
    }
  }

  /** The `i`th type is first registered at `at[i]`. */
  ghost predicate FirstAt(components: seq<Component>, types: seq<TypeId>, at: seq<nat>) {
    && |at| == |types|
    && (forall i :: 0 <= i < |at| ==> at[i] < |components| && components[at[i]].ty == types[i])
    && (forall i, j :: 0 <= i < |at| && 0 <= j < at[i] ==> components[j].ty != types[i])
    && (forall i, j :: 0 <= i < j < |at| ==> at[i] < at[j])
  }

  /** What is resolved, in terms of the registrations: each is the registration that wins its type, and they
    * come in the order in which their types were first registered. */
  lemma ResolvedRegistrations(components: seq<Component>, chosen: seq<Component>)
    returns (wins: seq<nat>, first: seq<nat>)
    requires Chosen(components, chosen)
    ensures |wins| == |chosen| && forall i :: 0 <= i < |wins| ==>
              Wins(components, wins[i]) && components[wins[i]] == chosen[i]
    ensures FirstAt(components, FirstTypes(components), first)
    ensures |first| == |chosen| && forall i :: 0 <= i < |first| ==> components[first[i]].ty == chosen[i].ty
  {
    first := FirstTypesAt(components);
    wins := [];
    var i := 0;
    while i < |chosen|
      invariant 0 <= i == |wins| <= |chosen|
      invariant forall j :: 0 <= j < i ==> Wins(components, wins[j]) && components[wins[j]] == chosen[j]
    {
      var k := WinnerWins(components, FirstTypes(components)[i], chosen[i]);
      wins := wins + [k];
      i := i + 1;
    }
  }

  ghost predicate Positions(components: seq<Component>, positions: map<TypeId, nat>) {
    && (forall t :: t in positions <==> t in FirstTypes(components))
    && (forall t <- positions :: positions[t] < |FirstTypes(components)| && FirstTypes(components)[positions[t]] == t)
  }

  ghost predicate AllCompatible(components: seq<Component>) {
    forall t :: Compatible(OfType(components, t))
  }

  /** One more descriptor leaves the winners of other types alone; the first of its type wins; a later
    * one wins only by overriding an automatic winner manually. */
  lemma WinnerStep(a: seq<Component>, c: Component, t: TypeId, d: Component)
    ensures t != c.ty && WinnerOf(a, t, d) ==> WinnerOf(a + [c], t, d)
    ensures OfType(a, c.ty) == [] ==> WinnerOf(a + [c], c.ty, c)
    ensures WinnerOf(a, c.ty, d) ==> WinnerOf(a + [c], c.ty, if Manual(c) && !Manual(d) then c else d)
  {
    OfTypeStep(a, c, t);
    OfTypeStep(a, c, c.ty);
    var ds := OfType(a, c.ty);
    assert (ds + [c])[..|ds|] == ds;
    assert OfType(a, t) + [] == OfType(a, t);
  }

  /** A descriptor of a new type goes to the end. */
  lemma ChosenNew(a: seq<Component>, c: Component, chosen: seq<Component>)
    requires Chosen(a, chosen) && c.ty !in FirstTypes(a)
    ensures Chosen(a + [c], chosen + [c]) && OfType(a, c.ty) == []
  {
    FirstTypesStep(a, c);
    FirstTypesMeaning(a, c.ty);
    var types, longer := FirstTypes(a), chosen + [c];
    forall i | 0 <= i < |longer| ensures WinnerOf(a + [c], (types + [c.ty])[i], longer[i]) {
      WinnerStep(a, c, (types + [c.ty])[i], longer[i]);
    }
  }

  /** Another descriptor of a known type changes that type's winner, in place, or nothing. */
  lemma ChosenAgain(a: seq<Component>, c: Component, chosen: seq<Component>, position: nat)
    requires Chosen(a, chosen) && position < |chosen| && FirstTypes(a)[position] == c.ty
    ensures OfType(a, c.ty) != [] && chosen[position] == Winner(OfType(a, c.ty))
    ensures Chosen(a + [c], chosen[position := if Manual(c) && !Manual(chosen[position]) then c else chosen[position]])
  {
    FirstTypesStep(a, c);
    FirstTypesDistinct(a);
    var types := FirstTypes(a);
    var updated := chosen[position := if Manual(c) && !Manual(chosen[position]) then c else chosen[position]];
    assert WinnerOf(a, c.ty, chosen[position]);
    forall i | 0 <= i < |updated| ensures WinnerOf(a + [c], types[i], updated[i]) {
      WinnerStep(a, c, types[i], chosen[i]);
    }
  }

  lemma PositionsStep(a: seq<Component>, c: Component, positions: map<TypeId, nat>)
    requires Positions(a, positions)
    ensures c.ty in positions ==> Positions(a + [c], positions)
    ensures c.ty !in positions ==> Positions(a + [c], positions[c.ty := |FirstTypes(a)|])
  {
    FirstTypesStep(a, c);
  }

  lemma CompatibleSnoc(ds: seq<Component>, c: Component)
    ensures Compatible(ds + [c]) <==> Compatible(ds) && Joins(ds, c)
  {
    var longer := ds + [c];
    assert longer[..|ds|] == ds;
    forall j | 0 <= j < |ds| ensures Joins(longer[..j], longer[j]) <==> Joins(ds[..j], ds[j]) {
      assert longer[..j] == ds[..j];
    }
    assert Compatible(longer) ==> Joins(longer[..|ds|], longer[|ds|]);
  }

  lemma CompatibleStep(a: seq<Component>, c: Component)
    ensures AllCompatible(a + [c]) <==> AllCompatible(a) && Joins(OfType(a, c.ty), c)
  {
    forall t
      ensures Compatible(OfType(a + [c], t)) <==> Compatible(OfType(a, t)) && (t == c.ty ==> Joins(OfType(a, t), c))
    {
      OfTypeStep(a, c, t);
      CompatibleSnoc(OfType(a, t), c);
      assert OfType(a, t) + [] == OfType(a, t);
    }
    assert AllCompatible(a + [c]) ==> Compatible(OfType(a + [c], c.ty));
  }

  /** Compatibility of all is compatibility of every prefix. */
  lemma {:induction false} CompatiblePrefix(components: seq<Component>, i: nat)
    requires i <= |components| && AllCompatible(components)
    ensures AllCompatible(components[..i])
    decreases |components| - i
  {
    if i == |components| {
      assert components[..i] == components;
    } else {
      CompatiblePrefix(components, i + 1);
      assert components[..i + 1] == components[..i] + [components[i]];
      CompatibleStep(components[..i], components[i]);
    }
  }

  /** One iteration: registers `c` after the descriptors `done`. */
  method AddDescriptor(ghost done: seq<Component>, c: Component, chosen: seq<Component>, positions: map<TypeId, nat>)
    returns (error: Option<DiError>, chosen': seq<Component>, positions': map<TypeId, nat>)
    requires Chosen(done, chosen) && Positions(done, positions) && AllCompatible(done)
    ensures error.None? <==> c.EffectiveFactory().Ok? && AllCompatible(done + [c])
    ensures error.Some? ==>
              error.value ==
                if c.EffectiveFactory().Err? then c.EffectiveFactory().error else DuplicateComponentType(c.ty)
    ensures error.None? ==> Chosen(done + [c], chosen') && Positions(done + [c], positions')
  {
    PositionsStep(done, c, positions);
    CompatibleStep(done, c);
    error, chosen', positions' := None, chosen, positions;
    var factory := c.EffectiveFactory();
    if factory.Err? {
      error := Some(factory.error);
    } else if c.ty !in positions {
      ChosenNew(done, c, chosen);
      positions' := positions[c.ty := |chosen|];
      chosen' := chosen + [c];
    } else {
      error, chosen' := AddAgain(done, c, chosen, positions[c.ty]);
    }
  }

  /** Another descriptor of a known type. */
  method AddAgain(ghost done: seq<Component>, c: Component, chosen: seq<Component>, position: nat)
    returns (error: Option<DiError>, chosen': seq<Component>)
    requires Chosen(done, chosen) && position < |chosen| && FirstTypes(done)[position] == c.ty
    requires c.EffectiveFactory().Ok?
    ensures error.None? <==> Joins(OfType(done, c.ty), c)
    ensures error.Some? ==> error.value == DuplicateComponentType(c.ty)
    ensures error.None? ==> Chosen(done + [c], chosen')
  {
    ChosenAgain(done, c, chosen, position);
    error, chosen' := None, chosen;
    var existing := chosen[position];
    assert chosen[position := existing] == chosen;
    var newManual := c.EffectiveFactory() == Ok(None);
    var existingManual := existing.EffectiveFactory() == Ok(None);
    if newManual && !existingManual {
      chosen' := chosen[position := c];
    } else if newManual == existingManual && existing.id != c.id {
      error := Some(DuplicateComponentType(c.ty));
    }
  }

  /** The `i`th descriptor is the first that cannot be registered, and `error` says why. */
  ghost predicate FirstFault(components: seq<Component>, i: nat, error: DiError)
    requires i < |components|
  {
    && AllCompatible(components[..i]) && (forall k :: 0 <= k < i ==> components[k].EffectiveFactory().Ok?)
    && match components[i].EffectiveFactory()
       case Err(ambiguous) => error == ambiguous
       case Ok(_) => error == DuplicateComponentType(components[i].ty) && !AllCompatible(components[..i + 1])
  }

  /** How resolving the registered descriptors ends. */
  ghost predicate Resolution(components: seq<Component>, r: Result<seq<Component>, DiError>) {
    && (r.Ok? <==> (forall c <- components :: c.EffectiveFactory().Ok?) && AllCompatible(components))
    && (r.Ok? ==> Chosen(components, r.value))
    && (r.Err? ==> exists i :: 0 <= i < |components| && FirstFault(components, i, r.error))
  }

  /** `resolved_components`: fails exactly on an ambiguous factory or on incompatible descriptors of one
    * type, and otherwise yields one winner per type, in order of first registration. */
  method ResolvedComponents(components: seq<Component>) returns (r: Result<seq<Component>, DiError>)
    ensures Resolution(components, r)
    ensures r.Ok? ==> forall i, j :: 0 <= i < j < |r.value| ==> r.value[i].ty != r.value[j].ty
  {
    var chosen: seq<Component> := [];
    var positions: map<TypeId, nat> := map[];
    for i := 0 to |components|
      invariant Chosen(components[..i], chosen) && Positions(components[..i], positions)
      invariant AllCompatible(components[..i])
      invariant forall c <- components[..i] :: c.EffectiveFactory().Ok?
    {
      var c := components[i];
      assert c in components && components[..i + 1] == components[..i] + [c];
      var error, chosen', positions' := AddDescriptor(components[..i], c, chosen, positions);
      if error.Some? {
        if AllCompatible(components) {
          CompatiblePrefix(components, i + 1);
        }
        assert FirstFault(components, i, error.value) by {
          forall k | 0 <= k < i ensures components[k].EffectiveFactory().Ok? {
            assert components[..i][k] == components[k];
          }
        }
        return Err(error.value);
      }
      chosen, positions := chosen', positions';
    }
    assert components[..|components|] == components;
    FirstTypesDistinct(components);
    r := Ok(chosen);
  }

  lemma {:induction false} OfOneType(components: seq<Component>, t: TypeId, u: TypeId)
    requires forall c <- components :: c.ty == t
    ensures OfType(components, u) == if u == t then components else []
  {
    if components != [] {
      var last := |components| - 1;
      OfOneType(components[..last], t, u);
      assert components == components[..last] + [components[last]];
      assert components[last] in components;
    }
  }

  /** A manual descriptor and two automatic ones that disagree: resolved with the manual one first, a
    * duplicate with it last. */
  lemma OrderDecides(manual: Component, one: Component, two: Component,
                     manualFirst: Result<seq<Component>, DiError>, manualLast: Result<seq<Component>, DiError>)
    requires manual.ty == one.ty == two.ty && Manual(manual) && !Manual(one) && !Manual(two) && one.id != two.id
    requires one.EffectiveFactory().Ok? && two.EffectiveFactory().Ok?
    requires Resolution([manual, one, two], manualFirst) && Resolution([one, two, manual], manualLast)
    ensures manualFirst.Ok? && manualLast == Err(DuplicateComponentType(one.ty))
  {
    ManualFirst(manual, one, two);
    TwoFirst(one, two, [manual]);
    assert [one, two] + [manual] == [one, two, manual];
    forall u: TypeId ensures OfType([manual, one, two], u) == if u == one.ty then [manual, one, two] else [] {
      OfOneType([manual, one, two], one.ty, u);
    }
    OfOneType([one, two, manual], one.ty, one.ty);
    assert !AllCompatible([one, two, manual]);
  }

  lemma ManualFirst(manual: Component, one: Component, two: Component)
    requires Manual(manual) && !Manual(one) && !Manual(two)
    ensures Compatible([manual, one, two])
  {
    AgreeingIsCompatible([manual, one, two]);
  }

  /** Such descriptors exist. */
  lemma DisagreeingDescriptors() returns (manual: Component, one: Component, two: Component)
    ensures manual.ty == one.ty == two.ty && Manual(manual) && !Manual(one) && !Manual(two) && one.id != two.id
    ensures one.EffectiveFactory().Ok? && two.EffectiveFactory().Ok?
  {
    var scope := Scope(SINGLETON_RANK, "singleton", false);
    manual := Component("manual", "Service", 0, scope, []);
    one := Component("one", "Service", 0, scope, [Factory([], true)]);
    two := Component("two", "Service", 0, scope, [Factory([], true)]);
    assert one.EffectiveFactory() == Ok(Some(Factory([], true)));
  }

  // ---------------------------------------------------------------- the captive-dependency rule

  /** Anyone may hold a transient; a transient may hold singletons; others hold what ranks no lower. */
  predicate ScopeAllows(consumer: Scope, dependency: Scope) {
    if dependency.isTransient then true
    else if consumer.isTransient then dependency.rank == SINGLETON_RANK
    else dependency.rank >= consumer.rank
  }

  function ScopeOf(components: seq<Component>): map<TypeId, Scope> {
    if components == [] then map[]
    else ScopeOf(components[..|components| - 1])[components[|components| - 1].ty := components[|components| - 1].scope]
  }

  lemma {:induction false} ScopeOfMeaning(components: seq<Component>)
    ensures forall t :: t in ScopeOf(components) <==> t in Ids(components)
    ensures (forall i, j :: 0 <= i < j < |components| ==> components[i].ty != components[j].ty) ==>
              forall c <- components :: c.ty in ScopeOf(components) && ScopeOf(components)[c.ty] == c.scope
  {
    if components != [] {
      var last := |components| - 1;
      ScopeOfMeaning(components[..last]);
      assert components == components[..last] + [components[last]];
      assert forall c :: c in components <==> c in components[..last] || c == components[last];
    }
  }

  /** The registered types an edge may resolve to: the type itself, else the trait's providers. */
  function Targets(scopeOf: map<TypeId, Scope>, providers: seq<Provider>, dep: Dependency): set<TypeId> {
    if dep.ty in scopeOf then {dep.ty}
    else Provided(scopeOf, providers, dep.ty)
  }

  function Provided(scopeOf: map<TypeId, Scope>, providers: seq<Provider>, t: TypeId): set<TypeId> {
    set p <- providers | p.traitTy == t && p.concreteTy in scopeOf :: p.concreteTy
  }

  lemma ProvidedStep(scopeOf: map<TypeId, Scope>, a: seq<Provider>, p: Provider, t: TypeId)
    ensures Provided(scopeOf, a + [p], t)
         == Provided(scopeOf, a, t) + if p.traitTy == t && p.concreteTy in scopeOf then {p.concreteTy} else {}
  {
    assert forall q :: q in a + [p] <==> q in a || q == p;
  }

  /** Edges the rule speaks about. */
  predicate Holding(dep: Dependency) {
    !dep.dynamic && !dep.config && dep.resolution != Fresh
  }

  ghost predicate EdgeAllowed(scopeOf: map<TypeId, Scope>, providers: seq<Provider>, c: Component, dep: Dependency) {
    Holding(dep) ==>
      forall t <- Targets(scopeOf, providers, dep) :: t in scopeOf && ScopeAllows(c.scope, scopeOf[t])
  }

  ghost predicate AllAllowed(components: seq<Component>, providers: seq<Provider>) {
    forall c <- components, dep <- c.Dependencies() :: EdgeAllowed(ScopeOf(components), providers, c, dep)
  }

  /** Some edge of `c` may resolve to a component that `c` must not hold, and `error` names both. */
  ghost predicate Violation(scopeOf: map<TypeId, Scope>, providers: seq<Provider>, c: Component, error: DiError)
    requires error.ScopeViolation?
  {
    error.component == c.name &&
    exists dep <- c.Dependencies() ::
      Holding(dep) && error.dependency in Targets(scopeOf, providers, dep) && error.dependency in scopeOf &&
      !ScopeAllows(c.scope, scopeOf[error.dependency])
  }

  /** The scopes behind one edge, in the order they are checked. */
  method DependencyScopes(scopeOf: map<TypeId, Scope>, providers: seq<Provider>, dep: Dependency)
    returns (found: seq<TypeId>)
    ensures (set t <- found) == Targets(scopeOf, providers, dep)
    ensures forall t <- found :: t in scopeOf
  {
    if dep.ty in scopeOf {
      return [dep.ty];
    }
    found := [];
    for i := 0 to |providers|
      invariant (set t <- found) == Provided(scopeOf, providers[..i], dep.ty)
      invariant forall t <- found :: t in scopeOf
    {
      var p := providers[i];
      assert providers[..i + 1] == providers[..i] + [p];
      ProvidedStep(scopeOf, providers[..i], p, dep.ty);
      if p.traitTy == dep.ty && p.concreteTy in scopeOf {
        found := found + [p.concreteTy];
      }
    }
    assert providers[..|providers|] == providers;
  }

  /** Checks one consumer against everything its edges may resolve to. */
  method ValidateConsumer(scopeOf: map<TypeId, Scope>, providers: seq<Provider>, c: Component)
    returns (error: Option<DiError>)
    ensures error.None? <==> forall dep <- c.Dependencies() :: EdgeAllowed(scopeOf, providers, c, dep)
    ensures error.Some? ==> error.value.ScopeViolation? && Violation(scopeOf, providers, c, error.value)
  {
    var deps := c.Dependencies();
    for i := 0 to |deps|
      invariant forall dep <- deps[..i] :: EdgeAllowed(scopeOf, providers, c, dep)
    {
      var dep := deps[i];
      assert dep in deps && deps[..i + 1] == deps[..i] + [dep];
      if !dep.dynamic && !dep.config {
        var found := DependencyScopes(scopeOf, providers, dep);
        for k := 0 to |found|
          invariant dep.resolution != Fresh ==> forall t <- found[..k] :: ScopeAllows(c.scope, scopeOf[t])
        {
          assert found[k] in (set t <- found) && found[..k + 1] == found[..k] + [found[k]];
          if dep.resolution != Fresh && !ScopeAllows(c.scope, scopeOf[found[k]]) {
            return Some(ScopeViolation(c.name, found[k]));
          }
        }
        assert forall t <- Targets(scopeOf, providers, dep) :: t in (set u <- found);
      }
    }
    assert deps[..|deps|] == deps;
    error := None;
  }

  method BuildScopeOf(components: seq<Component>) returns (scopeOf: map<TypeId, Scope>)
    ensures scopeOf == ScopeOf(components)
  {
    scopeOf := map[];
    for i := 0 to |components|
      invariant scopeOf == ScopeOf(components[..i])
    {
      assert components[..i + 1][..i] == components[..i];
      scopeOf := scopeOf[components[i].ty := components[i].scope];
    }
    assert components[..|components|] == components;
  }

  /** `validate_scopes`. */
  method ValidateScopes(components: seq<Component>, providers: seq<Provider>) returns (error: Option<DiError>)
    ensures error.None? <==> AllAllowed(components, providers)
    ensures error.Some? ==> error.value.ScopeViolation?
    ensures error.Some? ==> exists c <- components :: Violation(ScopeOf(components), providers, c, error.value)
  {
    var scopeOf := BuildScopeOf(components);
    for i := 0 to |components|
      invariant forall c <- components[..i], dep <- c.Dependencies() :: EdgeAllowed(scopeOf, providers, c, dep)
    {
      assert components[i] in components && components[..i + 1] == components[..i] + [components[i]];
      var violation := ValidateConsumer(scopeOf, providers, components[i]);
      if violation.Some? {
        return violation;
      }
    }
    assert components[..|components|] == components;
    error := None;
  }

  /** `a` may come to hold `b`: some edge of `a` that the rule speaks about may resolve to `b`. */
  ghost predicate MayHold(components: seq<Component>, providers: seq<Provider>, a: Component, b: Component) {
    && a in components && b in components
    && exists dep <- a.Dependencies() :: Holding(dep) && b.ty in Targets(ScopeOf(components), providers, dep)
  }

  ghost predicate HoldingPath(components: seq<Component>, providers: seq<Provider>, path: seq<Component>) {
    forall i :: 0 <= i < |path| - 1 ==> MayHold(components, providers, path[i], path[i + 1])
  }

  /** An edge of `a` may resolve to `b`, said of the descriptors: a static edge, not to a configuration value,
    * whose target is not constructed afresh for it; to `b` by its own type, or to a trait that `b` provides. */
  ghost predicate CanResolveTo(components: seq<Component>, providers: seq<Provider>, a: Component, b: Component) {
    exists dep <- a.Dependencies() ::
      && !dep.dynamic && !dep.config && dep.resolution != Fresh
      && (dep.ty == b.ty ||
          ((forall c <- components :: c.ty != dep.ty) &&
           exists p <- providers :: p.traitTy == dep.ty && p.concreteTy == b.ty))
  }

  /** The rule itself: a transient may be held by anyone; a transient may hold what never dies; anything else
    * what lives at least as long. */
  ghost predicate MayOutlive(a: Component, b: Component) {
    || b.scope.isTransient
    || (a.scope.isTransient && b.scope.rank == 255)
    || (!a.scope.isTransient && b.scope.rank >= a.scope.rank)
  }

  lemma HoldsIffCanResolve(components: seq<Component>, providers: seq<Provider>, a: Component, b: Component)
    requires a in components && b in components
    ensures MayHold(components, providers, a, b) <==> CanResolveTo(components, providers, a, b)
  {
    ScopeOfMeaning(components);
    forall dep ensures b.ty in Targets(ScopeOf(components), providers, dep) <==>
                         (dep.ty == b.ty ||
                          ((forall c <- components :: c.ty != dep.ty) &&
                           exists p <- providers :: p.traitTy == dep.ty && p.concreteTy == b.ty))
    {
      assert dep.ty in ScopeOf(components) <==> exists c <- components :: c.ty == dep.ty;
    }
  }

  /** Validation accepts exactly the registries in which no edge can resolve to a component that its consumer
    * may outlive: equal ranks and transients included. */
  lemma AllowedExactly(components: seq<Component>, providers: seq<Provider>)
    requires forall i, j :: 0 <= i < j < |components| ==> components[i].ty != components[j].ty
    ensures AllAllowed(components, providers) <==>
              forall a <- components, b <- components :: CanResolveTo(components, providers, a, b) ==> MayOutlive(a, b)
  {
    ScopeOfMeaning(components);
    var scopeOf := ScopeOf(components);
    if AllAllowed(components, providers) {
      forall a <- components, b <- components | CanResolveTo(components, providers, a, b) ensures MayOutlive(a, b) {
        HoldsIffCanResolve(components, providers, a, b);
        var dep :| dep in a.Dependencies() && Holding(dep) && b.ty in Targets(scopeOf, providers, dep);
        assert EdgeAllowed(scopeOf, providers, a, dep);
      }
    }
    if forall a <- components, b <- components :: CanResolveTo(components, providers, a, b) ==> MayOutlive(a, b) {
      forall a <- components, dep <- a.Dependencies() ensures EdgeAllowed(scopeOf, providers, a, dep) {
        forall t <- Targets(scopeOf, providers, dep) | Holding(dep) ensures ScopeAllows(a.scope, scopeOf[t]) {
          var b :| b in components && b.ty == t;
          assert MayHold(components, providers, a, b);
          HoldsIffCanResolve(components, providers, a, b);
        }
      }
    }
  }

  /** The least rank a component may, directly or not, come to hold. */
  function Floor(s: Scope): Rank {
    if s.isTransient then SINGLETON_RANK else s.rank
  }

  lemma MayHoldRaises(components: seq<Component>, providers: seq<Provider>, a: Component, b: Component)
    requires forall i, j :: 0 <= i < j < |components| ==> components[i].ty != components[j].ty
    requires AllAllowed(components, providers) && MayHold(components, providers, a, b)
    ensures Floor(a.scope) <= Floor(b.scope)
  {
    ScopeOfMeaning(components);
    var dep :| dep in a.Dependencies() && Holding(dep) && b.ty in Targets(ScopeOf(components), providers, dep);
    assert EdgeAllowed(ScopeOf(components), providers, a, dep);
  }

  lemma {:induction false} FloorRises(components: seq<Component>, providers: seq<Provider>, path: seq<Component>)
    requires forall i, j :: 0 <= i < j < |components| ==> components[i].ty != components[j].ty
    requires AllAllowed(components, providers) && path != [] && HoldingPath(components, providers, path)
    ensures Floor(path[0].scope) <= Floor(path[|path| - 1].scope)
  {
    if |path| > 1 {
      var last := |path| - 1;
      forall i | 0 <= i < last - 1 ensures MayHold(components, providers, path[..last][i], path[..last][i + 1]) {
        assert MayHold(components, providers, path[i], path[i + 1]);
      }
      FloorRises(components, providers, path[..last]);
      assert MayHold(components, providers, path[last - 1], path[last - 1 + 1]);
      MayHoldRaises(components, providers, path[last - 1], path[last]);
    }
  }

  /** The captive-dependency rule holds along chains of any length, transients in between included: no
    * stored component ever reaches a stored component that may die before it. */
  lemma NoCaptiveDependency(components: seq<Component>, providers: seq<Provider>, path: seq<Component>)
    requires forall i, j :: 0 <= i < j < |components| ==> components[i].ty != components[j].ty
    requires AllAllowed(components, providers) && path != [] && HoldingPath(components, providers, path)
    requires !path[0].scope.isTransient && !path[|path| - 1].scope.isTransient
    ensures path[|path| - 1].scope.rank >= path[0].scope.rank
    ensures path[0].scope.rank == SINGLETON_RANK ==> path[|path| - 1].scope.rank == SINGLETON_RANK
  {
    FloorRises(components, providers, path);
  }
}

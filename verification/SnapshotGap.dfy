/** When the snapshot of an unchanged world matches that world, and a world where it does not. */
module SnapshotGap {
  import opened Common
  import opened ConfigTree
  import opened TemplateSemantics
  import opened ResolveContext
  import opened Deserialization

  // ---------------------------------------------------------------- the cost of a recheck

  /** What the budgets count: resolution steps, or rendered bytes. */
  datatype Unit = Steps | Bytes

  function Amount(u: Unit, m: Meaning): nat {
    if !m.Yields? then 0 else if u.Steps? then |m.trace| else Cost(m)
  }

  function Total(trace: seq<ResolvedDependency>, amount: Placeholder -> nat): nat {
    if trace == [] then 0 else Total(trace[..|trace| - 1], amount) + amount(trace[|trace| - 1].placeholder)
  }

  lemma TotalStep(trace: seq<ResolvedDependency>, d: ResolvedDependency, amount: Placeholder -> nat)
    ensures Total(trace + [d], amount) == Total(trace, amount) + amount(d.placeholder)
  {
    assert (trace + [d])[..|trace|] == trace;
  }

  lemma {:induction false} TotalAppend(a: seq<ResolvedDependency>, b: seq<ResolvedDependency>,
                                       amount: Placeholder -> nat)
    ensures Total(a + b, amount) == Total(a, amount) + Total(b, amount)
    decreases |b|
  {
    if b == [] {
      assert a + b == a;
    } else {
      assert (a + b)[..|a + b| - 1] == a + b[..|b| - 1];
      TotalAppend(a, b[..|b| - 1], amount);
    }
  }

  function ReferenceAmount(u: Unit, w: World, fuel: nat): Placeholder -> nat {
    p => Amount(u, Eval(w, Ref(p), fuel))
  }

  /** What re-resolving the placeholders of `trace` one by one takes: the sum of their own amounts. */
  function Recheck(u: Unit, w: World, trace: seq<ResolvedDependency>, fuel: nat): nat {
    Total(trace, ReferenceAmount(u, w, fuel))
  }

  lemma RecheckStep(u: Unit, w: World, trace: seq<ResolvedDependency>, d: ResolvedDependency, fuel: nat)
    ensures Recheck(u, w, trace + [d], fuel)
              == Recheck(u, w, trace, fuel) + Amount(u, Eval(w, Ref(d.placeholder), fuel))
  {
    TotalStep(trace, d, ReferenceAmount(u, w, fuel));
  }

  /** Re-resolving a trace whose values all hold takes exactly that much. */
  lemma {:induction false} RecheckMeaning(u: Unit, w: World, trace: seq<ResolvedDependency>)
    requires Holds(w, trace, MAX_RESOLUTION_DEPTH)
    ensures PassMeaning(w, References(trace)).Yields?
    ensures Amount(u, PassMeaning(w, References(trace))) == Recheck(u, w, trace, MAX_RESOLUTION_DEPTH)
  {
    if trace != [] {
      var last := |trace| - 1;
      var d := trace[last];
      assert trace == trace[..last] + [d];
      HoldsAppend(w, trace[..last], [d], MAX_RESOLUTION_DEPTH);
      assert d in [d];
      RecheckMeaning(u, w, trace[..last]);
      RecheckStep(u, w, trace[..last], d, MAX_RESOLUTION_DEPTH);
      ReferencesStep(trace[..last], d);
      PassStep(w, References(trace[..last]), Ref(d.placeholder));
    }
  }

  /** The snapshot of a pass matches the world it was taken in exactly when the recheck is within the
    * budgets of one context. */
  lemma SnapshotMatchesItsWorld(w: World, exprs: seq<Expr>)
    requires PassFits(w, exprs)
    ensures var trace := PassMeaning(w, exprs).trace;
            Matches(w, trace) <==>
              && Recheck(Steps, w, trace, MAX_RESOLUTION_DEPTH) <= MAX_RESOLUTION_STEPS
              && Recheck(Bytes, w, trace, MAX_RESOLUTION_DEPTH) <= MAX_RENDERED_BYTES
  {
    PassTraceHolds(w, exprs);
    RecheckMeaning(Steps, w, PassMeaning(w, exprs).trace);
    RecheckMeaning(Bytes, w, PassMeaning(w, exprs).trace);
  }

  // ---------------------------------------------------------------- the cost, by nesting depth

  /** What evaluating `e` inside `depth` references takes, where a step counts once for itself and once for
    * every reference around it, and a rendering once for every reference around it. */
  function Nested(u: Unit, w: World, e: Expr, depth: nat, fuel: nat): nat
    decreases fuel, match e case Ref(_) => 0 case Text(_) => 2 case Node(_, _) => 3, 0
  {
    match e
    case Ref(p) =>
      if fuel == 0 then 0
      else
        var within :=
          match OriginOf(w, p.key)
          case InTree(node) => Nested(u, w, Node(p.key, node), depth + 1, fuel - 1)
          case _ => 0;
        if u.Steps? then depth + 1 + within else within
    case Text(segments) =>
      var m := EvalSegments(w, segments, fuel);
      NestedSegments(u, w, segments, depth, fuel) + if u.Bytes? && m.Yields? then depth * ByteLen(m.text) else 0
    case Node(_, node) => if node.Str? then Nested(u, w, Text(node.s.segments), depth, fuel) else 0
  }

  function NestedSegments(u: Unit, w: World, segments: seq<Segment>, depth: nat, fuel: nat): nat
    decreases fuel, 1, |segments|
  {
    if segments == [] then 0
    else
      var last := |segments| - 1;
      NestedSegments(u, w, segments[..last], depth, fuel) + NestedSegment(u, w, segments[last], depth, fuel)
  }

  function NestedSegment(u: Unit, w: World, segment: Segment, depth: nat, fuel: nat): nat
    decreases fuel, 0, 1
  {
    match segment
    case Literal(_) => 0
    case Hole(p) => Nested(u, w, Ref(p), depth, fuel)
  }

  lemma AmountAppend(u: Unit, a: Meaning, b: Meaning)
    requires a.Yields? && b.Yields?
    ensures Amount(u, Append(a, b)) == Amount(u, a) + Amount(u, b)
  {
    TotalBytesAppend(a.rendered, b.rendered);
  }

  lemma AmountReturned(u: Unit, m: Meaning)
    requires m.Yields?
    ensures Amount(u, Returned(m)) == Amount(u, m) + if u.Bytes? then ByteLen(m.text) else 0
  {
    assert (m.rendered + [m.text])[..|m.rendered|] == m.rendered;
  }

  /** One more reference around an expression adds the expression's own amount. */
  lemma {:induction false} Deeper(u: Unit, w: World, e: Expr, depth: nat, n: nat)
    requires Eval(w, e, n).Yields?
    ensures Nested(u, w, e, depth + 1, n) == Nested(u, w, e, depth, n) + Amount(u, Eval(w, e, n))
    decreases n, match e case Ref(_) => 0 case Text(_) => 2 case Node(_, _) => 3, 0
  {
    match e
    case Ref(p) =>
      if OriginOf(w, p.key).InTree? {
        Deeper(u, w, Node(p.key, OriginOf(w, p.key).node), depth + 1, n - 1);
      }
    case Text(segments) =>
      var m := EvalSegments(w, segments, n);
      DeeperSegments(u, w, segments, depth, n);
      AmountReturned(u, m);
      assert (depth + 1) * ByteLen(m.text) == depth * ByteLen(m.text) + ByteLen(m.text);
    case Node(_, node) =>
      if node.Str? {
        Deeper(u, w, Text(node.s.segments), depth, n);
      }
  }

  lemma {:induction false} DeeperSegments(u: Unit, w: World, segments: seq<Segment>, depth: nat, n: nat)
    requires EvalSegments(w, segments, n).Yields?
    ensures NestedSegments(u, w, segments, depth + 1, n)
         == NestedSegments(u, w, segments, depth, n) + Amount(u, EvalSegments(w, segments, n))
    decreases n, 1, |segments|
  {
    if segments != [] {
      var last := |segments| - 1;
      DeeperSegments(u, w, segments[..last], depth, n);
      DeeperSegment(u, w, segments[last], depth, n);
      AmountAppend(u, EvalSegments(w, segments[..last], n), EvalSegment(w, segments[last], n));
    }
  }

  lemma {:induction false} DeeperSegment(u: Unit, w: World, segment: Segment, depth: nat, n: nat)
    requires EvalSegment(w, segment, n).Yields?
    ensures NestedSegment(u, w, segment, depth + 1, n)
         == NestedSegment(u, w, segment, depth, n) + Amount(u, EvalSegment(w, segment, n))
    decreases n, 0, 1
  {
    if segment.Hole? {
      Deeper(u, w, Ref(segment.placeholder), depth, n);
    }
  }

  /** Rechecking what `e` observed costs every step once per reference it was nested in, itself included. */
  lemma {:induction false} RecheckIsNested(u: Unit, w: World, e: Expr, n: nat, fuel: nat)
    requires n <= fuel && Eval(w, e, n).Yields?
    ensures Recheck(u, w, Eval(w, e, n).trace, fuel) == Nested(u, w, e, 0, n)
    decreases n, match e case Ref(_) => 0 case Text(_) => 2 case Node(_, _) => 3, 1
  {
    match e
    case Ref(p) => RecheckReference(u, w, p, n, fuel);
    case Text(segments) => RecheckIsNestedSegments(u, w, segments, n, fuel);
    case Node(_, node) =>
      if node.Str? {
        RecheckIsNested(u, w, Text(node.s.segments), n, fuel);
      }
  }

  lemma {:induction false} RecheckReference(u: Unit, w: World, p: Placeholder, n: nat, fuel: nat)
    requires n <= fuel && Eval(w, Ref(p), n).Yields?
    ensures Recheck(u, w, Eval(w, Ref(p), n).trace, fuel) == Nested(u, w, Ref(p), 0, n)
    decreases n, 0, 0
  {
    if OriginOf(w, p.key).InTree? {
      var inner := Node(p.key, OriginOf(w, p.key).node);
      RecheckIsNested(u, w, inner, n - 1, fuel);
      Deeper(u, w, inner, 0, n - 1);
      AddReference(u, w, p, Eval(w, inner, n - 1), n, fuel);
    } else {
      AddReference(u, w, p, Yields(Eval(w, Ref(p), n).text, [], []), n, fuel);
    }
  }

  /** A reference takes one step, and what is nested in it once more. */
  lemma AddReference(u: Unit, w: World, p: Placeholder, m: Meaning, n: nat, fuel: nat)
    requires n <= fuel && m.Yields? && Eval(w, Ref(p), n) == Recorded(p, m)
    ensures Recheck(u, w, Recorded(p, m).trace, fuel)
         == Recheck(u, w, m.trace, fuel) + Amount(u, m) + if u.Steps? then 1 else 0
  {
    FuelMonotone(w, Ref(p), n, fuel);
    RecheckStep(u, w, m.trace, ResolvedDependency(p, m.text), fuel);
  }

  lemma {:induction false} RecheckIsNestedSegments(u: Unit, w: World, segments: seq<Segment>, n: nat, fuel: nat)
    requires n <= fuel && EvalSegments(w, segments, n).Yields?
    ensures Recheck(u, w, EvalSegments(w, segments, n).trace, fuel) == NestedSegments(u, w, segments, 0, n)
    decreases n, 1, |segments|
  {
    if segments != [] {
      var last := |segments| - 1;
      RecheckIsNestedSegments(u, w, segments[..last], n, fuel);
      TotalAppend(EvalSegments(w, segments[..last], n).trace, EvalSegment(w, segments[last], n).trace,
                  ReferenceAmount(u, w, fuel));
      if segments[last].Hole? {
        RecheckIsNested(u, w, Ref(segments[last].placeholder), n, fuel);
      }
    }
  }

  function PassNested(u: Unit, w: World, exprs: seq<Expr>): nat {
    if exprs == [] then 0
    else
      var last := |exprs| - 1;
      PassNested(u, w, exprs[..last]) + Nested(u, w, exprs[last], 0, MAX_RESOLUTION_DEPTH)
  }

  lemma {:induction false} PassRecheckIsNested(u: Unit, w: World, exprs: seq<Expr>)
    requires PassMeaning(w, exprs).Yields?
    ensures Recheck(u, w, PassMeaning(w, exprs).trace, MAX_RESOLUTION_DEPTH) == PassNested(u, w, exprs)
  {
    if exprs != [] {
      var last := |exprs| - 1;
      PassRecheckIsNested(u, w, exprs[..last]);
      RecheckIsNested(u, w, exprs[last], MAX_RESOLUTION_DEPTH, MAX_RESOLUTION_DEPTH);
      TotalAppend(PassMeaning(w, exprs[..last]).trace, Eval(w, exprs[last], MAX_RESOLUTION_DEPTH).trace,
                  ReferenceAmount(u, w, MAX_RESOLUTION_DEPTH));
    }
  }

  /** The snapshot of an unchanged world matches exactly when its steps and renderings, each weighted by
    * how deep the pass met it, are within the budgets: only nesting can make it fail. */
  lemma UnchangedWorldMatchesIff(w: World, exprs: seq<Expr>)
    requires PassFits(w, exprs)
    ensures Matches(w, PassMeaning(w, exprs).trace) <==>
              PassNested(Steps, w, exprs) <= MAX_RESOLUTION_STEPS && PassNested(Bytes, w, exprs) <= MAX_RENDERED_BYTES
  {
    SnapshotMatchesItsWorld(w, exprs);
    PassRecheckIsNested(Steps, w, exprs);
    PassRecheckIsNested(Bytes, w, exprs);
  }

  // ---------------------------------------------------------------- a world that does not match itself

  const LETTER := Placeholder("c", None)
  const ALIAS := Placeholder("b", None)

  /** `b = "${c}"` and `c = "x"`. */
  function AliasWorld(): World {
    World(Table([Entry("b", Str(ConfigStr([Hole(LETTER)], FullPlaceholder))),
                 Entry("c", Str(ConfigStr([Segment.Literal("x")], LiteralKind)))]),
          [], (bits: nat) => "")
  }

  /** In `w`, `${p}` takes one step and `${q}` takes two, observing `${p}` on the way. */
  ghost predicate Aliased(w: World, p: Placeholder, q: Placeholder) {
    && Eval(w, Ref(p), MAX_RESOLUTION_DEPTH) == Yields("x", [ResolvedDependency(p, "x")], ["x"])
    && Eval(w, Ref(q), MAX_RESOLUTION_DEPTH)
       == Yields("x", [ResolvedDependency(p, "x"), ResolvedDependency(q, "x")], ["x", "x"])
  }

  lemma SegmentAlone(w: World, segment: Segment, fuel: nat)
    requires EvalSegment(w, segment, fuel).Yields?
    ensures EvalSegments(w, [segment], fuel) == EvalSegment(w, segment, fuel)
  {
    assert [segment][..0] == [];
    var m := EvalSegment(w, segment, fuel);
    assert "" + m.text == m.text && [] + m.trace == m.trace && [] + m.rendered == m.rendered;
  }

  lemma TopLevelNode(w: World, key: char)
    requires w.root.Table? && Find(w.root.entries, [key]).Some?
    requires IsLower(key) && key != '@' && key != '.'
    ensures OriginOf(w, [key]) == InTree(Find(w.root.entries, [key]).value)
  {
    assert [key][1..] == "";
    assert Split("", '.') == [""] && [key] + "" == [key];
    assert Split([key], '.') == [[key]];
    var node := Find(w.root.entries, [key]).value;
    assert Descend(node, [[key]][1..]) == Some(node);
    assert IsLower([key][0]);
  }

  /** A key that holds a literal yields it in one step. */
  lemma LiteralNode(w: World, p: Placeholder, text: string, fuel: nat)
    requires fuel > 0 && OriginOf(w, p.key) == InTree(Str(ConfigStr([Segment.Literal(text)], LiteralKind)))
    ensures Eval(w, Ref(p), fuel) == Yields(text, [ResolvedDependency(p, text)], [text])
  {
    var node := Str(ConfigStr([Segment.Literal(text)], LiteralKind));
    SegmentAlone(w, Segment.Literal(text), fuel - 1);
    assert Eval(w, Node(p.key, node), fuel - 1) == Yields(text, [], [text]);
  }

  /** A key that holds one reference yields what it yields, and renders it once more. */
  lemma AliasNode(w: World, q: Placeholder, p: Placeholder, fuel: nat)
    requires fuel > 0 && OriginOf(w, q.key) == InTree(Str(ConfigStr([Hole(p)], FullPlaceholder)))
    requires Eval(w, Ref(p), fuel - 1).Yields?
    ensures var m := Eval(w, Ref(p), fuel - 1);
            Eval(w, Ref(q), fuel) == Yields(m.text, m.trace + [ResolvedDependency(q, m.text)], m.rendered + [m.text])
  {
    var m := Eval(w, Ref(p), fuel - 1);
    SegmentAlone(w, Hole(p), fuel - 1);
    assert Eval(w, Node(q.key, Str(ConfigStr([Hole(p)], FullPlaceholder))), fuel - 1) == Returned(m);
  }

  lemma AliasWorldMeans(fuel: nat)
    requires fuel > 1
    ensures Eval(AliasWorld(), Ref(LETTER), fuel) == Yields("x", [ResolvedDependency(LETTER, "x")], ["x"])
    ensures Eval(AliasWorld(), Ref(ALIAS), fuel)
         == Yields("x", [ResolvedDependency(LETTER, "x"), ResolvedDependency(ALIAS, "x")], ["x", "x"])
  {
    var w := AliasWorld();
    assert w.root.entries[1..][0] == w.root.entries[1];
    TopLevelNode(w, 'b');
    TopLevelNode(w, 'c');
    LiteralNode(w, LETTER, "x", fuel);
    LiteralNode(w, LETTER, "x", fuel - 1);
    AliasNode(w, ALIAS, LETTER, fuel);
  }

  /** The template `${q}` written `n` times, and what rendering it observes. */
  function Copies(q: Placeholder, n: nat): seq<Segment> {
    seq(n, i => Hole(q))
  }

  function Observed(p: Placeholder, q: Placeholder, n: nat): seq<ResolvedDependency> {
    if n == 0 then [] else Observed(p, q, n - 1) + [ResolvedDependency(p, "x"), ResolvedDependency(q, "x")]
  }

  lemma {:induction false} ObservedLength(p: Placeholder, q: Placeholder, n: nat)
    ensures |Observed(p, q, n)| == 2 * n
  {
    if n > 0 {
      ObservedLength(p, q, n - 1);
    }
  }

  lemma {:induction false} CopiesMean(w: World, p: Placeholder, q: Placeholder, n: nat)
    requires Aliased(w, p, q)
    ensures EvalSegments(w, Copies(q, n), MAX_RESOLUTION_DEPTH).Yields?
    ensures EvalSegments(w, Copies(q, n), MAX_RESOLUTION_DEPTH).trace == Observed(p, q, n)
    ensures Charge(EvalSegments(w, Copies(q, n), MAX_RESOLUTION_DEPTH)) == 3 * n
  {
    if n > 0 {
      CopiesMean(w, p, q, n - 1);
      assert Copies(q, n)[..n - 1] == Copies(q, n - 1);
      var alias := EvalSegment(w, Hole(q), MAX_RESOLUTION_DEPTH);
      ChargeAppend(EvalSegments(w, Copies(q, n - 1), MAX_RESOLUTION_DEPTH), alias);
      OneLetter();
    }
  }

  lemma OneLetter()
    ensures ByteLen("x") == 1 && TotalBytes(["x"]) == 1 && TotalBytes(["x", "x"]) == 2
  {
    assert "x"[1..] == "" && ["x"][..0] == [] && ["x", "x"][..1] == ["x"];
  }

  /** Rechecking what `n` copies observed takes three steps a copy, not two. */
  lemma {:induction false} ObservedRecheck(w: World, p: Placeholder, q: Placeholder, n: nat)
    requires Aliased(w, p, q)
    ensures Recheck(Steps, w, Observed(p, q, n), MAX_RESOLUTION_DEPTH) == 3 * n
  {
    if n > 0 {
      var before, d, d' := Observed(p, q, n - 1), ResolvedDependency(p, "x"), ResolvedDependency(q, "x");
      ObservedRecheck(w, p, q, n - 1);
      assert Observed(p, q, n) == before + [d] + [d'];
      RecheckStep(Steps, w, before, d, MAX_RESOLUTION_DEPTH);
      RecheckStep(Steps, w, before + [d], d', MAX_RESOLUTION_DEPTH);
    }
  }

  lemma OneExprPass(w: World, e: Expr)
    requires Eval(w, e, MAX_RESOLUTION_DEPTH).Yields?
    ensures PassMeaning(w, [e]).Yields? && PassMeaning(w, [e]).trace == Eval(w, e, MAX_RESOLUTION_DEPTH).trace
    ensures Cost(PassMeaning(w, [e])) == Cost(Eval(w, e, MAX_RESOLUTION_DEPTH))
  {
    assert [] + [e] == [e];
    PassStep(w, [], e);
    assert [] + Eval(w, e, MAX_RESOLUTION_DEPTH).trace == Eval(w, e, MAX_RESOLUTION_DEPTH).trace;
  }

  lemma Mismatch(w: World, p: Placeholder, q: Placeholder, n: nat)
    requires Aliased(w, p, q) && 2 * n <= MAX_RESOLUTION_STEPS < 3 * n && 3 * n <= MAX_RENDERED_BYTES
    ensures PassFits(w, [Text(Copies(q, n))])
    ensures !Matches(w, PassMeaning(w, [Text(Copies(q, n))]).trace)
  {
    CopiesMean(w, p, q, n);
    TextCost(w, Copies(q, n), MAX_RESOLUTION_DEPTH);
    OneExprPass(w, Text(Copies(q, n)));
    ObservedLength(p, q, n);
    ObservedRecheck(w, p, q, n);
    SnapshotMatchesItsWorld(w, [Text(Copies(q, n))]);
  }

  /** Each copy takes two steps in the pass, one of them nested, so three in the recheck: between 1366
    * and 2048 copies the pass fits and its snapshot does not match the very world it was taken in. */
  lemma UnchangedWorldCanMismatch(n: nat)
    requires 2 * n <= MAX_RESOLUTION_STEPS < 3 * n
    ensures PassFits(AliasWorld(), [Text(Copies(ALIAS, n))])
    ensures !Matches(AliasWorld(), PassMeaning(AliasWorld(), [Text(Copies(ALIAS, n))]).trace)
  {
    AliasWorldMeans(MAX_RESOLUTION_DEPTH);
    Mismatch(AliasWorld(), LETTER, ALIAS, n);
  }
}

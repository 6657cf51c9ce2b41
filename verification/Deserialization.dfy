/** Whole deserialization passes over one resolution context, and the reload fingerprint. */
module Deserialization {
  import opened Common
  import opened ConfigTree
  import opened TemplateSemantics
  import opened ResolveContext

  // ---------------------------------------------------------------- exactness of one resolution

  /** `e` has a meaning within the depth cap, and the budgets left by `before` cover it. */
  ghost predicate Fits(w: World, e: Expr, before: Meter) {
    var m := Eval(w, e, MAX_RESOLUTION_DEPTH);
    && m.Yields?
    && before.steps + |m.trace| <= MAX_RESOLUTION_STEPS
    && before.bytes + Cost(m) <= MAX_RENDERED_BYTES
  }

  /** With nothing in flight, the guarded resolver succeeds exactly when the meaning fits. */
  lemma SucceedsIffFits(w: World, e: Expr, before: Meter, after: Meter, r: Result<string, TemplateError>)
    requires before.steps <= MAX_RESOLUTION_STEPS && before.bytes <= MAX_RENDERED_BYTES
    requires Explains(w, e, [], before, after, r)
    ensures r.Ok? <==> Fits(w, e, before)
  {
    if r.Err? && r.error.ResolutionCycle? {
      assert Eval(w, e, MAX_RESOLUTION_DEPTH) == OutOfFuel;
    }
  }

  // ---------------------------------------------------------------- a pass

  /** What a sequence of resolutions means under the depth cap: their traces and renderings, joined. */
  function PassMeaning(w: World, exprs: seq<Expr>): Meaning {
    if exprs == [] then Yields("", [], [])
    else
      var last := |exprs| - 1;
      Append(PassMeaning(w, exprs[..last]), Eval(w, exprs[last], MAX_RESOLUTION_DEPTH))
  }

  /** The text of each resolution of a pass that yields. */
  function PassTexts(w: World, exprs: seq<Expr>): seq<string> {
    if exprs == [] then []
    else
      var last := |exprs| - 1;
      var m := Eval(w, exprs[last], MAX_RESOLUTION_DEPTH);
      PassTexts(w, exprs[..last]) + [if m.Yields? then m.text else ""]
  }

  /** Every resolution has a meaning within the depth cap, and the sum of their work is within budget. */
  ghost predicate PassFits(w: World, exprs: seq<Expr>) {
    var m := PassMeaning(w, exprs);
    m.Yields? && |m.trace| <= MAX_RESOLUTION_STEPS && Cost(m) <= MAX_RENDERED_BYTES
  }

  /** The counters after a pass. */
  ghost function PassMeter(w: World, exprs: seq<Expr>): Meter {
    var m := PassMeaning(w, exprs);
    if m.Yields? then Meter(|m.trace|, Cost(m), m.trace) else Meter(0, 0, [])
  }

  lemma PassStep(w: World, done: seq<Expr>, e: Expr)
    ensures PassMeaning(w, done + [e]) == Append(PassMeaning(w, done), Eval(w, e, MAX_RESOLUTION_DEPTH))
    ensures PassMeaning(w, done + [e]).Yields? ==>
              Cost(PassMeaning(w, done + [e])) == Cost(PassMeaning(w, done)) + Cost(Eval(w, e, MAX_RESOLUTION_DEPTH))
    ensures PassTexts(w, done + [e])
         == PassTexts(w, done)
           + [if Eval(w, e, MAX_RESOLUTION_DEPTH).Yields? then Eval(w, e, MAX_RESOLUTION_DEPTH).text else ""]
  {
    assert (done + [e])[..|done|] == done;
    if PassMeaning(w, done + [e]).Yields? {
      TotalBytesAppend(PassMeaning(w, done).rendered, Eval(w, e, MAX_RESOLUTION_DEPTH).rendered);
    }
  }

  /** Cost only grows along a pass, so a prefix that does not fit settles the pass. */
  lemma {:induction false} PassGrows(w: World, done: seq<Expr>, rest: seq<Expr>)
    requires PassFits(w, done + rest)
    ensures PassFits(w, done)
    decreases |rest|
  {
    if rest == [] {
      assert done + rest == done;
    } else {
      var last := |rest| - 1;
      assert done + rest == done + rest[..last] + [rest[last]];
      PassStep(w, done + rest[..last], rest[last]);
      PassGrows(w, done, rest[..last]);
    }
  }

  /** One more resolution: either the pass still fits and is metered exactly, or no pass that starts this
    * way fits. */
  lemma PassAdvances(w: World, done: seq<Expr>, e: Expr, rest: seq<Expr>, after: Meter,
                     r: Result<string, TemplateError>)
    requires PassFits(w, done)
    requires Explains(w, e, [], PassMeter(w, done), after, r)
    ensures r.Ok? ==> PassFits(w, done + [e]) && after == PassMeter(w, done + [e])
    ensures r.Ok? ==> PassTexts(w, done + [e]) == PassTexts(w, done) + [r.value]
    ensures r.Err? ==> !PassFits(w, done + [e] + rest)
    ensures r.Err? && r.error.ResolutionCycle? ==> Diverges(w, e)
  {
    PassStep(w, done, e);
    SucceedsIffFits(w, e, PassMeter(w, done), after, r);
    if PassFits(w, done + [e] + rest) {
      PassGrows(w, done + [e], rest);
    }
  }

  /** A string leaf, read into a string target or into a scalar target. */
  datatype Leaf = AsString(s: ConfigStr) | AsScalar(s: ConfigStr)

  /** What the parser guarantees of every leaf. */
  predicate WellKinded(leaf: Leaf) {
    leaf.s.kind == FullPlaceholder ==> leaf.s.AsFull().Some?
  }

  /** A scalar target resolves a lone placeholder directly; everything else is rendered. */
  function LeafExpr(leaf: Leaf): Expr {
    if leaf.AsScalar? && leaf.s.AsFull().Some? then Ref(leaf.s.AsFull().value) else Text(leaf.s.segments)
  }

  function LeafExprs(leaves: seq<Leaf>): (exprs: seq<Expr>)
    ensures |exprs| == |leaves|
  {
    if leaves == [] then [] else LeafExprs(leaves[..|leaves| - 1]) + [LeafExpr(leaves[|leaves| - 1])]
  }

  lemma {:induction false} LeafExprsSplit(leaves: seq<Leaf>, i: nat)
    requires i < |leaves|
    ensures exists rest: seq<Expr> :: LeafExprs(leaves) == LeafExprs(leaves[..i]) + [LeafExpr(leaves[i])] + rest
    decreases |leaves|
  {
    var last := |leaves| - 1;
    if i == last {
      assert LeafExprs(leaves) == LeafExprs(leaves[..i]) + [LeafExpr(leaves[i])] + [];
    } else {
      LeafExprsSplit(leaves[..last], i);
      assert leaves[..last][..i] == leaves[..i];
      var rest :| LeafExprs(leaves[..last]) == LeafExprs(leaves[..i]) + [LeafExpr(leaves[i])] + rest;
      assert LeafExprs(leaves) == LeafExprs(leaves[..i]) + [LeafExpr(leaves[i])] + (rest + [LeafExpr(leaves[last])]);
    }
  }

  /** `scalar_source` and the string visitor. */
  method ResolveLeaf(ctx: ResolveCtx, leaf: Leaf) returns (r: Result<string, TemplateError>)
    requires ctx.Valid() && WellKinded(leaf)
    modifies ctx
    ensures old(ctx.Reading()).UpTo(ctx.Reading())
    ensures ctx.Valid() && ctx.inFlight == old(ctx.inFlight)
    ensures Explains(ctx.world, LeafExpr(leaf), ctx.inFlight, old(ctx.Reading()), ctx.Reading(), r)
  {
    if leaf.AsScalar? && leaf.s.kind == FullPlaceholder {
      r := ctx.ResolvePlaceholder(leaf.s.AsFull().value);
    } else {
      r := ctx.RenderStr(leaf.s);
    }
  }

  /** What the two slots take of a lone placeholder: the same text, steps and trace, but only the string
    * slot charges the bytes of the text itself. */
  lemma SlotsOfPlaceholder(w: World, s: ConfigStr, n: nat)
    requires s.kind == FullPlaceholder && |s.segments| == 1 && s.segments[0].Hole?
    requires Eval(w, LeafExpr(AsScalar(s)), n).Yields?
    ensures var scalar, text := Eval(w, LeafExpr(AsScalar(s)), n), Eval(w, LeafExpr(AsString(s)), n);
            && text.Yields? && text.text == scalar.text && text.trace == scalar.trace
            && Cost(text) == Cost(scalar) + ByteLen(scalar.text)
  {
    assert s.segments[..0] == [] && s.segments == [] + [s.segments[0]];
    var m := Eval(w, Ref(s.segments[0].placeholder), n);
    assert "" + m.text == m.text && [] + m.trace == m.trace && [] + m.rendered == m.rendered;
    assert EvalSegments(w, s.segments, n) == m;
    assert (m.rendered + [m.text])[..|m.rendered|] == m.rendered;
  }

  lemma LeafAdvances(w: World, leaves: seq<Leaf>, i: nat, after: Meter, r: Result<string, TemplateError>)
    requires i < |leaves| && PassFits(w, LeafExprs(leaves[..i]))
    requires Explains(w, LeafExpr(leaves[i]), [], PassMeter(w, LeafExprs(leaves[..i])), after, r)
    ensures r.Ok? ==> PassFits(w, LeafExprs(leaves[..i + 1])) && after == PassMeter(w, LeafExprs(leaves[..i + 1]))
    ensures r.Ok? ==> PassTexts(w, LeafExprs(leaves[..i + 1])) == PassTexts(w, LeafExprs(leaves[..i])) + [r.value]
    ensures r.Err? ==> !PassFits(w, LeafExprs(leaves)) && !PassFits(w, LeafExprs(leaves[..i + 1]))
    ensures r.Err? && r.error.ResolutionCycle? ==> Diverges(w, LeafExpr(leaves[i]))
  {
    LeafExprsSplit(leaves, i);
    var rest :| LeafExprs(leaves) == LeafExprs(leaves[..i]) + [LeafExpr(leaves[i])] + rest;
    PassAdvances(w, LeafExprs(leaves[..i]), LeafExpr(leaves[i]), rest, after, r);
    assert leaves[..i + 1][..i] == leaves[..i];
    if r.Err? {
      PassAdvances(w, LeafExprs(leaves[..i]), LeafExpr(leaves[i]), [], after, r);
      assert LeafExprs(leaves[..i]) + [LeafExpr(leaves[i])] + [] == LeafExprs(leaves[..i + 1]);
    }
  }

  /** The `i`th leaf is the first that does not fit; what the leaves before it took is still on the meter. */
  ghost predicate FailsAt(w: World, leaves: seq<Leaf>, i: nat, error: TemplateError, left: Meter)
    requires i < |leaves|
  {
    && PassFits(w, LeafExprs(leaves[..i])) && !PassFits(w, LeafExprs(leaves[..i + 1]))
    && PassMeter(w, LeafExprs(leaves[..i])).UpTo(left)
    && Excuses(w, LeafExpr(leaves[i]), [], PassMeter(w, LeafExprs(leaves[..i])), error)
    && (error.ResolutionCycle? ==> Diverges(w, LeafExpr(leaves[i])))
  }

  /** A pass over the string leaves of one binding: it succeeds exactly when every leaf has a meaning
    * within the depth cap and the *sum* of the work fits the budgets; it then returns those meanings,
    * as many recorded dependencies as steps, and has charged exactly the bytes of all renderings. */
  method Deserialize(w: World, leaves: seq<Leaf>)
    returns (r: Result<seq<string>, TemplateError>, trace: seq<ResolvedDependency>, steps: nat, bytes: nat)
    requires forall i :: 0 <= i < |leaves| ==> WellKinded(leaves[i])
    ensures r.Ok? <==> PassFits(w, LeafExprs(leaves))
    ensures r.Ok? ==> r.value == PassTexts(w, LeafExprs(leaves))
    ensures r.Ok? ==> Meter(steps, bytes, trace) == PassMeter(w, LeafExprs(leaves))
    ensures r.Ok? ==> steps == |trace| <= MAX_RESOLUTION_STEPS && bytes <= MAX_RENDERED_BYTES
    ensures r.Err? ==> exists i :: 0 <= i < |leaves| && FailsAt(w, leaves, i, r.error, Meter(steps, bytes, trace))
  {
    var ctx := new ResolveCtx(w);
    var texts := [];
    for i := 0 to |leaves|
      invariant fresh(ctx)
      invariant ctx.Valid() && ctx.world == w && ctx.inFlight == []
      invariant PassFits(w, LeafExprs(leaves[..i]))
      invariant ctx.Reading() == PassMeter(w, LeafExprs(leaves[..i]))
      invariant texts == PassTexts(w, LeafExprs(leaves[..i]))
    {
      var resolved := ResolveLeaf(ctx, leaves[i]);
      LeafAdvances(w, leaves, i, ctx.Reading(), resolved);
      if resolved.Err? {
        assert FailsAt(w, leaves, i, resolved.error, ctx.Reading());
        return Err(resolved.error), ctx.resolvedDependencies, ctx.resolutionSteps, ctx.renderedBytes;
      }
      texts := texts + [resolved.value];
    }
    assert leaves[..|leaves|] == leaves;
    return Ok(texts), ctx.resolvedDependencies, ctx.resolutionSteps, ctx.renderedBytes;
  }

  // ---------------------------------------------------------------- the trace as a fingerprint

  /** Every dependency of `trace` has its recorded value in `w`. */
  ghost predicate Holds(w: World, trace: seq<ResolvedDependency>, fuel: nat) {
    forall d <- trace :: Eval(w, Ref(d.placeholder), fuel).Yields? && Eval(w, Ref(d.placeholder), fuel).text == d.value
  }

  lemma HoldsAppend(w: World, a: seq<ResolvedDependency>, b: seq<ResolvedDependency>, fuel: nat)
    ensures Holds(w, a + b, fuel) <==> Holds(w, a, fuel) && Holds(w, b, fuel)
  {
    assert forall d :: d in a + b <==> d in a || d in b;
  }

  /** A resolution records only what its placeholders really resolve to. */
  lemma {:induction false} TraceHolds(w: World, e: Expr, n: nat)
    requires Eval(w, e, n).Yields?
    ensures Holds(w, Eval(w, e, n).trace, n)
    decreases n, match e case Ref(_) => 0 case Text(_) => 2 case Node(_, _) => 3, 0
  {
    match e
    case Ref(p) =>
      if OriginOf(w, p.key).InTree? {
        var inner := Node(p.key, OriginOf(w, p.key).node);
        TraceHolds(w, inner, n - 1);
        forall d <- Eval(w, inner, n - 1).trace { FuelMonotone(w, Ref(d.placeholder), n - 1, n); }
      }
    case Text(segments) => SegmentsTraceHolds(w, segments, n);
    case Node(_, node) =>
      if node.Str? {
        TraceHolds(w, Text(node.s.segments), n);
      }
  }

  lemma {:induction false} SegmentsTraceHolds(w: World, segments: seq<Segment>, n: nat)
    requires EvalSegments(w, segments, n).Yields?
    ensures Holds(w, EvalSegments(w, segments, n).trace, n)
    decreases n, 1, |segments|
  {
    if segments != [] {
      var last := |segments| - 1;
      SegmentsTraceHolds(w, segments[..last], n);
      if segments[last].Hole? {
        TraceHolds(w, Ref(segments[last].placeholder), n);
      }
      HoldsAppend(w, EvalSegments(w, segments[..last], n).trace, EvalSegment(w, segments[last], n).trace, n);
    }
  }

  lemma ReferenceIsRecorded(w: World, p: Placeholder, n: nat)
    requires Eval(w, Ref(p), n).Yields?
    ensures ResolvedDependency(p, Eval(w, Ref(p), n).text) in Eval(w, Ref(p), n).trace
  {
    var m := Eval(w, Ref(p), n);
    assert m.trace[|m.trace| - 1] == ResolvedDependency(p, m.text);
  }

  /** If what a text observed in one world still holds in another, it renders the same there. */
  lemma {:induction false} Transfer(w: World, w': World, segments: seq<Segment>, n: nat, n': nat)
    requires EvalSegments(w, segments, n).Yields?
    requires Holds(w', EvalSegments(w, segments, n).trace, n')
    ensures EvalSegments(w', segments, n').Yields?
    ensures EvalSegments(w', segments, n').text == EvalSegments(w, segments, n).text
    decreases |segments|
  {
    if segments != [] {
      var last := |segments| - 1;
      var value := EvalSegment(w, segments[last], n);
      HoldsAppend(w', EvalSegments(w, segments[..last], n).trace, value.trace, n');
      Transfer(w, w', segments[..last], n, n');
      if segments[last].Hole? {
        ReferenceIsRecorded(w, segments[last].placeholder, n);
      }
    }
  }

  lemma ExprTransfer(w: World, w': World, e: Expr, n: nat, n': nat)
    requires !e.Node? && Eval(w, e, n).Yields?
    requires Holds(w', Eval(w, e, n).trace, n')
    ensures Eval(w', e, n').Yields? && Eval(w', e, n').text == Eval(w, e, n).text
  {
    match e
    case Ref(p) => ReferenceIsRecorded(w, p, n);
    case Text(segments) => Transfer(w, w', segments, n, n');
  }

  lemma {:induction false} PassTraceHolds(w: World, exprs: seq<Expr>)
    requires PassMeaning(w, exprs).Yields?
    ensures Holds(w, PassMeaning(w, exprs).trace, MAX_RESOLUTION_DEPTH)
  {
    if exprs != [] {
      var last := |exprs| - 1;
      PassTraceHolds(w, exprs[..last]);
      TraceHolds(w, exprs[last], MAX_RESOLUTION_DEPTH);
      HoldsAppend(w, PassMeaning(w, exprs[..last]).trace, Eval(w, exprs[last], MAX_RESOLUTION_DEPTH).trace,
                  MAX_RESOLUTION_DEPTH);
    }
  }

  /** The trace of a pass maps each placeholder to one value. */
  lemma TraceIsFunctional(w: World, exprs: seq<Expr>, d: ResolvedDependency, d': ResolvedDependency)
    requires PassMeaning(w, exprs).Yields?
    requires d in PassMeaning(w, exprs).trace && d' in PassMeaning(w, exprs).trace
    requires d.placeholder == d'.placeholder
    ensures d == d'
  {
    PassTraceHolds(w, exprs);
  }

  /** What holds of a pass's trace decides what each of its resolutions yields. */
  lemma {:induction false} PassTransfer(w: World, w': World, exprs: seq<Expr>)
    requires forall i :: 0 <= i < |exprs| ==> !exprs[i].Node?
    requires PassMeaning(w, exprs).Yields?
    requires Holds(w', PassMeaning(w, exprs).trace, MAX_RESOLUTION_DEPTH)
    ensures PassMeaning(w', exprs).Yields?
    ensures PassTexts(w', exprs) == PassTexts(w, exprs)
  {
    if exprs != [] {
      var last := |exprs| - 1;
      HoldsAppend(w', PassMeaning(w, exprs[..last]).trace, Eval(w, exprs[last], MAX_RESOLUTION_DEPTH).trace,
                  MAX_RESOLUTION_DEPTH);
      PassTransfer(w, w', exprs[..last]);
      ExprTransfer(w, w', exprs[last], MAX_RESOLUTION_DEPTH, MAX_RESOLUTION_DEPTH);
    }
  }

  /** Equal traces mean equal results, whatever trees and resolvers the two passes ran over. */
  lemma EqualTracesEqualResults(w: World, w': World, exprs: seq<Expr>)
    requires forall i :: 0 <= i < |exprs| ==> !exprs[i].Node?
    requires PassMeaning(w, exprs).Yields? && PassMeaning(w', exprs).Yields?
    requires PassMeaning(w, exprs).trace == PassMeaning(w', exprs).trace
    ensures PassTexts(w', exprs) == PassTexts(w, exprs)
  {
    PassTraceHolds(w', exprs);
    PassTransfer(w, w', exprs);
  }

  // ---------------------------------------------------------------- reload

  /** The recorded placeholders, to be resolved again. */
  function References(trace: seq<ResolvedDependency>): (exprs: seq<Expr>)
    ensures |exprs| == |trace|
  {
    if trace == [] then [] else References(trace[..|trace| - 1]) + [Ref(trace[|trace| - 1].placeholder)]
  }

  lemma {:induction false} ReferencesAppend(a: seq<ResolvedDependency>, b: seq<ResolvedDependency>)
    ensures References(a + b) == References(a) + References(b)
    decreases |b|
  {
    if b == [] {
      assert a + b == a;
    } else {
      var last := |b| - 1;
      assert (a + b)[..|a| + last] == a + b[..last];
      ReferencesAppend(a, b[..last]);
    }
  }

  lemma ReferencesStep(a: seq<ResolvedDependency>, d: ResolvedDependency)
    ensures References(a + [d]) == References(a) + [Ref(d.placeholder)]
  {
    assert (a + [d])[..|a|] == a;
  }

  ghost predicate Matches(w: World, trace: seq<ResolvedDependency>) {
    Holds(w, trace, MAX_RESOLUTION_DEPTH) && PassFits(w, References(trace))
  }

  lemma ReferencesJoin(done: seq<ResolvedDependency>, d: ResolvedDependency, rest: seq<ResolvedDependency>)
    ensures References(done + [d]) == References(done) + [Ref(d.placeholder)]
    ensures References(done + [d] + rest) == References(done) + [Ref(d.placeholder)] + References(rest)
  {
    ReferencesStep(done, d);
    ReferencesAppend(done + [d], rest);
  }

  lemma HoldsStep(w: World, done: seq<ResolvedDependency>, d: ResolvedDependency, rest: seq<ResolvedDependency>)
    requires Holds(w, done, MAX_RESOLUTION_DEPTH)
    ensures var m := Eval(w, Ref(d.placeholder), MAX_RESOLUTION_DEPTH);
            && (m.Yields? && m.text == d.value ==> Holds(w, done + [d], MAX_RESOLUTION_DEPTH))
            && (!(m.Yields? && m.text == d.value) ==> !Holds(w, done + [d] + rest, MAX_RESOLUTION_DEPTH))
  {
    assert d in done + [d] + rest;
    HoldsAppend(w, done, [d], MAX_RESOLUTION_DEPTH);
  }

  lemma SnapshotStep(w: World, done: seq<ResolvedDependency>, d: ResolvedDependency, rest: seq<ResolvedDependency>,
                     after: Meter, r: Result<string, TemplateError>)
    requires Matches(w, done)
    requires Explains(w, Ref(d.placeholder), [], PassMeter(w, References(done)), after, r)
    ensures r == Ok(d.value) ==> Matches(w, done + [d]) && after == PassMeter(w, References(done + [d]))
    ensures r != Ok(d.value) ==> !Matches(w, done + [d] + rest)
  {
    ReferencesJoin(done, d, rest);
    HoldsStep(w, done, d, rest);
    PassAdvances(w, References(done), Ref(d.placeholder), References(rest), after, r);
  }

  lemma SnapshotAdvances(w: World, trace: seq<ResolvedDependency>, i: nat, after: Meter,
                         r: Result<string, TemplateError>)
    requires i < |trace|
    requires Matches(w, trace[..i])
    requires Explains(w, Ref(trace[i].placeholder), [], PassMeter(w, References(trace[..i])), after, r)
    ensures r == Ok(trace[i].value) ==> Matches(w, trace[..i + 1]) && after == PassMeter(w, References(trace[..i + 1]))
    ensures r != Ok(trace[i].value) ==> !Matches(w, trace)
  {
    SnapshotStep(w, trace[..i], trace[i], trace[i + 1..], after, r);
    assert trace[..i + 1] == trace[..i] + [trace[i]] && trace == trace[..i] + [trace[i]] + trace[i + 1..];
  }

  /** `snapshot_matches`: re-resolves the recorded placeholders, in order, in one fresh context. */
  method SnapshotMatches(w: World, path: string, raw: Option<ConfigValue>, trace: seq<ResolvedDependency>)
    returns (same: bool)
    ensures same <==>
              && raw == (if path == "" then Some(w.root) else PathNode(w.root, path))
              && Matches(w, trace)
  {
    var current := GetPath(w.root, path);
    if current != raw {
      return false;
    }
    var ctx := new ResolveCtx(w);
    for i := 0 to |trace|
      invariant fresh(ctx)
      invariant ctx.Valid() && ctx.world == w && ctx.inFlight == []
      invariant Matches(w, trace[..i])
      invariant ctx.Reading() == PassMeter(w, References(trace[..i]))
    {
      var resolved := ctx.ResolvePlaceholder(trace[i].placeholder);
      SnapshotAdvances(w, trace, i, ctx.Reading(), resolved);
      if resolved != Ok(trace[i].value) {
        return false;
      }
    }
    assert trace[..|trace|] == trace;
    return true;
  }

  /** Skipping a reload is sound: a snapshot that matches in a new world has, there, the very texts
    * that the committed pass produced in the old one. */
  lemma MatchingSnapshotIsCurrent(w: World, w': World, exprs: seq<Expr>)
    requires forall i :: 0 <= i < |exprs| ==> !exprs[i].Node?
    requires PassFits(w, exprs)
    requires Matches(w', PassMeaning(w, exprs).trace)
    ensures PassMeaning(w', exprs).Yields? && PassTexts(w', exprs) == PassTexts(w, exprs)
  {
    PassTransfer(w, w', exprs);
  }
}

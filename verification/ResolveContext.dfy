/** The guarded, stateful resolver, proved against the unguarded semantics. */
module ResolveContext {
  import opened Common
  import opened ConfigTree
  import opened TemplateSemantics

  const MAX_RESOLUTION_DEPTH: nat := 64
  const MAX_RESOLUTION_STEPS: nat := 4_096
  const MAX_RENDERED_BYTES: nat := 1_048_576

  /** The work counters and the dependency trace, as one value. */
  datatype Meter = Meter(steps: nat, bytes: nat, trace: seq<ResolvedDependency>) {
    /** Nothing that is counted or recorded is ever taken back, errors included. */
    predicate UpTo(later: Meter) {
      steps <= later.steps && bytes <= later.bytes && trace <= later.trace
    }
  }

  /** The fuel that the in-flight stack leaves. */
  function Room(stack: seq<string>): nat
    requires |stack| <= MAX_RESOLUTION_DEPTH
  {
    MAX_RESOLUTION_DEPTH - |stack|
  }

  /** The byte charge of resolving `e`: a rendering charges its own text, a reference does not. */
  function Cost(m: Meaning): nat
    requires m.Yields?
  {
    TotalBytes(m.rendered)
  }

  /** `after` is `before` plus exactly the work of `m`, with `bytes` charged. */
  ghost predicate Accounts(before: Meter, after: Meter, m: Meaning, bytes: nat) {
    && m.Yields?
    && after == Meter(before.steps + |m.trace|, before.bytes + bytes, before.trace + m.trace)
    && (before.steps <= MAX_RESOLUTION_STEPS ==> after.steps <= MAX_RESOLUTION_STEPS)
    && (before.bytes <= MAX_RENDERED_BYTES ==> after.bytes <= MAX_RENDERED_BYTES)
  }

  /** What every outcome of the guarded resolver says about the unguarded meaning of `e`.
    *
    * An `Ok` is the meaning, paid for exactly. A lookup error is the meaning's own error. A cycle
    * report names a key that `e` cannot do without and, when the cycle closes inside `e`, proves
    * that no fuel ever suffices. A resource error proves that the resource really is too small.
    */
  ghost predicate Explains(w: World, e: Expr, stack: seq<string>, before: Meter, after: Meter,
                           r: Result<string, TemplateError>)
    requires |stack| <= MAX_RESOLUTION_DEPTH
  {
    match r
    case Ok(text) =>
      var m := Eval(w, e, Room(stack));
      m.Yields? && m.text == text && Accounts(before, after, m, Cost(m))
    case Err(error) => Excuses(w, e, stack, before, error)
  }

  ghost predicate Excuses(w: World, e: Expr, stack: seq<string>, before: Meter, error: TemplateError)
    requires |stack| <= MAX_RESOLUTION_DEPTH
  {
    match error
    case ResolutionBudgetExceeded(limit) => limit == MAX_RESOLUTION_STEPS && TooManySteps(w, e, before)
    case RenderedOutputTooLarge(limit) => limit == MAX_RENDERED_BYTES && TooManyBytes(w, e, before)
    case ResolutionDepthExceeded(limit) => limit == MAX_RESOLUTION_DEPTH && Eval(w, e, Room(stack)) == OutOfFuel
    case ResolutionCycle(chain, key) =>
      && stack <= chain
      && key in chain
      && Demands(w, e, key)
      && (key !in stack ==> Diverges(w, e))
    case _ => Eval(w, e, Room(stack)) == Fails(error)
  }

  ghost predicate TooManySteps(w: World, e: Expr, before: Meter) {
    forall n: nat :: Eval(w, e, n).Yields? ==> before.steps + |Eval(w, e, n).trace| > MAX_RESOLUTION_STEPS
  }

  ghost predicate TooManyBytes(w: World, e: Expr, before: Meter) {
    forall n: nat :: Eval(w, e, n).Yields? ==> before.bytes + Cost(Eval(w, e, n)) > MAX_RENDERED_BYTES
  }

  // ---------------------------------------------------------------- lifting outcomes outwards

  /** An error of a tree node, met with the node's key in flight and one step consumed, is that
    * error of a reference to it. */
  lemma NodeExcuse(w: World, p: Placeholder, stack: seq<string>, before: Meter, stepped: Meter, error: TemplateError)
    requires |stack| < MAX_RESOLUTION_DEPTH
    requires OriginOf(w, p.key).InTree?
    requires stepped == before.(steps := before.steps + 1)
    requires Excuses(w, Node(p.key, OriginOf(w, p.key).node), stack + [p.key], stepped, error)
    ensures Excuses(w, Ref(p), stack, before, error)
  {
    var node := Node(p.key, OriginOf(w, p.key).node);
    match error
    case ResolutionCycle(chain, key) =>
      DemandLifts(w, p, key);
      if key !in stack {
        forall n: nat ensures Eval(w, Ref(p), n) == OutOfFuel {
          if key == p.key {
            SelfDemandDiverges(w, p, n);
          } else if n > 0 {
            assert Eval(w, node, n - 1) == OutOfFuel;
          }
        }
      }
      assert stack <= stack + [p.key];
    case ResolutionBudgetExceeded(_) =>
      forall n: nat | Eval(w, Ref(p), n).Yields?
        ensures before.steps + |Eval(w, Ref(p), n).trace| > MAX_RESOLUTION_STEPS
      {
        assert Eval(w, node, n - 1).Yields?;
      }
    case RenderedOutputTooLarge(_) =>
      forall n: nat | Eval(w, Ref(p), n).Yields?
        ensures before.bytes + Cost(Eval(w, Ref(p), n)) > MAX_RENDERED_BYTES
      {
        assert Eval(w, node, n - 1).Yields?;
      }
    case _ =>
  }

  /** A lookup of `key` delivers what the key's origin says, the tree node being rendered in flight. */
  ghost predicate Finds(w: World, key: string, stack: seq<string>, before: Meter, after: Meter,
                        r: Result<Option<string>, TemplateError>)
    requires |stack| < MAX_RESOLUTION_DEPTH
  {
    match OriginOf(w, key)
    case Answered(value) => r == Ok(Some(value)) && after == before
    case Nowhere => r == Ok(None) && after == before
    case InTree(node) =>
      r != Ok(None) &&
      Explains(w, Node(key, node), stack + [key], before, after, if r.Ok? then Ok(r.value.value) else Err(r.error))
  }

  /** A lookup that went well, and the inline default after one that found nothing. */
  lemma ReferenceAnswer(w: World, p: Placeholder, stack: seq<string>, before: Meter, stepped: Meter, after: Meter,
                        looked: Result<Option<string>, TemplateError>)
    requires |stack| < MAX_RESOLUTION_DEPTH
    requires stepped == before.(steps := before.steps + 1) && before.steps < MAX_RESOLUTION_STEPS
    requires Finds(w, p.key, stack, stepped, after, looked) && looked.Ok?
    ensures looked.value.Some? ==>
              Explains(w, Ref(p), stack, before,
                       after.(trace := after.trace + [ResolvedDependency(p, looked.value.value)]),
                       Ok(looked.value.value))
    ensures looked.value.None? && p.default.Some? ==>
              Explains(w, Ref(p), stack, before,
                       after.(trace := after.trace + [ResolvedDependency(p, p.default.value)]), Ok(p.default.value))
    ensures looked.value.None? && p.default.None? ==>
              Eval(w, Ref(p), Room(stack)) ==
                Fails(if IsNamespace(p.key) then UnknownNamespaceKey(p.key) else MissingPlaceholder(p.key))
  {
  }

  /** The state of a rendering that has processed `segments[..i]`. */
  ghost predicate Rendering(w: World, segments: seq<Segment>, i: nat, stack: seq<string>, before: Meter, now: Meter,
                            out: string)
    requires i <= |segments|
    requires |stack| <= MAX_RESOLUTION_DEPTH
  {
    var m := EvalSegments(w, segments[..i], Room(stack));
    m.Yields? && m.text == out && Accounts(before, now, m, Charge(m))
  }

  /** The work of `a`, then of `b`, then `last` more bytes that are within the budget. */
  lemma AccountsAppend(before: Meter, now: Meter, mid: Meter, a: Meaning, b: Meaning, first: nat, second: nat,
                       last: nat)
    requires Accounts(before, now, a, first) && Accounts(now, mid, b, second)
    requires mid.bytes + last <= MAX_RENDERED_BYTES
    ensures Accounts(before, mid.(bytes := mid.bytes + last), Append(a, b), first + second + last)
  {
    assert before.trace + a.trace + b.trace == before.trace + (a.trace + b.trace);
  }

  /** Appending one segment whose bytes are within the budget. */
  lemma RenderingAdvances(w: World, segments: seq<Segment>, i: nat, stack: seq<string>, before: Meter, now: Meter,
                          mid: Meter, out: string, piece: string)
    requires i < |segments|
    requires |stack| <= MAX_RESOLUTION_DEPTH
    requires Rendering(w, segments, i, stack, before, now, out)
    requires EvalSegment(w, segments[i], Room(stack)).Yields? && EvalSegment(w, segments[i], Room(stack)).text == piece
    requires Accounts(now, mid, EvalSegment(w, segments[i], Room(stack)),
                      Cost(EvalSegment(w, segments[i], Room(stack))))
    requires mid.bytes + ByteLen(piece) <= MAX_RENDERED_BYTES
    ensures Rendering(w, segments, i + 1, stack, before, mid.(bytes := mid.bytes + ByteLen(piece)), out + piece)
  {
    var done, value := EvalSegments(w, segments[..i], Room(stack)), EvalSegment(w, segments[i], Room(stack));
    SegmentsStep(w, segments, i, Room(stack));
    ChargeAppend(done, value);
    AccountsAppend(before, now, mid, done, value, Charge(done), Cost(value), ByteLen(piece));
  }

  /** A reference that does not yield decides the text once everything before it has yielded. */
  lemma ReferenceDecides(w: World, segments: seq<Segment>, i: nat, n: nat)
    requires i < |segments| && segments[i].Hole?
    requires EvalSegments(w, segments[..i], n).Yields?
    requires !Eval(w, Ref(segments[i].placeholder), n).Yields?
    ensures Eval(w, Text(segments), n) == Eval(w, Ref(segments[i].placeholder), n)
  {
    SegmentsStep(w, segments, i, n);
    PrefixDecides(w, segments, i + 1, n);
  }

  /** A text that is answered has answered every reference in it, and paid for it. */
  lemma ReferenceAnswered(w: World, segments: seq<Segment>, i: nat, n: nat, room: nat)
    requires i < |segments| && segments[i].Hole?
    requires EvalSegments(w, segments[..i], room).Yields?
    requires Eval(w, Text(segments), n) != OutOfFuel
    ensures EvalSegments(w, segments[..i], n) == EvalSegments(w, segments[..i], room)
    ensures Eval(w, Ref(segments[i].placeholder), n) != OutOfFuel
  {
    if EvalSegments(w, segments[..i], n) == OutOfFuel {
      PrefixDecides(w, segments, i, n);
    }
    SegmentsDeterminate(w, segments[..i], n, room);
    if Eval(w, Ref(segments[i].placeholder), n) == OutOfFuel {
      ReferenceDecides(w, segments, i, n);
    }
  }

  lemma SegmentsDeterminate(w: World, segments: seq<Segment>, n: nat, m: nat)
    requires EvalSegments(w, segments, n) != OutOfFuel && EvalSegments(w, segments, m) != OutOfFuel
    ensures EvalSegments(w, segments, n) == EvalSegments(w, segments, m)
  {
    if n <= m {
      FuelMonotoneSegments(w, segments, n, m);
    } else {
      FuelMonotoneSegments(w, segments, m, n);
    }
  }

  /** The cost of a text covers the cost of a prefix and of the reference after it. */
  lemma ReferencePaid(w: World, segments: seq<Segment>, i: nat, n: nat)
    requires i < |segments| && segments[i].Hole?
    requires Eval(w, Text(segments), n).Yields?
    ensures EvalSegments(w, segments[..i], n).Yields? && Eval(w, Ref(segments[i].placeholder), n).Yields?
    ensures |EvalSegments(w, segments[..i], n).trace| + |Eval(w, Ref(segments[i].placeholder), n).trace|
         <= |Eval(w, Text(segments), n).trace|
    ensures Charge(EvalSegments(w, segments[..i], n)) + Charge(Eval(w, Ref(segments[i].placeholder), n))
         <= Cost(Eval(w, Text(segments), n))
  {
    var before, value := EvalSegments(w, segments[..i], n), EvalSegment(w, segments[i], n);
    PrefixCosts(w, segments, i + 1, n);
    SegmentsStep(w, segments, i, n);
    ChargeAppend(before, value);
    TextCost(w, segments, n);
    assert Charge(Append(before, value)) <= Charge(EvalSegments(w, segments, n));
  }

  lemma SegmentsStep(w: World, segments: seq<Segment>, i: nat, n: nat)
    requires i < |segments|
    ensures EvalSegments(w, segments[..i + 1], n)
              == Append(EvalSegments(w, segments[..i], n), EvalSegment(w, segments[i], n))
  {
    assert segments[..i + 1][..i] == segments[..i];
  }

  lemma TextCost(w: World, segments: seq<Segment>, n: nat)
    requires Eval(w, Text(segments), n).Yields?
    ensures Cost(Eval(w, Text(segments), n)) == Charge(EvalSegments(w, segments, n))
  {
    var m := EvalSegments(w, segments, n);
    assert (m.rendered + [m.text])[..|m.rendered|] == m.rendered;
  }

  /** An error of the next reference is that error of the whole text. */
  lemma ReferenceExcuse(w: World, segments: seq<Segment>, i: nat, stack: seq<string>, before: Meter, now: Meter,
                        out: string, error: TemplateError)
    requires i < |segments| && segments[i].Hole?
    requires |stack| <= MAX_RESOLUTION_DEPTH
    requires Rendering(w, segments, i, stack, before, now, out)
    requires Excuses(w, Ref(segments[i].placeholder), stack, now, error)
    ensures Excuses(w, Text(segments), stack, before, error)
  {
    var hole := Ref(segments[i].placeholder);
    var room := Room(stack);
    match error
    case ResolutionCycle(chain, key) =>
      forall n: nat | Eval(w, Text(segments), n) != OutOfFuel
        ensures Eval(w, hole, n) != OutOfFuel
      {
        ReferenceAnswered(w, segments, i, n, room);
      }
    case ResolutionBudgetExceeded(_) =>
      forall n: nat | Eval(w, Text(segments), n).Yields?
        ensures before.steps + |Eval(w, Text(segments), n).trace| > MAX_RESOLUTION_STEPS
      {
        ReferenceAnswered(w, segments, i, n, room);
        ReferencePaid(w, segments, i, n);
      }
    case RenderedOutputTooLarge(_) =>
      forall n: nat | Eval(w, Text(segments), n).Yields?
        ensures before.bytes + Cost(Eval(w, Text(segments), n)) > MAX_RENDERED_BYTES
      {
        ReferenceAnswered(w, segments, i, n, room);
        ReferencePaid(w, segments, i, n);
      }
    case _ => ReferenceDecides(w, segments, i, room);
  }

  /** Running out of bytes on the next segment means that the whole text is too large. */
  lemma BytesExcuse(w: World, segments: seq<Segment>, i: nat, stack: seq<string>, before: Meter, value: Meaning)
    requires i < |segments|
    requires |stack| <= MAX_RESOLUTION_DEPTH
    requires EvalSegments(w, segments[..i], Room(stack)).Yields?
    requires value == EvalSegment(w, segments[i], Room(stack)) && value.Yields?
    requires before.bytes + Charge(EvalSegments(w, segments[..i], Room(stack))) + Charge(value) > MAX_RENDERED_BYTES
    ensures TooManyBytes(w, Text(segments), before)
  {
    var room := Room(stack);
    SegmentsStep(w, segments, i, room);
    ChargeAppend(EvalSegments(w, segments[..i], room), value);
    forall n: nat | Eval(w, Text(segments), n).Yields?
      ensures before.bytes + Cost(Eval(w, Text(segments), n)) > MAX_RENDERED_BYTES
    {
      PrefixCosts(w, segments, i + 1, n);
      SegmentsDeterminate(w, segments[..i + 1], n, room);
      TextCost(w, segments, n);
    }
  }

  // ---------------------------------------------------------------- the context

  /** `ResolveCtx`: one per deserialization. */
  class ResolveCtx {
    const world: World
    var inFlight: seq<string>
    var resolutionSteps: nat
    var renderedBytes: nat
    var resolvedDependencies: seq<ResolvedDependency>

    /** In-flight keys are distinct, few, and each names a node of the tree it is resolved from. */
    ghost predicate Valid()
      reads this
    {
      && |inFlight| <= MAX_RESOLUTION_DEPTH
      && Distinct(inFlight)
      && (forall k <- inFlight :: OriginOf(world, k).InTree? && PathNode(world.root, k).Some?)
      && resolutionSteps <= USIZE_MAX
      && renderedBytes <= USIZE_MAX
    }

    ghost function Reading(): Meter
      reads this
    {
      Meter(resolutionSteps, renderedBytes, resolvedDependencies)
    }

    constructor (world: World)
      ensures Valid() && this.world == world
      ensures inFlight == [] && Reading() == Meter(0, 0, [])
    {
      this.world := world;
      inFlight, resolutionSteps, renderedBytes, resolvedDependencies := [], 0, 0, [];
    }

    method RecordResolved(p: Placeholder, value: string)
      modifies this`resolvedDependencies
      ensures old(Reading()).UpTo(Reading())
      ensures resolvedDependencies == old(resolvedDependencies) + [ResolvedDependency(p, value)]
    {
      resolvedDependencies := resolvedDependencies + [ResolvedDependency(p, value)];
    }

    method ConsumeStep() returns (error: Option<TemplateError>)
      requires Valid()
      modifies this`resolutionSteps
      ensures old(Reading()).UpTo(Reading())
      ensures Valid()
      ensures error.None? <==> old(resolutionSteps) < MAX_RESOLUTION_STEPS
      ensures error.None? ==> resolutionSteps == old(resolutionSteps) + 1
      ensures error.Some? ==> error.value == ResolutionBudgetExceeded(MAX_RESOLUTION_STEPS)
    {
      resolutionSteps := SaturatingAdd(resolutionSteps, 1);
      error := if resolutionSteps <= MAX_RESOLUTION_STEPS then None
               else Some(ResolutionBudgetExceeded(MAX_RESOLUTION_STEPS));
    }

    method ConsumeBytes(bytes: nat) returns (error: Option<TemplateError>)
      requires Valid()
      modifies this`renderedBytes
      ensures old(Reading()).UpTo(Reading())
      ensures Valid()
      ensures error.None? <==> old(renderedBytes) + bytes <= MAX_RENDERED_BYTES
      ensures error.None? ==> renderedBytes == old(renderedBytes) + bytes
      ensures error.Some? ==> error.value == RenderedOutputTooLarge(MAX_RENDERED_BYTES)
    {
      renderedBytes := SaturatingAdd(renderedBytes, bytes);
      error := if renderedBytes <= MAX_RENDERED_BYTES then None else Some(RenderedOutputTooLarge(MAX_RENDERED_BYTES));
    }

    /** Resolves one placeholder: step budget, depth cap, cycle check, then the key's own precedence. */
    method ResolvePlaceholder(p: Placeholder) returns (r: Result<string, TemplateError>)
      requires Valid()
      modifies this
      ensures old(Reading()).UpTo(Reading())
      ensures Valid() && inFlight == old(inFlight)
      ensures Explains(world, Ref(p), inFlight, old(Reading()), Reading(), r)
      decreases MAX_RESOLUTION_DEPTH - |inFlight|, 0, 0
    {
      var exhausted := ConsumeStep();
      if exhausted.Some? {
        return Err(exhausted.value);
      }
      ghost var stepped := Reading();
      if |inFlight| >= MAX_RESOLUTION_DEPTH {
        return Err(ResolutionDepthExceeded(MAX_RESOLUTION_DEPTH));
      }
      if p.key in inFlight {
        forall n: nat { KeyDecidesFuel(world, p, Placeholder(p.key, None), n); }
        return Err(ResolutionCycle(inFlight, p.key));
      }

      var looked := Lookup(p.key);
      if looked.Err? {
        NodeExcuse(world, p, inFlight, old(Reading()), stepped, looked.error);
        return Err(looked.error);
      }

      ReferenceAnswer(world, p, inFlight, old(Reading()), stepped, Reading(), looked);
      if looked.value.Some? {
        RecordResolved(p, looked.value.value);
        return Ok(looked.value.value);
      }
      if p.default.Some? {
        RecordResolved(p, p.default.value);
        return Ok(p.default.value);
      }
      if IsNamespace(p.key) {
        return Err(UnknownNamespaceKey(p.key));
      }
      return Err(MissingPlaceholder(p.key));
    }

    /** Picks the precedence that the key's spelling asks for. */
    method Lookup(key: string) returns (looked: Result<Option<string>, TemplateError>)
      requires Valid() && |inFlight| < MAX_RESOLUTION_DEPTH && key !in inFlight
      modifies this
      ensures old(Reading()).UpTo(Reading())
      ensures Valid() && inFlight == old(inFlight)
      ensures Finds(world, key, inFlight, old(Reading()), Reading(), looked)
      decreases MAX_RESOLUTION_DEPTH - |inFlight| - 1, 5, 0
    {
      if IsNamespace(key) {
        looked := Ok(Ask(world.chain, key));
      } else if '.' in key {
        looked := ResolvePathThenEnv(key);
      } else if IsScreaming(key) {
        looked := ResolveEnvThenPath(key);
      } else {
        looked := ResolvePathThenEnv(key);
      }
    }

    /** For keys whose tree node, if there is one, hides every resolver. */
    method ResolvePathThenEnv(key: string) returns (r: Result<Option<string>, TemplateError>)
      requires Valid() && |inFlight| < MAX_RESOLUTION_DEPTH && key !in inFlight
      requires !IsNamespace(key) && ('.' in key || !IsScreaming(key))
      modifies this
      ensures old(Reading()).UpTo(Reading())
      ensures Valid() && inFlight == old(inFlight)
      ensures Finds(world, key, inFlight, old(Reading()), Reading(), r)
      decreases MAX_RESOLUTION_DEPTH - |inFlight| - 1, 4, 0
    {
      r := ResolveConfigPath(key);
      if r == Ok(None) {
        r := Ok(Ask(world.chain, key));
      }
    }

    /** For keys whose resolvers hide the tree node. */
    method ResolveEnvThenPath(key: string) returns (r: Result<Option<string>, TemplateError>)
      requires Valid() && |inFlight| < MAX_RESOLUTION_DEPTH && key !in inFlight
      requires !IsNamespace(key) && '.' !in key && IsScreaming(key)
      modifies this
      ensures old(Reading()).UpTo(Reading())
      ensures Valid() && inFlight == old(inFlight)
      ensures Finds(world, key, inFlight, old(Reading()), Reading(), r)
      decreases MAX_RESOLUTION_DEPTH - |inFlight| - 1, 4, 0
    {
      r := Ok(Ask(world.chain, key));
      if r == Ok(None) {
        r := ResolveConfigPath(key);
      }
    }

    /** Renders the node at a config path with its key in flight; the key is popped on every exit. */
    method ResolveConfigPath(key: string) returns (r: Result<Option<string>, TemplateError>)
      requires Valid() && |inFlight| < MAX_RESOLUTION_DEPTH && key !in inFlight
      requires PathNode(world.root, key).Some? ==> OriginOf(world, key) == InTree(PathNode(world.root, key).value)
      modifies this
      ensures old(Reading()).UpTo(Reading())
      ensures Valid() && inFlight == old(inFlight)
      ensures PathNode(world.root, key).None? ==> r == Ok(None) && Reading() == old(Reading())
      ensures PathNode(world.root, key).Some? ==> r != Ok(None)
      ensures PathNode(world.root, key).Some? ==>
                Explains(world, Node(key, PathNode(world.root, key).value), inFlight + [key], old(Reading()), Reading(),
                         if r.Ok? then Ok(r.value.value) else Err(r.error))
      decreases MAX_RESOLUTION_DEPTH - |inFlight| - 1, 3, 0
    {
      var node := LookupPath(world.root, key);
      if node.None? {
        return Ok(None);
      }
      inFlight := inFlight + [key];
      var rendered := RenderNodeAsString(node.value, key);
      inFlight := inFlight[..|inFlight| - 1];
      assert inFlight == old(inFlight);
      r := if rendered.Ok? then Ok(Some(rendered.value)) else Err(rendered.error);
    }

    method RenderNodeAsString(node: ConfigValue, key: string) returns (r: Result<string, TemplateError>)
      requires Valid()
      modifies this
      ensures old(Reading()).UpTo(Reading())
      ensures Valid() && inFlight == old(inFlight)
      ensures Explains(world, Node(key, node), inFlight, old(Reading()), Reading(), r)
      decreases MAX_RESOLUTION_DEPTH - |inFlight|, 2, 0
    {
      match node {
        case Str(s) =>
          r := RenderStr(s);
          NodeOfText(world, key, s, inFlight, old(Reading()), Reading(), r);
        case Bool(b) => r := Ok(ShowBool(b));
        case Int(n) => r := Ok(ShowInt(n));
        case Float(bits) => r := Ok(world.showFloat(bits));
        case _ => r := Err(NotStringRenderable(key));
      }
    }

    /** Renders a template left to right, charging each piece as it is appended. */
    method RenderStr(s: ConfigStr) returns (r: Result<string, TemplateError>)
      requires Valid()
      modifies this
      ensures old(Reading()).UpTo(Reading())
      ensures Valid() && inFlight == old(inFlight)
      ensures Explains(world, Text(s.segments), inFlight, old(Reading()), Reading(), r)
      decreases MAX_RESOLUTION_DEPTH - |inFlight|, 1, 1
    {
      var out := "";
      for i := 0 to |s.segments|
        invariant Valid() && inFlight == old(inFlight)
        invariant old(Reading()).UpTo(Reading())
        invariant Rendering(world, s.segments, i, inFlight, old(Reading()), Reading(), out)
      {
        var piece := RenderSegment(s.segments, i, old(Reading()), out);
        if piece.Err? {
          return Err(piece.error);
        }
        out := out + piece.value;
      }
      assert s.segments[..|s.segments|] == s.segments;
      TextCost(world, s.segments, Room(inFlight));
      r := Ok(out);
    }

    /** One iteration of the rendering loop: the piece to append, its bytes already charged. */
    method RenderSegment(segments: seq<Segment>, i: nat, ghost before: Meter, ghost out: string)
      returns (r: Result<string, TemplateError>)
      requires Valid() && i < |segments|
      requires Rendering(world, segments, i, inFlight, before, Reading(), out)
      modifies this
      ensures old(Reading()).UpTo(Reading())
      ensures Valid() && inFlight == old(inFlight)
      ensures r.Ok? ==> Rendering(world, segments, i + 1, inFlight, before, Reading(), out + r.value)
      ensures r.Err? ==> Excuses(world, Text(segments), inFlight, before, r.error)
      decreases MAX_RESOLUTION_DEPTH - |inFlight|, 1, 0
    {
      ghost var now := Reading();
      var piece: string;
      match segments[i] {
        case Literal(text) => piece := text;
        case Hole(p) =>
          var resolved := ResolvePlaceholder(p);
          if resolved.Err? {
            ReferenceExcuse(world, segments, i, inFlight, before, now, out, resolved.error);
            return Err(resolved.error);
          }
          piece := resolved.value;
      }
      ghost var mid := Reading();
      var tooLarge := ConsumeBytes(ByteLen(piece));
      if tooLarge.Some? {
        BytesExcuse(world, segments, i, inFlight, before, EvalSegment(world, segments[i], Room(inFlight)));
        return Err(tooLarge.value);
      }
      RenderingAdvances(world, segments, i, inFlight, before, now, mid, out, piece);
      r := Ok(piece);
    }
  }

  /** A string node means exactly what its text means. */
  lemma NodeOfText(w: World, key: string, s: ConfigStr, stack: seq<string>, before: Meter, after: Meter,
                   r: Result<string, TemplateError>)
    requires |stack| <= MAX_RESOLUTION_DEPTH
    requires Explains(w, Text(s.segments), stack, before, after, r)
    ensures Explains(w, Node(key, Str(s)), stack, before, after, r)
  {
    forall n: nat ensures Eval(w, Node(key, Str(s)), n) == Eval(w, Text(s.segments), n) {
    }
  }
}

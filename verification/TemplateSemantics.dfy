/** What a template means when nothing bounds its resolution.
  *
  * `Eval` is the reference semantics: it knows no in-flight stack, no cycle check, no step or
  * byte budget. Its only bound is the fuel, the number of nested references it may follow;
  * `FuelMonotone` shows that enough fuel is as good as any more.
  */
module TemplateSemantics {
  import opened Common
  import opened ConfigTree

  datatype TemplateError =
    | ResolutionBudgetExceeded(limit: nat)
    | RenderedOutputTooLarge(limit: nat)
    | ResolutionDepthExceeded(limit: nat)
    | ResolutionCycle(chain: seq<string>, key: string)
    | UnknownNamespaceKey(key: string)
    | MissingPlaceholder(key: string)
    | NotStringRenderable(key: string)

  datatype ResolvedDependency = ResolvedDependency(placeholder: Placeholder, value: string)

  type Resolver = string -> Option<string>

  /** Everything a resolution reads: the tree, the resolver chain and `f64`'s `Display`. */
  datatype World = World(root: ConfigValue, chain: seq<Resolver>, showFloat: nat -> string)

  /** Left to right; none if no resolver answers. */
  function Ask(chain: seq<Resolver>, key: string): Option<string> {
    if chain == [] then None
    else if chain[0](key).Some? then chain[0](key)
    else Ask(chain[1..], key)
  }

  predicate IsUpper(c: char) { 'A' <= c <= 'Z' }

  predicate IsLower(c: char) { 'a' <= c <= 'z' }

  /** Looks like an environment variable: some upper-case ASCII letter, no lower-case one. */
  predicate IsScreaming(key: string) {
    && (exists i :: 0 <= i < |key| && IsUpper(key[i]))
    && (forall i :: 0 <= i < |key| ==> !IsLower(key[i]))
  }

  predicate IsNamespace(key: string) { key != "" && key[0] == '@' }

  function ShowBool(b: bool): string { if b then "true" else "false" }

  function ShowNat(n: nat): string {
    if n < 10 then [("0123456789")[n]] else ShowNat(n / 10) + [("0123456789")[n % 10]]
  }

  function ShowInt(n: int): string { if n < 0 then "-" + ShowNat(-n) else ShowNat(n) }

  /** Where a key's value comes from, with the precedence the key's spelling selects. */
  datatype Origin = Answered(value: string) | InTree(node: ConfigValue) | Nowhere

  function OriginOf(w: World, key: string): Origin {
    var answer := Ask(w.chain, key);
    var node := PathNode(w.root, key);
    var treeFirst := '.' in key || !IsScreaming(key);
    if IsNamespace(key) then if answer.Some? then Answered(answer.value) else Nowhere
    else if node.Some? && (treeFirst || answer.None?) then InTree(node.value)
    else if answer.Some? then Answered(answer.value)
    else Nowhere
  }

  /** The three things that get resolved to a string. */
  datatype Expr =
    | Ref(p: Placeholder)
    | Text(segments: seq<Segment>)
    | Node(key: string, node: ConfigValue)

  /** `Yields` carries the text, the placeholders observed on the way (innermost first) and every
    * string a rendering produced on the way, nested renderings included. */
  datatype Meaning =
    | OutOfFuel
    | Fails(error: TemplateError)
    | Yields(text: string, trace: seq<ResolvedDependency>, rendered: seq<string>)

  function Append(a: Meaning, b: Meaning): Meaning {
    if a.Yields? && b.Yields? then Yields(a.text + b.text, a.trace + b.trace, a.rendered + b.rendered)
    else if a.Yields? then b
    else a
  }

  function Recorded(p: Placeholder, m: Meaning): Meaning {
    if m.Yields? then m.(trace := m.trace + [ResolvedDependency(p, m.text)]) else m
  }

  function Returned(m: Meaning): Meaning {
    if m.Yields? then m.(rendered := m.rendered + [m.text]) else m
  }

  function Eval(w: World, e: Expr, fuel: nat): Meaning
    decreases fuel, match e case Ref(_) => 0 case Text(_) => 2 case Node(_, _) => 3, 0
  {
    match e
    case Ref(p) =>
      if fuel == 0 then OutOfFuel
      else (
        match OriginOf(w, p.key)
        case Answered(v) => Recorded(p, Yields(v, [], []))
        case InTree(node) => Recorded(p, Eval(w, Node(p.key, node), fuel - 1))
        case Nowhere =>
          if p.default.Some? then Recorded(p, Yields(p.default.value, [], []))
          else if IsNamespace(p.key) then Fails(UnknownNamespaceKey(p.key))
          else Fails(MissingPlaceholder(p.key))
      )
    case Text(segments) => Returned(EvalSegments(w, segments, fuel))
    case Node(key, node) =>
      match node
      case Str(s) => Eval(w, Text(s.segments), fuel)
      case Bool(b) => Yields(ShowBool(b), [], [])
      case Int(n) => Yields(ShowInt(n), [], [])
      case Float(bits) => Yields(w.showFloat(bits), [], [])
      case _ => Fails(NotStringRenderable(key))
  }

  /** Segments are evaluated left to right; the first one without a text decides. */
  function EvalSegments(w: World, segments: seq<Segment>, fuel: nat): Meaning
    decreases fuel, 1, |segments|
  {
    if segments == [] then Yields("", [], [])
    else
      var last := |segments| - 1;
      Append(EvalSegments(w, segments[..last], fuel), EvalSegment(w, segments[last], fuel))
  }

  function EvalSegment(w: World, segment: Segment, fuel: nat): Meaning
    decreases fuel, 0, 1
  {
    match segment
    case Literal(text) => Yields(text, [], [])
    case Hole(p) => Eval(w, Ref(p), fuel)
  }

  ghost predicate Diverges(w: World, e: Expr) {
    forall n: nat :: Eval(w, e, n) == OutOfFuel
  }

  // ---------------------------------------------------------------- fuel

  /** More fuel never changes an answer. */
  lemma {:induction false} FuelMonotone(w: World, e: Expr, n: nat, m: nat)
    requires n <= m
    requires Eval(w, e, n) != OutOfFuel
    ensures Eval(w, e, m) == Eval(w, e, n)
    decreases n, match e case Ref(_) => 0 case Text(_) => 2 case Node(_, _) => 3, 0
  {
    match e
    case Ref(p) =>
      if OriginOf(w, p.key).InTree? {
        FuelMonotone(w, Node(p.key, OriginOf(w, p.key).node), n - 1, m - 1);
      }
    case Text(segments) => FuelMonotoneSegments(w, segments, n, m);
    case Node(_, node) =>
      if node.Str? {
        FuelMonotone(w, Text(node.s.segments), n, m);
      }
  }

  lemma {:induction false} FuelMonotoneSegments(w: World, segments: seq<Segment>, n: nat, m: nat)
    requires n <= m
    requires EvalSegments(w, segments, n) != OutOfFuel
    ensures EvalSegments(w, segments, m) == EvalSegments(w, segments, n)
    decreases n, 1, |segments|
  {
    if segments != [] {
      var last := |segments| - 1;
      FuelMonotoneSegments(w, segments[..last], n, m);
      if EvalSegments(w, segments[..last], n).Yields? && segments[last].Hole? {
        FuelMonotone(w, Ref(segments[last].placeholder), n, m);
      }
    }
  }

  /** So an expression has at most one outcome, whatever fuel found it. */
  lemma Determinate(w: World, e: Expr, n: nat, m: nat)
    requires Eval(w, e, n) != OutOfFuel
    requires Eval(w, e, m) != OutOfFuel
    ensures Eval(w, e, n) == Eval(w, e, m)
  {
    if n <= m {
      FuelMonotone(w, e, n, m);
    } else {
      FuelMonotone(w, e, m, n);
    }
  }

  // ---------------------------------------------------------------- segments

  /** A prefix that does not yield decides the whole text. */
  lemma {:induction false} PrefixDecides(w: World, segments: seq<Segment>, i: nat, n: nat)
    requires i <= |segments|
    requires !EvalSegments(w, segments[..i], n).Yields?
    ensures EvalSegments(w, segments, n) == EvalSegments(w, segments[..i], n)
    decreases |segments| - i
  {
    if i == |segments| {
      assert segments[..i] == segments;
    } else {
      assert segments[..i + 1][..i] == segments[..i];
      PrefixDecides(w, segments, i + 1, n);
    }
  }

  function ByteLen(s: string): nat {
    if s == "" then 0 else CharBytes(s[0]) + ByteLen(s[1..])
  }

  /** Bytes of one character in UTF-8. */
  function CharBytes(c: char): nat {
    var code := c as int;
    if code < 0x80 then 1 else if code < 0x800 then 2 else if code < 0x1_0000 then 3 else 4
  }

  lemma {:induction false} ByteLenAppend(a: string, b: string)
    ensures ByteLen(a + b) == ByteLen(a) + ByteLen(b)
  {
    if a == "" {
      assert a + b == b;
    } else {
      assert (a + b)[1..] == a[1..] + b;
      ByteLenAppend(a[1..], b);
    }
  }

  function TotalBytes(texts: seq<string>): nat {
    if texts == [] then 0 else TotalBytes(texts[..|texts| - 1]) + ByteLen(texts[|texts| - 1])
  }

  lemma {:induction false} TotalBytesAppend(a: seq<string>, b: seq<string>)
    ensures TotalBytes(a + b) == TotalBytes(a) + TotalBytes(b)
    decreases |b|
  {
    if b == [] {
      assert a + b == a;
    } else {
      assert (a + b)[..|a + b| - 1] == a + b[..|b| - 1];
      TotalBytesAppend(a, b[..|b| - 1]);
    }
  }

  /** Bytes charged while a text is being assembled: what it holds, plus every nested rendering. */
  function Charge(m: Meaning): nat
    requires m.Yields?
  {
    ByteLen(m.text) + TotalBytes(m.rendered)
  }

  lemma ChargeAppend(a: Meaning, b: Meaning)
    requires a.Yields? && b.Yields?
    ensures Charge(Append(a, b)) == Charge(a) + Charge(b)
  {
    ByteLenAppend(a.text, b.text);
    TotalBytesAppend(a.rendered, b.rendered);
  }

  /** Every prefix of a text that yields also yields, at no greater cost. */
  lemma {:induction false} PrefixCosts(w: World, segments: seq<Segment>, i: nat, n: nat)
    requires i <= |segments|
    requires EvalSegments(w, segments, n).Yields?
    ensures EvalSegments(w, segments[..i], n).Yields?
    ensures |EvalSegments(w, segments[..i], n).trace| <= |EvalSegments(w, segments, n).trace|
    ensures Charge(EvalSegments(w, segments[..i], n)) <= Charge(EvalSegments(w, segments, n))
    decreases |segments|
  {
    if i == |segments| {
      assert segments[..i] == segments;
    } else {
      var last := |segments| - 1;
      PrefixCosts(w, segments[..last], i, n);
      assert segments[..last][..i] == segments[..i];
      ChargeAppend(EvalSegments(w, segments[..last], n), EvalSegment(w, segments[last], n));
    }
  }

  // ---------------------------------------------------------------- divergence

  /** Whether a reference needs more fuel depends on its key alone, never on its default. */
  lemma KeyDecidesFuel(w: World, p: Placeholder, q: Placeholder, n: nat)
    requires p.key == q.key
    ensures Eval(w, Ref(p), n) == OutOfFuel <==> Eval(w, Ref(q), n) == OutOfFuel
  {
  }

  function Bare(key: string): Expr { Ref(Placeholder(key, None)) }

  /** Answering `e` takes answering a reference to `key` first, with no more fuel. */
  ghost predicate Demands(w: World, e: Expr, key: string) {
    forall n: nat :: Eval(w, e, n) != OutOfFuel ==> Eval(w, Bare(key), n) != OutOfFuel
  }

  /** A tree node that demands the very key it is stored under never answers. */
  lemma {:induction false} SelfDemandDiverges(w: World, p: Placeholder, n: nat)
    requires OriginOf(w, p.key).InTree?
    requires Demands(w, Node(p.key, OriginOf(w, p.key).node), p.key)
    ensures Eval(w, Ref(p), n) == OutOfFuel
  {
    if n > 0 {
      SelfDemandDiverges(w, p, n - 1);
      KeyDecidesFuel(w, p, Placeholder(p.key, None), n - 1);
    }
  }

  /** A demand inside a tree node is a demand of every reference to that node. */
  lemma DemandLifts(w: World, p: Placeholder, key: string)
    requires OriginOf(w, p.key).InTree?
    requires Demands(w, Node(p.key, OriginOf(w, p.key).node), key)
    ensures Demands(w, Ref(p), key)
  {
    forall n: nat | Eval(w, Ref(p), n) != OutOfFuel
      ensures Eval(w, Bare(key), n) != OutOfFuel
    {
      FuelMonotone(w, Bare(key), n - 1, n);
    }
  }
}

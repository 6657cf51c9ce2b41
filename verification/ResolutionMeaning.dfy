/** What a successful resolution says about the tree, the resolvers and the template, in terms of none of the
  * definitions that the resolver shares with its reference semantics. */
module ResolutionMeaning {
  import opened Common
  import opened ConfigTree
  import opened TemplateSemantics
  import opened ResolveContext
  import opened Deserialization

  // ---------------------------------------------------------------- numbers

  predicate IsDigit(c: char) { '0' <= c <= '9' }

  predicate AllDigits(s: string) { forall i :: 0 <= i < |s| ==> IsDigit(s[i]) }

  function DigitValue(c: char): nat
    requires IsDigit(c)
  {
    c as int - '0' as int
  }

  /** Reads decimal digits from left to right, after a number already read. */
  function ReadDigits(s: string, read: nat): nat
    requires AllDigits(s)
  {
    if s == "" then read else ReadDigits(s[1..], 10 * read + DigitValue(s[0]))
  }

  /** The integer that a decimal text denotes, with an optional sign. */
  function ReadInt(s: string): Option<int> {
    if s != "" && AllDigits(s) then Some(ReadDigits(s, 0))
    else if |s| > 1 && s[0] == '-' && AllDigits(s[1..]) then Some(0 - ReadDigits(s[1..], 0))
    else None
  }

  /** No superfluous zero. */
  predicate Canonical(s: string) {
    && (|s| > 1 ==> s[0] != '0')
    && (|s| > 1 && s[0] == '-' ==> s[1] != '0')
  }

  lemma DigitChar(d: nat)
    requires d < 10
    ensures IsDigit(("0123456789")[d]) && DigitValue(("0123456789")[d]) == d
  {
    assert d == 0 || d == 1 || d == 2 || d == 3 || d == 4 || d == 5 || d == 6 || d == 7 || d == 8 || d == 9;
  }

  lemma {:induction false} ReadSnoc(s: string, c: char, read: nat)
    requires AllDigits(s) && IsDigit(c)
    ensures AllDigits(s + [c]) && ReadDigits(s + [c], read) == 10 * ReadDigits(s, read) + DigitValue(c)
  {
    if s == "" {
      assert s + [c] == [c] && [c][1..] == "";
    } else {
      assert (s + [c])[1..] == s[1..] + [c] && (s + [c])[0] == s[0];
      ReadSnoc(s[1..], c, 10 * read + DigitValue(s[0]));
    }
  }

  lemma {:induction false} ShowNatReads(n: nat)
    ensures ShowNat(n) != "" && AllDigits(ShowNat(n)) && ReadDigits(ShowNat(n), 0) == n
    ensures ShowNat(n)[0] == '0' ==> n == 0 && ShowNat(n) == "0"
  {
    DigitChar(n % 10);
    if n < 10 {
      var s := ShowNat(n);
      assert s[1..] == "";
    } else {
      ShowNatReads(n / 10);
      ReadSnoc(ShowNat(n / 10), ("0123456789")[n % 10], 0);
    }
  }

  /** Reading inverts the rendering of integers, and the rendering is canonical. */
  lemma ShowIntReads(n: int)
    ensures ReadInt(ShowInt(n)) == Some(n) && Canonical(ShowInt(n))
  {
    if n < 0 {
      ShowNatReads(-n);
      SignedReads(ShowNat(-n));
    } else {
      ShowNatReads(n);
    }
  }

  lemma SignedReads(digits: string)
    requires digits != "" && AllDigits(digits) && digits[0] != '0'
    ensures ReadInt("-" + digits) == Some(0 - ReadDigits(digits, 0)) && Canonical("-" + digits)
  {
    var s := "-" + digits;
    assert s[0] == '-' && s[1..] == digits && !IsDigit(s[0]);
  }

  // ---------------------------------------------------------------- bytes

  /** UTF-8, section 3 of RFC 3629. */
  function Utf8(c: char): seq<int> {
    var code := c as int;
    if code <= 0x7F then [code]
    else if code <= 0x7FF then [0xC0 + code / 0x40, 0x80 + code % 0x40]
    else if code <= 0xFFFF then [0xE0 + code / 0x1000, 0x80 + code / 0x40 % 0x40, 0x80 + code % 0x40]
    else [0xF0 + code / 0x4_0000, 0x80 + code / 0x1000 % 0x40, 0x80 + code / 0x40 % 0x40, 0x80 + code % 0x40]
  }

  function Utf8Text(s: string): seq<int> {
    if s == "" then [] else Utf8(s[0]) + Utf8Text(s[1..])
  }

  /** The code point that a sequence of one to four bytes encodes. */
  function CodePoint(bytes: seq<int>): int {
    if |bytes| == 1 then bytes[0]
    else if |bytes| == 2 then (bytes[0] - 0xC0) * 0x40 + (bytes[1] - 0x80)
    else if |bytes| == 3 then ((bytes[0] - 0xE0) * 0x40 + (bytes[1] - 0x80)) * 0x40 + (bytes[2] - 0x80)
    else if |bytes| == 4 then
      (((bytes[0] - 0xF0) * 0x40 + (bytes[1] - 0x80)) * 0x40 + (bytes[2] - 0x80)) * 0x40 + (bytes[3] - 0x80)
    else -1
  }

  /** The lead byte tells the length; the others are continuations. */
  predicate WellFormed(bytes: seq<int>) {
    && 1 <= |bytes| <= 4
    && (match |bytes|
        case 1 => bytes[0] < 0x80
        case 2 => 0xC0 <= bytes[0] < 0xE0
        case 3 => 0xE0 <= bytes[0] < 0xF0
        case _ => 0xF0 <= bytes[0] < 0xF8)
    && (forall i :: 1 <= i < |bytes| ==> 0x80 <= bytes[i] < 0xC0)
  }

  /** Encoding loses nothing, and the shortest form is used. */
  lemma Utf8Decodes(c: char)
    ensures WellFormed(Utf8(c)) && CodePoint(Utf8(c)) == c as int
  {
    var code := c as int;
    if code > 0xFFFF {
      FourBytes(code);
    } else if code > 0x7FF {
      ThreeBytes(code);
    }
  }

  lemma ThreeBytes(code: int)
    requires 0x7FF < code <= 0xFFFF
    ensures 0 <= code / 0x1000 < 0x10
    ensures (code / 0x1000 * 0x40 + code / 0x40 % 0x40) * 0x40 + code % 0x40 == code
  {
    assert code / 0x40 / 0x40 == code / 0x1000;
  }

  lemma FourBytes(code: int)
    requires 0xFFFF < code <= 0x10_FFFF
    ensures 0 <= code / 0x4_0000 < 8
    ensures ((code / 0x4_0000 * 0x40 + code / 0x1000 % 0x40) * 0x40 + code / 0x40 % 0x40) * 0x40 + code % 0x40 == code
  {
    assert code / 0x40 / 0x40 == code / 0x1000 && code / 0x1000 / 0x40 == code / 0x4_0000;
  }

  /** The byte counter counts the bytes of the UTF-8 encoding. */
  lemma {:induction false} ByteLenIsUtf8(s: string)
    ensures ByteLen(s) == |Utf8Text(s)|
  {
    if s != "" {
      ByteLenIsUtf8(s[1..]);
    }
  }

  // ---------------------------------------------------------------- where a value comes from

  /** The `i`th resolver is the first to answer, with `text`. */
  ghost predicate AnswersFirst(chain: seq<Resolver>, key: string, i: nat, text: string) {
    i < |chain| && chain[i](key) == Some(text) && forall j :: 0 <= j < i ==> chain[j](key) == None
  }

  ghost predicate Answered(chain: seq<Resolver>, key: string, text: string) {
    exists i: nat :: AnswersFirst(chain, key, i, text)
  }

  ghost predicate Unanswered(chain: seq<Resolver>, key: string) {
    forall j :: 0 <= j < |chain| ==> chain[j](key) == None
  }

  lemma {:induction false} AskMeaning(chain: seq<Resolver>, key: string)
    ensures Ask(chain, key).None? <==> Unanswered(chain, key)
    ensures Ask(chain, key).Some? ==> Answered(chain, key, Ask(chain, key).value)
  {
    if chain != [] {
      var rest := chain[1..];
      AskMeaning(rest, key);
      assert forall j :: 0 < j < |chain| ==> chain[j] == rest[j - 1];
      assert forall j :: 0 <= j < |rest| ==> rest[j] == chain[j + 1];
      if chain[0](key).Some? {
        assert AnswersFirst(chain, key, 0, chain[0](key).value);
      } else if Ask(rest, key).Some? {
        var i: nat :| AnswersFirst(rest, key, i, Ask(rest, key).value);
        assert AnswersFirst(chain, key, i + 1, Ask(rest, key).value);
      }
    }
  }

  /** Spelled like an environment variable: one segment, some upper-case ASCII letter, no lower-case one. */
  predicate EnvLike(key: string) {
    && '.' !in key
    && (exists i :: 0 <= i < |key| && 'A' <= key[i] <= 'Z')
    && (forall i :: 0 <= i < |key| ==> !('a' <= key[i] <= 'z'))
  }

  /** The text of a tree node: scalars by their usual spelling, string leaves by their own meaning. */
  ghost predicate Spells(w: World, node: ConfigValue, text: string) {
    match node
    case Bool(b) => text == if b then "true" else "false"
    case Int(n) => ReadInt(text) == Some(n) && Canonical(text)
    case Float(bits) => text == w.showFloat(bits)
    case Str(s) => exists n: nat :: Eval(w, Text(s.segments), n).Yields? && Eval(w, Text(s.segments), n).text == text
    case _ => false
  }

  /** A placeholder that resolves has its text from the source that its spelling puts first: a namespace key
    * from the resolvers only; one spelled like an environment variable from the resolvers, else the tree;
    * any other from the tree, else the resolvers; and from its inline default only when all of them have
    * nothing. */
  ghost predicate FromItsSource(w: World, p: Placeholder, text: string) {
    var node := PathNode(w.root, p.key);
    var fallback := Unanswered(w.chain, p.key) && p.default == Some(text);
    if p.key != "" && p.key[0] == '@' then
      Answered(w.chain, p.key, text) || fallback
    else if EnvLike(p.key) then
      || Answered(w.chain, p.key, text)
      || (Unanswered(w.chain, p.key) && node.Some? && Spells(w, node.value, text))
      || (node.None? && fallback)
    else
      || (node.Some? && Spells(w, node.value, text))
      || (node.None? && (Answered(w.chain, p.key, text) || fallback))
  }

  lemma NodeSpells(w: World, key: string, node: ConfigValue, n: nat)
    requires Eval(w, Node(key, node), n).Yields?
    ensures Spells(w, node, Eval(w, Node(key, node), n).text)
  {
    match node
    case Int(i) => ShowIntReads(i);
    case Str(s) => assert Eval(w, Text(s.segments), n).text == Eval(w, Node(key, node), n).text;
    case _ =>
  }

  /** The four rules of precedence, of every successful outcome of resolving a placeholder. */
  lemma PlaceholderSource(w: World, p: Placeholder, stack: seq<string>, before: Meter, after: Meter, text: string)
    requires |stack| <= MAX_RESOLUTION_DEPTH && Explains(w, Ref(p), stack, before, after, Ok(text))
    ensures FromItsSource(w, p, text)
  {
    AskMeaning(w.chain, p.key);
    if OriginOf(w, p.key).InTree? {
      NodeSpells(w, p.key, OriginOf(w, p.key).node, Room(stack) - 1);
    }
  }

  /** A placeholder that nothing answers and that has no default fails, naming itself: a namespace key as an
    * unknown one, any other as missing; unless a budget, the depth or a cycle stops it first. */
  lemma PlaceholderFailure(w: World, p: Placeholder, stack: seq<string>, before: Meter, after: Meter,
                           r: Result<string, TemplateError>)
    requires |stack| <= MAX_RESOLUTION_DEPTH && Explains(w, Ref(p), stack, before, after, r)
    requires Unanswered(w.chain, p.key) && p.default == None
    requires (p.key != "" && p.key[0] == '@') || PathNode(w.root, p.key).None?
    ensures r.Err?
    ensures r.error.UnknownNamespaceKey? || r.error.MissingPlaceholder? || r.error.NotStringRenderable? ==>
              r.error == if p.key != ""
                && p.key[0] == '@' then UnknownNamespaceKey(p.key) else MissingPlaceholder(p.key)
  {
    AskMeaning(w.chain, p.key);
  }

  /** A reference to null, an array or a table never resolves when the tree comes first. */
  lemma StructureFails(w: World, p: Placeholder, stack: seq<string>, before: Meter, after: Meter,
                       r: Result<string, TemplateError>)
    requires |stack| <= MAX_RESOLUTION_DEPTH && Explains(w, Ref(p), stack, before, after, r)
    requires !(p.key != "" && p.key[0] == '@') && !EnvLike(p.key)
    requires PathNode(w.root, p.key).Some?
    requires var node := PathNode(w.root, p.key).value; node.Null? || node.Array? || node.Table?
    ensures r.Err?
    ensures r.error.UnknownNamespaceKey? || r.error.MissingPlaceholder? || r.error.NotStringRenderable? ==>
              r.error == NotStringRenderable(p.key)
  {
    var node := PathNode(w.root, p.key).value;
    assert OriginOf(w, p.key) == InTree(node);
    if Room(stack) > 0 {
      assert Eval(w, Node(p.key, node), Room(stack) - 1) == Fails(NotStringRenderable(p.key));
    }
  }

  // ---------------------------------------------------------------- what a template renders to

  function JoinTexts(pieces: seq<Meaning>): string
    requires forall m <- pieces :: m.Yields?
  {
    if pieces == [] then "" else pieces[0].text + JoinTexts(pieces[1..])
  }

  function JoinTraces(pieces: seq<Meaning>): seq<ResolvedDependency>
    requires forall m <- pieces :: m.Yields?
  {
    if pieces == [] then [] else pieces[0].trace + JoinTraces(pieces[1..])
  }

  lemma {:induction false} JoinSnoc(pieces: seq<Meaning>, m: Meaning)
    requires m.Yields? && forall x <- pieces :: x.Yields?
    ensures forall x <- pieces + [m] :: x.Yields?
    ensures JoinTexts(pieces + [m]) == JoinTexts(pieces) + m.text
    ensures JoinTraces(pieces + [m]) == JoinTraces(pieces) + m.trace
  {
    if pieces == [] {
      assert pieces + [m] == [m] && [m][1..] == [];
    } else {
      assert (pieces + [m])[0] == pieces[0] && (pieces + [m])[1..] == pieces[1..] + [m];
      JoinSnoc(pieces[1..], m);
    }
  }

  /** A literal stands for itself, a placeholder for what it resolves to. */
  ghost predicate Pieces(w: World, segments: seq<Segment>, n: nat, pieces: seq<Meaning>) {
    && |pieces| == |segments|
    && forall i :: 0 <= i < |pieces| ==>
         && pieces[i].Yields?
         && match segments[i]
            case Literal(text) => pieces[i].text == text && pieces[i].trace == []
            case Hole(p) => pieces[i] == Eval(w, Ref(p), n)
  }

  lemma {:induction false} SegmentsJoin(w: World, segments: seq<Segment>, n: nat) returns (pieces: seq<Meaning>)
    requires EvalSegments(w, segments, n).Yields?
    ensures Pieces(w, segments, n, pieces)
    ensures EvalSegments(w, segments, n).text == JoinTexts(pieces)
    ensures EvalSegments(w, segments, n).trace == JoinTraces(pieces)
  {
    if segments == [] {
      pieces := [];
    } else {
      var last := |segments| - 1;
      var m := EvalSegment(w, segments[last], n);
      var front := SegmentsJoin(w, segments[..last], n);
      JoinSnoc(front, m);
      PiecesSnoc(w, segments, n, front, m);
      pieces := front + [m];
    }
  }

  lemma PiecesSnoc(w: World, segments: seq<Segment>, n: nat, front: seq<Meaning>, m: Meaning)
    requires segments != [] && Pieces(w, segments[..|segments| - 1], n, front)
    requires m == EvalSegment(w, segments[|segments| - 1], n) && m.Yields?
    ensures Pieces(w, segments, n, front + [m])
  {
    assert forall i :: 0 <= i < |front| ==> segments[..|segments| - 1][i] == segments[i];
  }

  /** A rendered template is the concatenation, left to right, of its literals and of what its placeholders
    * resolve to; and so is its trace. */
  lemma RenderedText(w: World, segments: seq<Segment>, stack: seq<string>, before: Meter, after: Meter, text: string)
    returns (pieces: seq<Meaning>)
    requires |stack| <= MAX_RESOLUTION_DEPTH && Explains(w, Text(segments), stack, before, after, Ok(text))
    ensures Pieces(w, segments, Room(stack), pieces)
    ensures text == JoinTexts(pieces) && after.trace == before.trace + JoinTraces(pieces)
  {
    pieces := SegmentsJoin(w, segments, Room(stack));
  }

  /** A reference records itself last, after all that was observed while its node was rendered. */
  lemma RecordedLast(w: World, p: Placeholder, stack: seq<string>, before: Meter, after: Meter, text: string)
    requires |stack| <= MAX_RESOLUTION_DEPTH && Explains(w, Ref(p), stack, before, after, Ok(text))
    ensures |after.trace| > |before.trace| && after.trace[|after.trace| - 1] == ResolvedDependency(p, text)
  {
  }

  // ---------------------------------------------------------------- the limits

  /** In a fresh context a resolution succeeds exactly when its meaning takes at most 64 nested references,
    * 4096 steps and 1,048,576 rendered bytes; and the limit errors name these numbers. */
  lemma LimitsInNumbers(w: World, e: Expr, after: Meter, r: Result<string, TemplateError>, depth: nat)
    requires depth == 64 && Explains(w, e, [], Meter(0, 0, []), after, r)
    ensures r.Ok? <==>
              var m := Eval(w, e, depth);
              m.Yields? && |m.trace| <= 4096 && Cost(m) <= 1_048_576
    ensures r.Err? && r.error.ResolutionBudgetExceeded? ==> r.error.limit == 4096
    ensures r.Err? && r.error.RenderedOutputTooLarge? ==> r.error.limit == 1_048_576
    ensures r.Err? && r.error.ResolutionDepthExceeded? ==> r.error.limit == 64
  {
    SucceedsIffFits(w, e, Meter(0, 0, []), after, r);
  }
}

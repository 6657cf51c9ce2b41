/** The single-pass template parser and the canonical printer it inverts. */
module TemplateParser {
  import opened Common
  import opened ConfigTree

  datatype ParseError = UnterminatedPlaceholder

  // ---------------------------------------------------------------- the grammar

  const KEY_STOPS := {':', '}'}
  const DEFAULT_STOPS := {'}'}

  /** How far `s` runs without meeting a character of `stops`. */
  function Run(s: string, stops: set<char>): (n: nat)
    ensures n <= |s|
  {
    if s == "" || s[0] in stops then 0 else 1 + Run(s[1..], stops)
  }

  /** The placeholder that `s` starts with, after its opening `${`, and what follows its `}`. */
  function TakePlaceholder(s: string): Option<(Placeholder, string)> {
    var n := Run(s, KEY_STOPS);
    if n == |s| then None
    else if s[n] == '}' then Some((Placeholder(s[..n], None), s[n + 1..]))
    else TakeDefault(s[..n], s[n + 1..])
  }

  /** The same, after the `:` that ends `key`. */
  function TakeDefault(key: string, body: string): Option<(Placeholder, string)> {
    var m := Run(body, DEFAULT_STOPS);
    if m == |body| then None else Some((Placeholder(key, Some(body[..m])), body[m + 1..]))
  }

  function Flush(literal: string): seq<Segment> {
    if literal == "" then [] else [Literal(literal)]
  }

  /** The segments of `literal` (already read) followed by `rest`; none if a placeholder is unterminated. */
  function Parse(rest: string, literal: string): Option<seq<Segment>>
    decreases |rest|
  {
    if rest == "" then Some(Flush(literal))
    else if rest[0] != '$' then Parse(rest[1..], literal + [rest[0]])
    else if |rest| > 1 && rest[1] == '$' then Parse(rest[2..], literal + "$")
    else if |rest| > 1 && rest[1] == '{' then
      match TakePlaceholder(rest[2..])
      case None => None
      case Some((p, after)) => Prepend(Flush(literal) + [Hole(p)], Parse(after, ""))
    else Parse(rest[1..], literal + "$")
  }

  /** What a parse yields after the segments already pushed. */
  function Prepend(segments: seq<Segment>, tail: Option<seq<Segment>>): Option<seq<Segment>> {
    if tail.Some? then Some(segments + tail.value) else None
  }

  lemma PrependJoin(a: seq<Segment>, b: seq<Segment>, tail: Option<seq<Segment>>)
    ensures Prepend(a, Prepend(b, tail)) == Prepend(a + b, tail)
    ensures Prepend([], tail) == tail
  {
    if tail.Some? {
      assert a + (b + tail.value) == a + b + tail.value;
      assert [] + tail.value == tail.value;
    }
  }

  function Classify(segments: seq<Segment>): StrKind {
    if segments == [] then LiteralKind
    else if |segments| == 1 then if segments[0].Literal? then LiteralKind else FullPlaceholder
    else Templated
  }

  // ---------------------------------------------------------------- the parser

  /** `done` is read, `rest` is to come, and nothing read so far stops the run. */
  ghost predicate Scanned(s: string, done: string, rest: string, stops: set<char>) {
    s == done + rest && Run(s, stops) == |done| + Run(rest, stops)
  }

  lemma ScannedStep(s: string, done: string, rest: string, stops: set<char>)
    requires Scanned(s, done, rest, stops)
    ensures rest == "" ==> Run(s, stops) == |s|
    ensures rest != "" && rest[0] in stops ==> StopsAt(s, done, rest[0], rest[1..], stops)
    ensures rest != "" && rest[0] !in stops ==> Scanned(s, done + [rest[0]], rest[1..], stops)
  {
    if rest != "" {
      assert rest == [rest[0]] + rest[1..];
      if rest[0] in stops {
        assert s[..|done|] == done && s[|done| + 1..] == rest[1..];
      }
    }
  }

  /** The run over `s` reads `done`, stops at `c`, and leaves `rest`. */
  ghost predicate StopsAt(s: string, done: string, c: char, rest: string, stops: set<char>) {
    && Run(s, stops) == |done| < |s|
    && s[..|done|] == done && s[|done|] == c && s[|done| + 1..] == rest
  }

  /** Splits `s` at its first `}`; `rest` is what the iterator has left. */
  method ReadDefault(s: string) returns (r: Result<string, ParseError>, rest: string)
    ensures var m := Run(s, DEFAULT_STOPS);
            if m == |s| then r.Err? else r == Ok(s[..m]) && rest == s[m + 1..]
  {
    var default := "";
    rest := s;
    while true
      invariant Scanned(s, default, rest, DEFAULT_STOPS)
      decreases |rest|
    {
      ScannedStep(s, default, rest, DEFAULT_STOPS);
      if rest == "" {
        return Err(UnterminatedPlaceholder), rest;
      }
      var c := rest[0];
      if c == '}' {
        return Ok(default), rest[1..];
      }
      rest := rest[1..];
      default := default + [c];
    }
  }

  lemma TakeAt(s: string, key: string, c: char, rest: string)
    requires StopsAt(s, key, c, rest, KEY_STOPS)
    ensures TakePlaceholder(s) == if c == '}' then Some((Placeholder(key, None), rest)) else TakeDefault(key, rest)
  {
  }

  /** The iterator's way of computing `TakePlaceholder`. */
  method ParsePlaceholder(s: string) returns (r: Result<Placeholder, ParseError>, rest: string)
    ensures if r.Err? then TakePlaceholder(s) == None else TakePlaceholder(s) == Some((r.value, rest))
    ensures r.Ok? ==> |rest| < |s|
  {
    var key := "";
    rest := s;
    while true
      invariant Scanned(s, key, rest, KEY_STOPS)
      decreases |rest|
    {
      ScannedStep(s, key, rest, KEY_STOPS);
      if rest == "" {
        return Err(UnterminatedPlaceholder), rest;
      }
      var c := rest[0];
      rest := rest[1..];
      if c == '}' {
        TakeAt(s, key, c, rest);
        return Ok(Placeholder(key, None)), rest;
      }
      if c == ':' {
        TakeAt(s, key, c, rest);
        var default;
        default, rest := ReadDefault(rest);
        if default.Err? {
          return Err(default.error), rest;
        }
        return Ok(Placeholder(key, Some(default.value))), rest;
      }
      key := key + [c];
    }
  }

  /** `parse_template`. */
  method ParseTemplate(raw: string) returns (r: Result<ConfigStr, ParseError>)
    ensures r.Ok? <==> Parse(raw, "").Some?
    ensures r.Ok? ==> r.value == ConfigStr(Parse(raw, "").value, Classify(Parse(raw, "").value))
  {
    var segments: seq<Segment> := [];
    var literal := "";
    var chars := raw;
    PrependJoin([], [], Parse(raw, ""));
    while chars != ""
      invariant Prepend(segments, Parse(chars, literal)) == Parse(raw, "")
      decreases |chars|
    {
      ghost var before := chars;
      var c := chars[0];
      chars := chars[1..];
      if c != '$' {
        literal := literal + [c];
        continue;
      }
      if chars != "" && chars[0] == '$' {
        literal := literal + "$";
        chars := chars[1..];
        assert before[2..] == chars;
      } else if chars != "" && chars[0] == '{' {
        assert before[2..] == chars[1..];
        var placeholder;
        placeholder, chars := ParsePlaceholder(chars[1..]);
        if placeholder.Err? {
          return Err(placeholder.error);
        }
        PrependJoin(segments, Flush(literal) + [Hole(placeholder.value)], Parse(chars, ""));
        assert segments + (Flush(literal) + [Hole(placeholder.value)])
               == segments + Flush(literal) + [Hole(placeholder.value)];
        assert literal == "" ==> segments + Flush(literal) == segments;
        if literal != "" {
          segments := segments + [Segment.Literal(literal)];
        }
        segments := segments + [Hole(placeholder.value)];
        literal := "";
      } else {
        literal := literal + "$";
      }
    }
    assert literal == "" ==> segments + Flush(literal) == segments;
    if literal != "" {
      segments := segments + [Segment.Literal(literal)];
    }
    r := Ok(ConfigStr(segments, Classify(segments)));
  }

  // ---------------------------------------------------------------- the printer

  function Escape(text: string): string {
    if text == "" then "" else (if text[0] == '$' then "$$" else [text[0]]) + Escape(text[1..])
  }

  function PrintPlaceholder(p: Placeholder): string {
    "${" + p.key + (if p.default.Some? then ":" + p.default.value else "") + "}"
  }

  /** The canonical text of a segment list. */
  function Print(segments: seq<Segment>): string {
    if segments == [] then "" else PrintSegment(segments[0]) + Print(segments[1..])
  }

  function PrintSegment(segment: Segment): string {
    if segment.Literal? then Escape(segment.text) else PrintPlaceholder(segment.placeholder)
  }

  predicate CleanPlaceholder(p: Placeholder) {
    ':' !in p.key && '}' !in p.key && (p.default.Some? ==> '}' !in p.default.value)
  }

  /** No empty and no adjacent literals; keys and defaults without the characters that would end them. */
  predicate Normal(segments: seq<Segment>) {
    segments == [] ||
    (&& (match segments[0]
         case Literal(text) => text != "" && (|segments| > 1 ==> segments[1].Hole?)
         case Hole(p) => CleanPlaceholder(p))
     && Normal(segments[1..]))
  }

  lemma {:induction false} RunStops(s: string, stops: set<char>)
    ensures forall c <- s[..Run(s, stops)] :: c !in stops
    ensures Run(s, stops) < |s| ==> s[Run(s, stops)] in stops
  {
    if s != "" && s[0] !in stops {
      RunStops(s[1..], stops);
      assert s[..Run(s, stops)] == [s[0]] + s[1..][..Run(s[1..], stops)];
      assert forall c :: c in s[..Run(s, stops)] <==> c == s[0] || c in s[1..][..Run(s[1..], stops)];
    }
  }

  lemma {:induction false} RunOver(a: string, c: char, rest: string, stops: set<char>)
    requires c in stops && forall x <- a :: x !in stops
    ensures Run(a + [c] + rest, stops) == |a|
  {
    if a == "" {
      assert a + [c] + rest == [c] + rest;
    } else {
      assert (a + [c] + rest)[1..] == a[1..] + [c] + rest;
      RunOver(a[1..], c, rest, stops);
    }
  }

  lemma InSplit(s: string, n: nat, c: char)
    requires n < |s|
    ensures c in s <==> c in s[..n] || c == s[n] || c in s[n + 1..]
  {
    assert s == s[..n] + [s[n]] + s[n + 1..];
  }

  lemma RunToEnd(s: string, stops: set<char>)
    ensures Run(s, stops) == |s| <==> forall c <- stops :: c !in s
  {
    var n := Run(s, stops);
    RunStops(s, stops);
    if n < |s| {
      assert s[n] in s;
    } else {
      assert s[..n] == s;
    }
  }

  /** A placeholder is unterminated exactly when no `}` follows its opening. */
  lemma TakePlaceholderFails(s: string)
    ensures TakePlaceholder(s).None? <==> '}' !in s
    ensures TakePlaceholder(s).Some? ==> CleanPlaceholder(TakePlaceholder(s).value.0)
  {
    var n := Run(s, KEY_STOPS);
    RunStops(s, KEY_STOPS);
    RunToEnd(s, KEY_STOPS);
    if n < |s| {
      InSplit(s, n, '}');
      if s[n] == ':' {
        RunStops(s[n + 1..], DEFAULT_STOPS);
        RunToEnd(s[n + 1..], DEFAULT_STOPS);
      }
    }
  }

  lemma TakePrinted(p: Placeholder, rest: string)
    requires CleanPlaceholder(p)
    ensures (PrintPlaceholder(p) + rest)[..2] == "${"
    ensures TakePlaceholder((PrintPlaceholder(p) + rest)[2..]) == Some((p, rest))
  {
    var s := (PrintPlaceholder(p) + rest)[2..];
    if p.default.None? {
      assert s == p.key + ['}'] + rest;
      RunOver(p.key, '}', rest, KEY_STOPS);
      assert s[..|p.key|] == p.key && s[|p.key| + 1..] == rest;
    } else {
      var body := p.default.value + ['}'] + rest;
      assert s == p.key + [':'] + body;
      RunOver(p.key, ':', body, KEY_STOPS);
      RunOver(p.default.value, '}', rest, DEFAULT_STOPS);
      assert s[..|p.key|] == p.key && s[|p.key| + 1..] == body;
      assert body[..|p.default.value|] == p.default.value && body[|p.default.value| + 1..] == rest;
    }
  }

  lemma ParseOneEscaped(c: char, rest: string, literal: string)
    ensures Parse((if c == '$' then "$$" else [c]) + rest, literal) == Parse(rest, literal + [c])
  {
    var head := if c == '$' then "$$" else [c];
    assert (head + rest)[|head|..] == rest;
    if c == '$' {
      assert literal + "$" == literal + [c];
    }
  }

  /** An escaped text reads back as that text, whatever follows it. */
  lemma {:induction false} ParseEscaped(text: string, rest: string, literal: string)
    ensures Parse(Escape(text) + rest, literal) == Parse(rest, literal + text)
  {
    if text == "" {
      assert Escape(text) + rest == rest && literal + text == literal;
    } else {
      var head := if text[0] == '$' then "$$" else [text[0]];
      assert Escape(text) + rest == head + (Escape(text[1..]) + rest);
      assert literal + [text[0]] + text[1..] == literal + text;
      ParseOneEscaped(text[0], Escape(text[1..]) + rest, literal);
      ParseEscaped(text[1..], rest, literal + [text[0]]);
    }
  }

  lemma ParsePrintedHole(p: Placeholder, rest: string, literal: string)
    requires CleanPlaceholder(p)
    ensures Parse(PrintPlaceholder(p) + rest, literal) == Prepend(Flush(literal) + [Hole(p)], Parse(rest, ""))
  {
    TakePrinted(p, rest);
    var s := PrintPlaceholder(p) + rest;
    assert s[0] == s[..2][0] && s[1] == s[..2][1];
  }

  lemma PrintCons(segment: Segment, rest: seq<Segment>)
    ensures Print([segment] + rest) == PrintSegment(segment) + Print(rest)
  {
    assert ([segment] + rest)[1..] == rest;
  }

  lemma PrintedLiteral(text: string, rest: seq<Segment>)
    requires Parse(Print(rest), text) == Some([Segment.Literal(text)] + rest)
    ensures Parse(Print([Segment.Literal(text)] + rest), "") == Some([Segment.Literal(text)] + rest)
  {
    PrintCons(Segment.Literal(text), rest);
    ParseEscaped(text, Print(rest), "");
    assert "" + text == text;
  }

  lemma PrintedHole(p: Placeholder, rest: seq<Segment>, literal: string)
    requires CleanPlaceholder(p)
    requires Parse(Print(rest), "") == Some(rest)
    ensures Parse(Print([Hole(p)] + rest), literal) == Some(Flush(literal) + ([Hole(p)] + rest))
  {
    PrintCons(Hole(p), rest);
    ParsePrintedHole(p, Print(rest), literal);
    assert Flush(literal) + [Hole(p)] + rest == Flush(literal) + ([Hole(p)] + rest);
  }

  lemma {:induction false} ParsePrinted(segments: seq<Segment>, literal: string)
    requires Normal(segments)
    requires literal != "" ==> segments == [] || segments[0].Hole?
    ensures Parse(Print(segments), literal) == Some(Flush(literal) + segments)
    decreases |segments|
  {
    if segments == [] {
      assert Flush(literal) + segments == Flush(literal);
    } else {
      var rest := segments[1..];
      assert segments == [segments[0]] + rest && [] + rest == rest && [] + segments == segments;
      match segments[0]
      case Literal(text) =>
        ParsePrinted(rest, text);
        PrintedLiteral(text, rest);
      case Hole(p) =>
        ParsePrinted(rest, "");
        PrintedHole(p, rest, literal);
    }
  }

  /** Parsing inverts printing on every normal segment list. */
  lemma ParseInvertsPrint(segments: seq<Segment>)
    requires Normal(segments)
    ensures Parse(Print(segments), "") == Some(segments)
  {
    ParsePrinted(segments, "");
    assert [] + segments == segments;
  }

  lemma {:induction false} ParseIsNormalFrom(rest: string, literal: string)
    requires Parse(rest, literal).Some?
    ensures Normal(Parse(rest, literal).value)
    decreases |rest|
  {
    if rest == "" {
    } else if rest[0] != '$' {
      ParseIsNormalFrom(rest[1..], literal + [rest[0]]);
    } else if |rest| > 1 && rest[1] == '$' {
      ParseIsNormalFrom(rest[2..], literal + "$");
    } else if |rest| > 1 && rest[1] == '{' {
      var (p, after) := TakePlaceholder(rest[2..]).value;
      TakePlaceholderFails(rest[2..]);
      ParseIsNormalFrom(after, "");
      NormalJoin(Flush(literal), p, Parse(after, "").value);
    } else {
      ParseIsNormalFrom(rest[1..], literal + "$");
    }
  }

  lemma NormalJoin(front: seq<Segment>, p: Placeholder, back: seq<Segment>)
    requires front == [] || (|front| == 1 && front[0].Literal? && front[0].text != "")
    requires CleanPlaceholder(p) && Normal(back)
    ensures Normal(front + [Hole(p)] + back)
  {
    assert ([Hole(p)] + back)[1..] == back;
    var all := front + [Hole(p)] + back;
    if front == [] {
      assert all == [Hole(p)] + back;
    } else {
      assert all[1..] == [Hole(p)] + back;
    }
  }

  /** Every parse is in normal form, so printing it and parsing again gives it back: the canonical text
    * of a template means what the template means. */
  lemma ParseIsNormal(raw: string)
    requires Parse(raw, "").Some?
    ensures Normal(Parse(raw, "").value)
    ensures Parse(Print(Parse(raw, "").value), "") == Parse(raw, "")
  {
    ParseIsNormalFrom(raw, "");
    ParseInvertsPrint(Parse(raw, "").value);
  }

  // ---------------------------------------------------------------- where a parse fails

  predicate UnterminatedAt(raw: string, at: nat) {
    at + 2 <= |raw| && raw[at] == '$' && raw[at + 1] == '{' && '}' !in raw[at + 2..]
  }

  /** How much of `raw` a scan skips at once: a `$$` pair, a terminated placeholder up to its first `}`, or
    * one character. */
  function Skip(raw: string): (n: nat)
    requires raw != ""
    ensures 0 < n <= |raw|
  {
    if |raw| > 1 && raw[0] == '$' && raw[1] == '$' then 2
    else if |raw| > 1 && raw[0] == '$' && raw[1] == '{' && Run(raw[2..], DEFAULT_STOPS) < |raw| - 2 then
      2 + Run(raw[2..], DEFAULT_STOPS) + 1
    else 1
  }

  /** A scan of `raw` from its start comes to the position `at`. */
  predicate Reaches(raw: string, at: nat)
    decreases |raw|
  {
    at == 0 || (raw != "" && Skip(raw) <= at && Reaches(raw[Skip(raw)..], at - Skip(raw)))
  }

  lemma RunSkips(s: string, stops: set<char>, n: nat)
    requires n <= Run(s, stops)
    ensures Run(s, stops) == n + Run(s[n..], stops)
    decreases n
  {
    if n > 0 {
      assert s[1..][n - 1..] == s[n..];
      RunSkips(s[1..], stops, n - 1);
    } else {
      assert s[0..] == s;
    }
  }

  /** A run stops no later for having more characters to stop at. */
  lemma {:induction false} RunLonger(s: string, few: set<char>, many: set<char>)
    requires few <= many
    ensures Run(s, many) <= Run(s, few)
  {
    if s != "" && s[0] !in many {
      RunLonger(s[1..], few, many);
    }
  }

  /** The first `}` after a `:` is the first one at all, if none comes before. */
  lemma FirstBrace(s: string, n: nat, body: string)
    requires n < |s| && n <= Run(s, DEFAULT_STOPS) && body == s[n + 1..]
    ensures Run(s, DEFAULT_STOPS) == if s[n] == '}' then n else n + 1 + Run(body, DEFAULT_STOPS)
  {
    RunSkips(s, DEFAULT_STOPS, n);
    assert s[n..][0] == s[n] && s[n..][1..] == body;
  }

  /** A placeholder ends at the first `}` after its opening. */
  lemma PlaceholderEnds(s: string)
    requires TakePlaceholder(s).Some?
    ensures Run(s, DEFAULT_STOPS) < |s| && TakePlaceholder(s).value.1 == s[Run(s, DEFAULT_STOPS) + 1..]
  {
    var n := Run(s, KEY_STOPS);
    RunLonger(s, DEFAULT_STOPS, KEY_STOPS);
    FirstBrace(s, n, s[n + 1..]);
    if s[n] != '}' {
      DefaultEnds(s[..n], s[n + 1..]);
      SuffixOfSuffix(s, n + 1, Run(s[n + 1..], DEFAULT_STOPS) + 1);
    }
  }

  lemma DefaultEnds(key: string, body: string)
    requires TakeDefault(key, body).Some?
    ensures Run(body, DEFAULT_STOPS) < |body| && TakeDefault(key, body).value.1 == body[Run(body, DEFAULT_STOPS) + 1..]
  {
  }

  lemma SuffixOfSuffix(s: string, i: nat, j: nat)
    requires i + j <= |s|
    ensures s[i..][j..] == s[i + j..]
  {
  }

  lemma FirstStop(s: string, c: char)
    ensures Run(s, {c}) < |s| <==> c in s
  {
    RunToEnd(s, {c});
  }

  /** Unless an unterminated placeholder opens here, the parse goes on where the scan does. */
  lemma ParseSkips(raw: string, literal: string) returns (next: string)
    requires raw != "" && !UnterminatedAt(raw, 0)
    ensures Parse(raw, literal).None? <==> Parse(raw[Skip(raw)..], next).None?
  {
    if raw[0] != '$' {
      next := literal + [raw[0]];
    } else if |raw| > 1 && raw[1] == '{' {
      next := "";
      HoleSkips(raw, literal);
    } else {
      next := literal + "$";
    }
  }

  lemma HoleSkips(raw: string, literal: string)
    requires |raw| > 1 && raw[0] == '$' && raw[1] == '{' && '}' in raw[2..]
    ensures Parse(raw, literal).None? <==> Parse(raw[Skip(raw)..], "").None?
  {
    var body := raw[2..];
    FirstStop(body, '}');
    TakePlaceholderFails(body);
    PlaceholderEnds(body);
    SuffixOfSuffix(raw, 2, Run(body, DEFAULT_STOPS) + 1);
    assert raw[Skip(raw)..] == TakePlaceholder(body).value.1;
  }

  lemma UnterminatedFails(raw: string, literal: string)
    requires UnterminatedAt(raw, 0)
    ensures Parse(raw, literal).None?
  {
    TakePlaceholderFails(raw[2..]);
  }

  lemma UnterminatedInSuffix(raw: string, k: nat, at: nat)
    requires k <= |raw|
    ensures UnterminatedAt(raw[k..], at) <==> UnterminatedAt(raw, k + at)
  {
    if k + at + 2 <= |raw| {
      assert raw[k..][at + 2..] == raw[k + at + 2..];
    }
  }

  /** A parse error comes with an opening that the scan reaches and no `}` follows. */
  lemma {:induction false} ErrorIsUnterminated(raw: string, literal: string) returns (at: nat)
    requires Parse(raw, literal).None?
    ensures Reaches(raw, at) && UnterminatedAt(raw, at)
    decreases |raw|
  {
    if UnterminatedAt(raw, 0) {
      at := 0;
    } else {
      var next := ParseSkips(raw, literal);
      at := ErrorIsUnterminated(raw[Skip(raw)..], next);
      at := ReachesOn(raw, at);
    }
  }

  lemma ReachesOn(raw: string, at: nat) returns (from: nat)
    requires raw != "" && Reaches(raw[Skip(raw)..], at) && UnterminatedAt(raw[Skip(raw)..], at)
    ensures Reaches(raw, from) && UnterminatedAt(raw, from)
  {
    from := Skip(raw) + at;
    UnterminatedInSuffix(raw, Skip(raw), at);
  }

  /** And any such opening makes the parse fail. */
  lemma {:induction false} UnterminatedIsError(raw: string, literal: string, at: nat)
    requires Reaches(raw, at) && UnterminatedAt(raw, at)
    ensures Parse(raw, literal).None?
    decreases |raw|
  {
    if UnterminatedAt(raw, 0) {
      UnterminatedFails(raw, literal);
    } else {
      var rest, from := ReachedFrom(raw, at);
      var next := ParseSkips(raw, literal);
      UnterminatedIsError(rest, next, from);
    }
  }

  lemma ReachedFrom(raw: string, at: nat) returns (rest: string, from: nat)
    requires Reaches(raw, at) && UnterminatedAt(raw, at) && !UnterminatedAt(raw, 0)
    ensures raw != "" && rest == raw[Skip(raw)..] && Reaches(rest, from) && UnterminatedAt(rest, from)
  {
    rest, from := raw[Skip(raw)..], at - Skip(raw);
    UnterminatedInSuffix(raw, Skip(raw), from);
  }

  /** A template is malformed exactly when the scan, skipping pairs and terminated placeholders, comes to an
    * opening that no `}` follows. */
  lemma ParseFailsIff(raw: string)
    ensures Parse(raw, "").None? <==> exists at: nat :: Reaches(raw, at) && UnterminatedAt(raw, at)
  {
    if Parse(raw, "").None? {
      var at := ErrorIsUnterminated(raw, "");
    } else if at: nat :| Reaches(raw, at) && UnterminatedAt(raw, at) {
      UnterminatedIsError(raw, "", at);
      assert false;
    }
  }

  /** The computed kind keeps its promises to the deserializer: a full placeholder is one, a literal is
    * one, and a templated leaf is neither. */
  lemma KindMeaning(raw: string)
    requires Parse(raw, "").Some?
    ensures var s := ConfigStr(Parse(raw, "").value, Classify(Parse(raw, "").value));
            && (s.kind == FullPlaceholder <==> s.AsFull().Some?)
            && (s.kind == LiteralKind <==> s.AsLiteral().Some?)
            && (s.AsFull().Some? ==> s.segments == [Hole(s.AsFull().value)])
            && (s.AsLiteral().Some? ==> s.segments == Flush(s.AsLiteral().value))
            && (s.kind == Templated <==> |s.segments| > 1)
  {
    ParseIsNormalFrom(raw, "");
  }

  /** No dollar stands before another or before an opening brace. */
  predicate LoneDollars(text: string) {
    forall i :: 0 <= i < |text| - 1 && text[i] == '$' ==> text[i + 1] != '$' && text[i + 1] != '{'
  }

  /** A text whose dollars all stand alone is one literal, itself. */
  lemma {:induction false} PlainText(text: string, literal: string)
    requires LoneDollars(text)
    ensures Parse(text, literal) == Some(Flush(literal + text))
  {
    if text == "" {
      assert literal + text == literal;
    } else {
      assert literal + [text[0]] + text[1..] == literal + text;
      assert forall i :: 0 <= i < |text| - 1 ==> text[1..][i] == text[i + 1];
      if text[0] == '$' {
        assert "$" == [text[0]];
      }
      PlainText(text[1..], literal + [text[0]]);
    }
  }
}

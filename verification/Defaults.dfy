/** Merging declared defaults under the values of a configuration tree. */
module Defaults {
  import opened Common
  import opened ConfigTree
  import opened TemplateParser

  datatype FieldDefault = FieldDefault(field: string, raw: string)

  datatype VariantDefault = VariantDefault(tag: string, fields: seq<FieldDefault>)

  datatype EnumTag = External | Internal(tag: string) | Adjacent(tag: string, content: string) | Untagged

  datatype DefaultVariant = DefaultVariant(tag: string, isUnit: bool)

  datatype DefaultSpec =
    | NoDefaults
    | Fields(fields: seq<FieldDefault>)
    | Variants(tagging: EnumTag, default: Option<DefaultVariant>, variants: seq<VariantDefault>)

  /** What `str::parse` recognises: an `i128`, else a `bool`, else an `f64`. */
  datatype Scalar = IntScalar(n: int) | BoolScalar(b: bool) | FloatScalar(bits: nat) {
    function Value(): ConfigValue {
      match this
      case IntScalar(n) => Int(n)
      case BoolScalar(b) => Bool(b)
      case FloatScalar(bits) => Float(bits)
    }
  }

  type ScalarParser = string -> Option<Scalar>

  /** The tree as a call leaves it, and the error it returns: an error does not undo earlier writes. */
  datatype Filled<T> = Filled(tree: T, error: Option<ParseError>)

  // ---------------------------------------------------------------- what each function computes

  function ParsedStr(raw: string): Result<ConfigStr, ParseError> {
    match Parse(raw, "")
    case Some(segments) => Ok(ConfigStr(segments, Classify(segments)))
    case None => Err(UnterminatedPlaceholder)
  }

  function DefaultValue(scalars: ScalarParser, raw: string, coerce: bool): Result<ConfigValue, ParseError> {
    match ParsedStr(raw)
    case Err(e) => Err(e)
    case Ok(s) =>
      var scalar := if coerce && s.AsLiteral().Some? then scalars(s.AsLiteral().value) else None;
      Ok(if scalar.Some? then scalar.value.Value() else Str(s))
  }

  function FillEntries(scalars: ScalarParser, entries: seq<Entry>, fields: seq<FieldDefault>,
                       coerce: bool): Filled<seq<Entry>>
    decreases |fields|
  {
    if fields == [] then Filled(entries, None)
    else if Find(entries, fields[0].field).Some? then FillEntries(scalars, entries, fields[1..], coerce)
    else match DefaultValue(scalars, fields[0].raw, coerce)
      case Err(e) => Filled(entries, Some(e))
      case Ok(v) => FillEntries(scalars, entries + [Entry(fields[0].field, v)], fields[1..], coerce)
  }

  function FillFields(scalars: ScalarParser, t: ConfigValue, fields: seq<FieldDefault>,
                      coerce: bool): Filled<ConfigValue> {
    if !t.Table? then Filled(t, None)
    else
      var r := FillEntries(scalars, t.entries, fields, coerce);
      Filled(Table(r.tree), r.error)
  }

  function VariantFields(variants: seq<VariantDefault>, tag: string): Option<seq<FieldDefault>> {
    if variants == [] then None
    else if variants[0].tag == tag then Some(variants[0].fields)
    else VariantFields(variants[1..], tag)
  }

  function FieldsOf(variants: seq<VariantDefault>, tag: string): seq<FieldDefault> {
    var fields := VariantFields(variants, tag);
    if fields.Some? then fields.value else []
  }

  /** The payloads of the tags present, left to right, stopping at the first error. */
  function FillPayloads(scalars: ScalarParser, entries: seq<Entry>, variants: seq<VariantDefault>): Filled<seq<Entry>> {
    if entries == [] then Filled([], None)
    else
      var e := entries[0];
      var head := FillFields(scalars, e.value, FieldsOf(variants, e.key), false);
      if head.error.Some? then Filled([Entry(e.key, head.tree)] + entries[1..], head.error)
      else
        var tail := FillPayloads(scalars, entries[1..], variants);
        Filled([Entry(e.key, head.tree)] + tail.tree, tail.error)
  }

  function FillExternal(scalars: ScalarParser, t: ConfigValue, default: Option<DefaultVariant>,
                        variants: seq<VariantDefault>): Filled<ConfigValue> {
    if !t.Table? then Filled(t, None)
    else if t.entries != [] then
      var r := FillPayloads(scalars, t.entries, variants);
      Filled(Table(r.tree), r.error)
    else if default.None? then Filled(t, None)
    else if default.value.isUnit then
      match ParsedStr(default.value.tag)
      case Err(e) => Filled(t, Some(e))
      case Ok(s) => Filled(Str(s), None)
    else
      var inner := FillFields(scalars, Table([]), FieldsOf(variants, default.value.tag), false);
      if inner.error.Some? then Filled(t, inner.error)
      else Filled(Table([Entry(default.value.tag, inner.tree)]), None)
  }

  /** The literal value of the tag entry: none when it is absent or is not a plain string. */
  function TagValue(entries: seq<Entry>, tagKey: string): Option<string> {
    match Find(entries, tagKey)
    case Some(Str(s)) => s.AsLiteral()
    case _ => None
  }

  function FillInternal(scalars: ScalarParser, entries: seq<Entry>, tagKey: string, default: Option<DefaultVariant>,
                        variants: seq<VariantDefault>): Filled<seq<Entry>> {
    var variant := TagValue(entries, tagKey);
    if variant.Some? then FillEntries(scalars, entries, FieldsOf(variants, variant.value), true)
    else if default.None? then Filled(entries, None)
    else match ParsedStr(default.value.tag)
      case Err(e) => Filled(entries, Some(e))
      case Ok(s) =>
        var tagged := entries + [Entry(tagKey, Str(s))];
        if default.value.isUnit then Filled(tagged, None)
        else FillEntries(scalars, tagged, FieldsOf(variants, default.value.tag), true)
  }

  function ReplaceFirst(entries: seq<Entry>, key: string, value: ConfigValue): seq<Entry> {
    if entries == [] then []
    else if entries[0].key == key then [Entry(key, value)] + entries[1..]
    else [entries[0]] + ReplaceFirst(entries[1..], key, value)
  }

  function WithContent(entries: seq<Entry>, contentKey: string): (r: seq<Entry>)
  {
    if Find(entries, contentKey).Some? then entries else entries + [Entry(contentKey, Table([]))]
  }

  lemma {:induction false} FindAppend(a: seq<Entry>, b: seq<Entry>, key: string)
    ensures Find(a + b, key) == if Find(a, key).Some? then Find(a, key) else Find(b, key)
  {
    if a == [] {
      assert a + b == b;
    } else {
      assert (a + b)[1..] == a[1..] + b;
      FindAppend(a[1..], b, key);
    }
  }

  function FillContent(scalars: ScalarParser, entries: seq<Entry>, contentKey: string,
                       fields: seq<FieldDefault>): Filled<seq<Entry>> {
    var es := WithContent(entries, contentKey);
    match Find(es, contentKey)
    case None => Filled(es, None)
    case Some(content) =>
      var r := FillFields(scalars, content, fields, true);
      Filled(ReplaceFirst(es, contentKey, r.tree), r.error)
  }

  function FillAdjacent(scalars: ScalarParser, entries: seq<Entry>, tagKey: string, contentKey: string,
                        default: Option<DefaultVariant>, variants: seq<VariantDefault>): Filled<seq<Entry>> {
    var variant := TagValue(entries, tagKey);
    if variant.Some? then
      var fields := VariantFields(variants, variant.value);
      if fields.Some? then FillContent(scalars, entries, contentKey, fields.value) else Filled(entries, None)
    else if default.None? then Filled(entries, None)
    else match ParsedStr(default.value.tag)
      case Err(e) => Filled(entries, Some(e))
      case Ok(s) =>
        var tagged := entries + [Entry(tagKey, Str(s))];
        if default.value.isUnit then Filled(tagged, None)
        else FillContent(scalars, tagged, contentKey, FieldsOf(variants, default.value.tag))
  }

  function InTable(r: Filled<seq<Entry>>): Filled<ConfigValue> { Filled(Table(r.tree), r.error) }

  function FillMissing(scalars: ScalarParser, t: ConfigValue, spec: DefaultSpec): Filled<ConfigValue> {
    match spec
    case NoDefaults => Filled(t, None)
    case Fields(fields) => FillFields(scalars, t, fields, false)
    case Variants(External, default, variants) => FillExternal(scalars, t, default, variants)
    case Variants(Internal(tag), default, variants) =>
      if t.Table? then InTable(FillInternal(scalars, t.entries, tag, default, variants)) else Filled(t, None)
    case Variants(Adjacent(tag, content), default, variants) =>
      if t.Table? then InTable(FillAdjacent(scalars, t.entries, tag, content, default, variants)) else Filled(t, None)
    case Variants(Untagged, _, _) => Filled(t, None)
  }

  // ---------------------------------------------------------------- nothing is lost

  /** Every path that reached a value other than a table still reaches that very value. */
  ghost predicate Keeps(a: ConfigValue, b: ConfigValue) {
    forall path: seq<string> :: Descend(a, path).Some? && !Descend(a, path).value.Table? ==>
      Descend(b, path) == Descend(a, path)
  }

  /** The entries that are found keep their places and lose nothing. */
  ghost predicate KeepsEntries(a: seq<Entry>, b: seq<Entry>) {
    forall key: string :: Find(a, key).Some? ==> Find(b, key).Some? && Keeps(Find(a, key).value, Find(b, key).value)
  }

  lemma KeepsTable(a: seq<Entry>, b: seq<Entry>)
    requires KeepsEntries(a, b)
    ensures Keeps(Table(a), Table(b))
  {
    forall path: seq<string> | Descend(Table(a), path).Some? && !Descend(Table(a), path).value.Table?
      ensures Descend(Table(b), path) == Descend(Table(a), path)
    {
      assert Keeps(Find(a, path[0]).value, Find(b, path[0]).value);
    }
  }

  lemma KeepsTransitive(a: seq<Entry>, b: seq<Entry>, c: seq<Entry>)
    requires KeepsEntries(a, b) && KeepsEntries(b, c)
    ensures KeepsEntries(a, c)
  {
    forall key: string | Find(a, key).Some?
      ensures Find(c, key).Some? && Keeps(Find(a, key).value, Find(c, key).value)
    {
      var x, y, z := Find(a, key).value, Find(b, key).value, Find(c, key).value;
      forall path: seq<string> | Descend(x, path).Some? && !Descend(x, path).value.Table?
        ensures Descend(z, path) == Descend(x, path)
      {
        assert Descend(y, path) == Descend(x, path);
      }
    }
  }

  lemma AppendKeeps(a: seq<Entry>, e: Entry)
    ensures KeepsEntries(a, a + [e])
  {
    forall key: string ensures Find(a, key).Some? ==> Find(a + [e], key) == Find(a, key) {
      FindAppend(a, [e], key);
    }
  }

  lemma {:induction false} FillEntriesKeeps(scalars: ScalarParser, entries: seq<Entry>, fields: seq<FieldDefault>,
                                            coerce: bool)
    ensures KeepsEntries(entries, FillEntries(scalars, entries, fields, coerce).tree)
    decreases |fields|
  {
    if fields != [] {
      if Find(entries, fields[0].field).Some? {
        FillEntriesKeeps(scalars, entries, fields[1..], coerce);
      } else if DefaultValue(scalars, fields[0].raw, coerce).Ok? {
        var e := Entry(fields[0].field, DefaultValue(scalars, fields[0].raw, coerce).value);
        AppendKeeps(entries, e);
        FillEntriesKeeps(scalars, entries + [e], fields[1..], coerce);
        KeepsTransitive(entries, entries + [e], FillEntries(scalars, entries + [e], fields[1..], coerce).tree);
      }
    }
  }

  lemma FillFieldsKeeps(scalars: ScalarParser, t: ConfigValue, fields: seq<FieldDefault>, coerce: bool)
    ensures Keeps(t, FillFields(scalars, t, fields, coerce).tree)
  {
    if t.Table? {
      FillEntriesKeeps(scalars, t.entries, fields, coerce);
      KeepsTable(t.entries, FillEntries(scalars, t.entries, fields, coerce).tree);
    }
  }

  lemma {:induction false} FillPayloadsKeeps(scalars: ScalarParser, entries: seq<Entry>, variants: seq<VariantDefault>)
    ensures KeepsEntries(entries, FillPayloads(scalars, entries, variants).tree)
  {
    if entries != [] {
      var e, r := entries[0], FillPayloads(scalars, entries, variants).tree;
      FillFieldsKeeps(scalars, e.value, FieldsOf(variants, e.key), false);
      FillPayloadsKeeps(scalars, entries[1..], variants);
      assert r[1..] == entries[1..] || r[1..] == FillPayloads(scalars, entries[1..], variants).tree;
    }
  }

  lemma {:induction false} ReplaceKeeps(entries: seq<Entry>, key: string, value: ConfigValue)
    requires Find(entries, key).Some? && Keeps(Find(entries, key).value, value)
    ensures KeepsEntries(entries, ReplaceFirst(entries, key, value))
  {
    var r := ReplaceFirst(entries, key, value);
    if entries[0].key == key {
      assert r[1..] == entries[1..];
    } else {
      ReplaceKeeps(entries[1..], key, value);
      assert r[1..] == ReplaceFirst(entries[1..], key, value);
    }
  }

  lemma FillContentKeeps(scalars: ScalarParser, entries: seq<Entry>, contentKey: string, fields: seq<FieldDefault>)
    ensures KeepsEntries(entries, FillContent(scalars, entries, contentKey, fields).tree)
  {
    var es := WithContent(entries, contentKey);
    var fresh' := Entry(contentKey, Table([]));
    AppendKeeps(entries, fresh');
    FindAppend(entries, [fresh'], contentKey);
    assert KeepsEntries(entries, es);
    FillFieldsKeeps(scalars, Find(es, contentKey).value, fields, true);
    ReplaceKeeps(es, contentKey, FillFields(scalars, Find(es, contentKey).value, fields, true).tree);
    KeepsTransitive(entries, es, FillContent(scalars, entries, contentKey, fields).tree);
  }

  lemma FillInternalKeeps(scalars: ScalarParser, entries: seq<Entry>, tagKey: string, default: Option<DefaultVariant>,
                          variants: seq<VariantDefault>)
    ensures KeepsEntries(entries, FillInternal(scalars, entries, tagKey, default, variants).tree)
  {
    var variant := TagValue(entries, tagKey);
    if variant.Some? {
      FillEntriesKeeps(scalars, entries, FieldsOf(variants, variant.value), true);
    } else if default.Some? && ParsedStr(default.value.tag).Ok? {
      var tagged := entries + [Entry(tagKey, Str(ParsedStr(default.value.tag).value))];
      AppendKeeps(entries, Entry(tagKey, Str(ParsedStr(default.value.tag).value)));
      FillEntriesKeeps(scalars, tagged, FieldsOf(variants, default.value.tag), true);
      KeepsTransitive(entries, tagged, FillEntries(scalars, tagged, FieldsOf(variants, default.value.tag), true).tree);
    }
  }

  lemma FillAdjacentKeeps(scalars: ScalarParser, entries: seq<Entry>, tagKey: string, contentKey: string,
                          default: Option<DefaultVariant>, variants: seq<VariantDefault>)
    ensures KeepsEntries(entries, FillAdjacent(scalars, entries, tagKey, contentKey, default, variants).tree)
  {
    var variant := TagValue(entries, tagKey);
    if variant.Some? {
      FillContentKeeps(scalars, entries, contentKey, FieldsOf(variants, variant.value));
    } else if default.Some? && ParsedStr(default.value.tag).Ok? {
      var tagged := entries + [Entry(tagKey, Str(ParsedStr(default.value.tag).value))];
      AppendKeeps(entries, Entry(tagKey, Str(ParsedStr(default.value.tag).value)));
      FillContentKeeps(scalars, tagged, contentKey, FieldsOf(variants, default.value.tag));
      KeepsTransitive(entries, tagged,
                      FillContent(scalars, tagged, contentKey, FieldsOf(variants, default.value.tag)).tree);
    }
  }

  /** Filling never overwrites: in every tagging shape, on success and on error alike. */
  lemma FillKeepsValues(scalars: ScalarParser, t: ConfigValue, spec: DefaultSpec)
    ensures Keeps(t, FillMissing(scalars, t, spec).tree)
  {
    match spec
    case Fields(fields) => FillFieldsKeeps(scalars, t, fields, false);
    case Variants(External, default, variants) =>
      if t.Table? {
        FillPayloadsKeeps(scalars, t.entries, variants);
        KeepsTable(t.entries, FillPayloads(scalars, t.entries, variants).tree);
        if t.entries == [] {
          assert forall path: seq<string> :: path != [] ==> Descend(t, path).None?;
        }
      }
    case Variants(Internal(tag), default, variants) =>
      if t.Table? {
        FillInternalKeeps(scalars, t.entries, tag, default, variants);
        KeepsTable(t.entries, FillInternal(scalars, t.entries, tag, default, variants).tree);
      }
    case Variants(Adjacent(tag, content), default, variants) =>
      if t.Table? {
        FillAdjacentKeeps(scalars, t.entries, tag, content, default, variants);
        KeepsTable(t.entries, FillAdjacent(scalars, t.entries, tag, content, default, variants).tree);
      }
    case _ =>
  }

  // ---------------------------------------------------------------- what a fill adds

  /** The first default declared for a field. */
  function FirstDefault(fields: seq<FieldDefault>, field: string): Option<string> {
    if fields == [] then None
    else if fields[0].field == field then Some(fields[0].raw)
    else FirstDefault(fields[1..], field)
  }

  /** What a fill without errors adds: a field that was there keeps its value, one that was not gets its
    * first declared default, and nothing else appears. */
  lemma {:induction false} FillEntriesMeaning(scalars: ScalarParser, entries: seq<Entry>, fields: seq<FieldDefault>,
                                              coerce: bool, field: string)
    requires FillEntries(scalars, entries, fields, coerce).error.None?
    ensures var r, raw := FillEntries(scalars, entries, fields, coerce).tree, FirstDefault(fields, field);
            if Find(entries, field).Some? then Find(r, field) == Find(entries, field)
            else if raw.None? then Find(r, field) == None
            else Find(r, field).Some? && DefaultValue(scalars, raw.value, coerce) == Ok(Find(r, field).value)
    decreases |fields|
  {
    if fields != [] {
      var first := fields[0];
      if Find(entries, first.field).Some? {
        FillEntriesMeaning(scalars, entries, fields[1..], coerce, field);
      } else {
        var e := Entry(first.field, DefaultValue(scalars, first.raw, coerce).value);
        FindAppend(entries, [e], field);
        FillEntriesMeaning(scalars, entries + [e], fields[1..], coerce, field);
      }
    }
  }

  /** And it fails exactly at the first absent field whose default is malformed, with the fields before it
    * filled. */
  lemma {:induction false} FillEntriesFails(scalars: ScalarParser, entries: seq<Entry>, fields: seq<FieldDefault>,
                                            coerce: bool) returns (i: nat)
    requires FillEntries(scalars, entries, fields, coerce).error.Some?
    ensures i < |fields| && FillEntries(scalars, entries, fields[..i], coerce).error.None?
    ensures FillEntries(scalars, entries, fields[..i], coerce).tree
              == FillEntries(scalars, entries, fields, coerce).tree
    ensures Find(FillEntries(scalars, entries, fields[..i], coerce).tree, fields[i].field).None?
    ensures DefaultValue(scalars, fields[i].raw, coerce) ==
              Err(FillEntries(scalars, entries, fields, coerce).error.value)
    decreases |fields|
  {
    var first := fields[0];
    if Find(entries, first.field).Some? {
      i := FillEntriesFails(scalars, entries, fields[1..], coerce);
      i := i + 1;
      assert fields[..i][1..] == fields[1..][..i - 1];
    } else if DefaultValue(scalars, first.raw, coerce).Err? {
      i := 0;
    } else {
      var e := Entry(first.field, DefaultValue(scalars, first.raw, coerce).value);
      i := FillEntriesFails(scalars, entries + [e], fields[1..], coerce);
      i := i + 1;
      assert fields[..i][1..] == fields[1..][..i - 1];
    }
  }

  lemma {:induction false} ReplaceFirstMeaning(entries: seq<Entry>, key: string, value: ConfigValue, other: string)
    ensures |ReplaceFirst(entries, key, value)| == |entries|
    ensures Find(entries, key).Some? ==> Find(ReplaceFirst(entries, key, value), key) == Some(value)
    ensures other != key ==> Find(ReplaceFirst(entries, key, value), other) == Find(entries, other)
    ensures Find(entries, key) == Some(value) ==> ReplaceFirst(entries, key, value) == entries
  {
    if entries != [] && entries[0].key != key {
      ReplaceFirstMeaning(entries[1..], key, value, other);
      assert ReplaceFirst(entries, key, value)[1..] == ReplaceFirst(entries[1..], key, value);
    } else if entries != [] {
      assert ReplaceFirst(entries, key, value)[1..] == entries[1..];
    }
  }

  lemma FillContentFinds(scalars: ScalarParser, entries: seq<Entry>, contentKey: string, fields: seq<FieldDefault>)
    ensures var content := Find(entries, contentKey);
            Find(FillContent(scalars, entries, contentKey, fields).tree, contentKey) ==
              Some(FillFields(scalars, if content.Some? then content.value else Table([]), fields, true).tree)
    ensures var content := Find(entries, contentKey);
            FillContent(scalars, entries, contentKey, fields).error ==
              FillFields(scalars, if content.Some? then content.value else Table([]), fields, true).error
  {
    var es := WithContent(entries, contentKey);
    FindAppend(entries, [Entry(contentKey, Table([]))], contentKey);
    var content := Find(es, contentKey).value;
    ReplaceFirstMeaning(es, contentKey, FillFields(scalars, content, fields, true).tree, contentKey);
  }

  /** A field that was there has its old value, one that was not has its first declared default, and a field
    * without a default is not there. */
  ghost predicate HasField(scalars: ScalarParser, before: seq<Entry>, after: seq<Entry>, fields: seq<FieldDefault>,
                           coerce: bool, field: string)
  {
    if Find(before, field).Some? then Find(after, field) == Find(before, field)
    else match FirstDefault(fields, field)
      case None => Find(after, field) == None
      case Some(raw) => Find(after, field).Some? && DefaultValue(scalars, raw, coerce) == Ok(Find(after, field).value)
  }

  ghost predicate HasFields(scalars: ScalarParser, before: seq<Entry>, after: seq<Entry>, fields: seq<FieldDefault>,
                            coerce: bool)
  {
    forall field: string :: HasField(scalars, before, after, fields, coerce, field)
  }

  /** The same of a table; anything else is left alone. */
  ghost predicate TableHas(scalars: ScalarParser, before: ConfigValue, after: ConfigValue, fields: seq<FieldDefault>,
                           coerce: bool)
  {
    if before.Table? then after.Table? && HasFields(scalars, before.entries, after.entries, fields, coerce)
    else after == before
  }

  /** `fields` are those of the first variant declared with `tag`. */
  ghost predicate DeclaredAs(variants: seq<VariantDefault>, tag: string, fields: seq<FieldDefault>) {
    exists i :: 0 <= i < |variants| && variants[i] == VariantDefault(tag, fields) && FirstTagged(variants, tag, i)
  }

  ghost predicate FirstTagged(variants: seq<VariantDefault>, tag: string, i: nat) {
    forall j :: 0 <= j < i && j < |variants| ==> variants[j].tag != tag
  }

  ghost predicate Undeclared(variants: seq<VariantDefault>, tag: string) {
    forall j :: 0 <= j < |variants| ==> variants[j].tag != tag
  }

  /** The fields to fill for `tag`; none for a variant without declared defaults. */
  ghost predicate FieldsFor(variants: seq<VariantDefault>, tag: string, fields: seq<FieldDefault>) {
    DeclaredAs(variants, tag, fields) || (Undeclared(variants, tag) && fields == [])
  }

  /** The tag entry is a plain string, `tag`. */
  ghost predicate ReadsTag(entries: seq<Entry>, tagKey: string, tag: string) {
    exists s: ConfigStr ::
      && Find(entries, tagKey) == Some(Str(s)) && s.kind == LiteralKind
      && (s.segments == [Segment.Literal(tag)] || (s.segments == [] && tag == ""))
  }

  ghost predicate NoTag(entries: seq<Entry>, tagKey: string) {
    forall tag: string :: !ReadsTag(entries, tagKey, tag)
  }

  /** The tag of the default variant, written after what was there. */
  ghost predicate TagWritten(scalars: ScalarParser, before: seq<Entry>, tagKey: string, tag: string,
                             tagged: seq<Entry>) {
    exists text: ConfigValue ::
      DefaultValue(scalars, tag, false) == Ok(text) && tagged == before + [Entry(tagKey, text)]
  }

  /** The content table holds its variant's fields, made for them if there was none; all else is as before. */
  ghost predicate ContentHas(scalars: ScalarParser, before: seq<Entry>, after: seq<Entry>, contentKey: string,
                             fields: seq<FieldDefault>)
  {
    && (forall key: string :: key != contentKey ==> Find(after, key) == Find(before, key))
    && Find(after, contentKey).Some?
    && TableHas(scalars, if Find(before, contentKey).Some? then Find(before, contentKey).value else Table([]),
                Find(after, contentKey).value, fields, true)
  }

  /** What the defaults of `spec` make of a tree, shape by shape. */
  ghost predicate Applied(scalars: ScalarParser, before: ConfigValue, spec: DefaultSpec, after: ConfigValue) {
    match spec
    case NoDefaults => after == before
    case Fields(fields) => TableHas(scalars, before, after, fields, false)
    case Variants(tagging, default, variants) =>
      if !before.Table? || tagging.Untagged? then after == before
      else match tagging
        case External => AppliedExternally(scalars, before.entries, default, variants, after)
        case Internal(tagKey) =>
          after.Table? && AppliedInternally(scalars, before.entries, tagKey, default, variants, after.entries)
        case Adjacent(tagKey, contentKey) =>
          after.Table? && AppliedAdjacently(scalars, before.entries, tagKey, contentKey, default, variants,
                                            after.entries)
        case Untagged => true
  }

  /** The payload of each tag present gets its variant's fields. An empty table becomes the bare tag of a unit
    * default variant, or the one entry of another. */
  ghost predicate AppliedExternally(scalars: ScalarParser, before: seq<Entry>, default: Option<DefaultVariant>,
                                    variants: seq<VariantDefault>, after: ConfigValue)
  {
    if before != [] then after.Table? && PayloadsHave(scalars, before, variants, after.entries)
    else match default
      case None => after == Table([])
      case Some(variant) =>
        if variant.isUnit then DefaultValue(scalars, variant.tag, false) == Ok(after)
        else exists fields, made ::
          && FieldsFor(variants, variant.tag, fields) && HasFields(scalars, [], made, fields, false)
          && after == Table([Entry(variant.tag, Table(made))])
  }

  ghost predicate PayloadsHave(scalars: ScalarParser, before: seq<Entry>, variants: seq<VariantDefault>,
                               after: seq<Entry>) {
    && |after| == |before|
    && forall i :: 0 <= i < |before| ==> PayloadHas(scalars, before[i], variants, after[i])
  }

  ghost predicate PayloadHas(scalars: ScalarParser, before: Entry, variants: seq<VariantDefault>, after: Entry) {
    && after.key == before.key
    && exists fields ::
         FieldsFor(variants, before.key, fields) && TableHas(scalars, before.value, after.value, fields, false)
  }

  /** The fields of the variant that the tag names are there, coerced. Without a tag, that of the default
    * variant is written, with its fields unless it is a unit. */
  ghost predicate AppliedInternally(scalars: ScalarParser, before: seq<Entry>, tagKey: string,
                                    default: Option<DefaultVariant>, variants: seq<VariantDefault>, after: seq<Entry>)
  {
    && (forall tag: string | ReadsTag(before, tagKey, tag) ::
          exists fields :: FieldsFor(variants, tag, fields) && HasFields(scalars, before, after, fields, true))
    && (NoTag(before, tagKey) ==>
          match default
          case None => after == before
          case Some(variant) =>
            exists tagged, fields ::
              && TagWritten(scalars, before, tagKey, variant.tag, tagged)
              && (if variant.isUnit then fields == [] else FieldsFor(variants, variant.tag, fields))
              && HasFields(scalars, tagged, after, fields, true))
  }

  /** The same under the content key; a variant without declared defaults gets no content table, unless it is
    * the default. */
  ghost predicate AppliedAdjacently(scalars: ScalarParser, before: seq<Entry>, tagKey: string, contentKey: string,
                                    default: Option<DefaultVariant>, variants: seq<VariantDefault>, after: seq<Entry>)
  {
    && (forall tag: string | ReadsTag(before, tagKey, tag) ::
          if Undeclared(variants, tag) then after == before
          else exists fields ::
            DeclaredAs(variants, tag, fields) && ContentHas(scalars, before, after, contentKey, fields))
    && (NoTag(before, tagKey) ==>
          match default
          case None => after == before
          case Some(variant) =>
            if variant.isUnit then TagWritten(scalars, before, tagKey, variant.tag, after)
            else exists tagged, fields ::
              && TagWritten(scalars, before, tagKey, variant.tag, tagged)
              && FieldsFor(variants, variant.tag, fields) && ContentHas(scalars, tagged, after, contentKey, fields))
  }

  /** What a default's text becomes: a template stays one; a literal is a string, or the scalar it reads as
    * where scalars are wanted. */
  lemma DefaultValueMeaning(scalars: ScalarParser, raw: string, coerce: bool, text: string)
    ensures Parse(raw, "") == None ==> DefaultValue(scalars, raw, coerce) == Err(UnterminatedPlaceholder)
    ensures Parse(raw, "") == Some(Flush(text)) && (!coerce || scalars(text) == None) ==>
              DefaultValue(scalars, raw, coerce) == Ok(Str(ConfigStr(Flush(text), LiteralKind)))
    ensures Parse(raw, "") == Some(Flush(text)) && coerce ==>
              match scalars(text)
              case Some(IntScalar(n)) => DefaultValue(scalars, raw, coerce) == Ok(Int(n))
              case Some(BoolScalar(b)) => DefaultValue(scalars, raw, coerce) == Ok(Bool(b))
              case Some(FloatScalar(bits)) => DefaultValue(scalars, raw, coerce) == Ok(Float(bits))
              case None => true
    ensures Parse(raw, "").Some? && (exists i :: 0 <= i < |Parse(raw, "").value| && Parse(raw, "").value[i].Hole?) ==>
              DefaultValue(scalars, raw, coerce) ==
                Ok(Str(ConfigStr(Parse(raw, "").value, if |Parse(raw, "").value| == 1
                  then FullPlaceholder else Templated)))
  {
  }

  lemma {:induction false} VariantFieldsMeaning(variants: seq<VariantDefault>, tag: string)
    ensures VariantFields(variants, tag).None? <==> Undeclared(variants, tag)
    ensures VariantFields(variants, tag).Some? ==> DeclaredAs(variants, tag, VariantFields(variants, tag).value)
  {
    if variants != [] {
      var rest := variants[1..];
      VariantFieldsMeaning(rest, tag);
      assert forall j :: 0 < j < |variants| ==> variants[j] == rest[j - 1];
      assert forall j :: 0 <= j < |rest| ==> rest[j] == variants[j + 1];
      if variants[0].tag == tag {
        assert variants[0] == VariantDefault(tag, variants[0].fields) && FirstTagged(variants, tag, 0);
      } else if VariantFields(rest, tag).Some? {
        var fields := VariantFields(rest, tag).value;
        var i :| 0 <= i < |rest| && rest[i] == VariantDefault(tag, fields) && FirstTagged(rest, tag, i);
        assert variants[i + 1] == VariantDefault(tag, fields) && FirstTagged(variants, tag, i + 1);
      }
    }
  }

  lemma FieldsOfMeaning(variants: seq<VariantDefault>, tag: string)
    ensures FieldsFor(variants, tag, FieldsOf(variants, tag))
  {
    VariantFieldsMeaning(variants, tag);
  }

  lemma TagValueMeaning(entries: seq<Entry>, tagKey: string)
    ensures forall tag: string :: ReadsTag(entries, tagKey, tag) <==> TagValue(entries, tagKey) == Some(tag)
    ensures NoTag(entries, tagKey) <==> TagValue(entries, tagKey).None?
  {
    forall tag: string ensures ReadsTag(entries, tagKey, tag) <==> TagValue(entries, tagKey) == Some(tag) {
      TagReads(entries, tagKey, tag);
    }
    if TagValue(entries, tagKey).Some? {
      assert ReadsTag(entries, tagKey, TagValue(entries, tagKey).value);
    }
  }

  lemma TagReads(entries: seq<Entry>, tagKey: string, tag: string)
    ensures ReadsTag(entries, tagKey, tag) <==> TagValue(entries, tagKey) == Some(tag)
  {
    if TagValue(entries, tagKey) == Some(tag) {
      var s := Find(entries, tagKey).value.s;
      assert Find(entries, tagKey) == Some(Str(s));
    }
  }

  lemma EntriesApply(scalars: ScalarParser, entries: seq<Entry>, fields: seq<FieldDefault>, coerce: bool)
    requires FillEntries(scalars, entries, fields, coerce).error.None?
    ensures HasFields(scalars, entries, FillEntries(scalars, entries, fields, coerce).tree, fields, coerce)
  {
    forall field: string
      ensures HasField(scalars, entries, FillEntries(scalars, entries, fields, coerce).tree, fields, coerce, field)
    {
      FillEntriesMeaning(scalars, entries, fields, coerce, field);
    }
  }

  lemma FieldsApply(scalars: ScalarParser, t: ConfigValue, fields: seq<FieldDefault>, coerce: bool)
    requires FillFields(scalars, t, fields, coerce).error.None?
    ensures TableHas(scalars, t, FillFields(scalars, t, fields, coerce).tree, fields, coerce)
  {
    if t.Table? {
      EntriesApply(scalars, t.entries, fields, coerce);
    }
  }

  lemma {:induction false} PayloadsApply(scalars: ScalarParser, entries: seq<Entry>, variants: seq<VariantDefault>)
    requires FillPayloads(scalars, entries, variants).error.None?
    ensures PayloadsHave(scalars, entries, variants, FillPayloads(scalars, entries, variants).tree)
  {
    if entries != [] {
      var e, after := entries[0], FillPayloads(scalars, entries, variants).tree;
      FieldsOfMeaning(variants, e.key);
      FieldsApply(scalars, e.value, FieldsOf(variants, e.key), false);
      PayloadsApply(scalars, entries[1..], variants);
      assert PayloadHas(scalars, entries[0], variants, after[0]);
      assert after[1..] == FillPayloads(scalars, entries[1..], variants).tree;
      forall i | 0 < i < |entries| ensures PayloadHas(scalars, entries[i], variants, after[i]) {
        assert entries[i] == entries[1..][i - 1] && after[i] == after[1..][i - 1];
      }
    }
  }

  lemma ExternalApplies(scalars: ScalarParser, entries: seq<Entry>, default: Option<DefaultVariant>,
                        variants: seq<VariantDefault>)
    requires FillExternal(scalars, Table(entries), default, variants).error.None?
    ensures AppliedExternally(scalars, entries, default, variants,
                              FillExternal(scalars, Table(entries), default, variants).tree)
  {
    if entries != [] {
      PayloadsApply(scalars, entries, variants);
    } else if default.Some? && !default.value.isUnit {
      var tag := default.value.tag;
      FieldsOfMeaning(variants, tag);
      FieldsApply(scalars, Table([]), FieldsOf(variants, tag), false);
    }
  }

  /** The tag as it is written. */
  lemma TagIsWritten(scalars: ScalarParser, entries: seq<Entry>, tagKey: string, tag: string)
    requires ParsedStr(tag).Ok?
    ensures TagWritten(scalars, entries, tagKey, tag, entries + [Entry(tagKey, Str(ParsedStr(tag).value))])
  {
    assert DefaultValue(scalars, tag, false) == Ok(Str(ParsedStr(tag).value));
  }

  lemma InternalApplies(scalars: ScalarParser, entries: seq<Entry>, tagKey: string, default: Option<DefaultVariant>,
                        variants: seq<VariantDefault>)
    requires FillInternal(scalars, entries, tagKey, default, variants).error.None?
    ensures AppliedInternally(scalars, entries, tagKey, default, variants,
                              FillInternal(scalars, entries, tagKey, default, variants).tree)
  {
    TagValueMeaning(entries, tagKey);
    var variant := TagValue(entries, tagKey);
    if variant.Some? {
      FieldsOfMeaning(variants, variant.value);
      EntriesApply(scalars, entries, FieldsOf(variants, variant.value), true);
    } else if default.Some? {
      var tagged := entries + [Entry(tagKey, Str(ParsedStr(default.value.tag).value))];
      var fields := if default.value.isUnit then [] else FieldsOf(variants, default.value.tag);
      TagIsWritten(scalars, entries, tagKey, default.value.tag);
      FieldsOfMeaning(variants, default.value.tag);
      EntriesApply(scalars, tagged, fields, true);
    }
  }

  lemma ContentApplies(scalars: ScalarParser, entries: seq<Entry>, contentKey: string, fields: seq<FieldDefault>)
    requires FillContent(scalars, entries, contentKey, fields).error.None?
    ensures ContentHas(scalars, entries, FillContent(scalars, entries, contentKey, fields).tree, contentKey, fields)
  {
    var content := Find(entries, contentKey);
    FillContentFinds(scalars, entries, contentKey, fields);
    FieldsApply(scalars, if content.Some? then content.value else Table([]), fields, true);
    forall key: string | key != contentKey
      ensures Find(FillContent(scalars, entries, contentKey, fields).tree, key) == Find(entries, key)
    {
      FillContentElsewhere(scalars, entries, contentKey, fields, key);
    }
  }

  lemma FillContentElsewhere(scalars: ScalarParser, entries: seq<Entry>, contentKey: string, fields: seq<FieldDefault>,
                             key: string)
    requires key != contentKey
    ensures Find(FillContent(scalars, entries, contentKey, fields).tree, key) == Find(entries, key)
  {
    var es := WithContent(entries, contentKey);
    FindAppend(entries, [Entry(contentKey, Table([]))], contentKey);
    FindAppend(entries, [Entry(contentKey, Table([]))], key);
    ReplaceFirstMeaning(es, contentKey, FillFields(scalars, Find(es, contentKey).value, fields, true).tree, key);
  }

  lemma AdjacentApplies(scalars: ScalarParser, entries: seq<Entry>, tagKey: string, contentKey: string,
                        default: Option<DefaultVariant>, variants: seq<VariantDefault>)
    requires FillAdjacent(scalars, entries, tagKey, contentKey, default, variants).error.None?
    ensures AppliedAdjacently(scalars, entries, tagKey, contentKey, default, variants,
                              FillAdjacent(scalars, entries, tagKey, contentKey, default, variants).tree)
  {
    TagValueMeaning(entries, tagKey);
    var variant := TagValue(entries, tagKey);
    if variant.Some? {
      VariantFieldsMeaning(variants, variant.value);
      if VariantFields(variants, variant.value).Some? {
        ContentApplies(scalars, entries, contentKey, VariantFields(variants, variant.value).value);
      }
    } else if default.Some? {
      var tagged := entries + [Entry(tagKey, Str(ParsedStr(default.value.tag).value))];
      TagIsWritten(scalars, entries, tagKey, default.value.tag);
      if !default.value.isUnit {
        FieldsOfMeaning(variants, default.value.tag);
        ContentApplies(scalars, tagged, contentKey, FieldsOf(variants, default.value.tag));
      }
    }
  }

  /** A fill without an error does all that its defaults ask for, and nothing else. */
  lemma FillApplies(scalars: ScalarParser, t: ConfigValue, spec: DefaultSpec)
    requires FillMissing(scalars, t, spec).error.None?
    ensures Applied(scalars, t, spec, FillMissing(scalars, t, spec).tree)
  {
    match spec
    case Fields(fields) => FieldsApply(scalars, t, fields, false);
    case Variants(External, default, variants) =>
      if t.Table? {
        ExternalApplies(scalars, t.entries, default, variants);
      }
    case Variants(Internal(tagKey), default, variants) =>
      if t.Table? {
        InternalApplies(scalars, t.entries, tagKey, default, variants);
      }
    case Variants(Adjacent(tagKey, contentKey), default, variants) =>
      if t.Table? {
        AdjacentApplies(scalars, t.entries, tagKey, contentKey, default, variants);
      }
    case _ =>
  }

  // ---------------------------------------------------------------- in place

  /** `fill_entries`: the loop over the declared fields. */
  method FillEntriesLoop(scalars: ScalarParser, entries: seq<Entry>, fields: seq<FieldDefault>, coerce: bool)
    returns (filled: seq<Entry>, error: Option<ParseError>)
    ensures Filled(filled, error) == FillEntries(scalars, entries, fields, coerce)
  {
    filled := entries;
    assert fields[0..] == fields;
    for i := 0 to |fields|
      invariant FillEntries(scalars, filled, fields[i..], coerce) == FillEntries(scalars, entries, fields, coerce)
    {
      assert fields[i..][1..] == fields[i + 1..];
      var present := exists k :: 0 <= k < |filled| && filled[k].key == fields[i].field;
      if !present {
        var value := DefaultValue(scalars, fields[i].raw, coerce);
        if value.Err? {
          return filled, Some(value.error);
        }
        filled := filled + [Entry(fields[i].field, value.value)];
      }
    }
    error := None;
  }

  /** The loop of `fill_external` over the tags present. */
  method FillPayloadsLoop(scalars: ScalarParser, entries: seq<Entry>, variants: seq<VariantDefault>)
    returns (filled: seq<Entry>, error: Option<ParseError>)
    ensures Filled(filled, error) == FillPayloads(scalars, entries, variants)
  {
    filled := [];
    var rest := entries;
    assert [] + FillPayloads(scalars, entries, variants).tree == FillPayloads(scalars, entries, variants).tree;
    while rest != []
      invariant filled + FillPayloads(scalars, rest, variants).tree == FillPayloads(scalars, entries, variants).tree
      invariant FillPayloads(scalars, rest, variants).error == FillPayloads(scalars, entries, variants).error
      decreases |rest|
    {
      var e := rest[0];
      var payload := new Subtree(e.value);
      error := payload.FillTable(scalars, FieldsOf(variants, e.key), false);
      if error.Some? {
        assert filled + ([Entry(e.key, payload.value)] + rest[1..])
               == filled + [Entry(e.key, payload.value)] + rest[1..];
        filled := filled + [Entry(e.key, payload.value)] + rest[1..];
        return;
      }
      ghost var tail := FillPayloads(scalars, rest[1..], variants).tree;
      assert filled + ([Entry(e.key, payload.value)] + tail) == filled + [Entry(e.key, payload.value)] + tail;
      filled := filled + [Entry(e.key, payload.value)];
      rest := rest[1..];
    }
    assert filled + [] == filled;
    error := None;
  }

  /** The subtree a caller hands over for in-place filling. */
  class Subtree {
    var value: ConfigValue

    constructor (value: ConfigValue)
      ensures this.value == value
    {
      this.value := value;
    }

    method FillTable(scalars: ScalarParser, fields: seq<FieldDefault>, coerce: bool) returns (error: Option<ParseError>)
      modifies this
      ensures Filled(value, error) == FillFields(scalars, old(value), fields, coerce)
    {
      if !value.Table? {
        return None;
      }
      var filled;
      filled, error := FillEntriesLoop(scalars, value.entries, fields, coerce);
      value := Table(filled);
    }

    method FillExternally(scalars: ScalarParser, default: Option<DefaultVariant>, variants: seq<VariantDefault>)
      returns (error: Option<ParseError>)
      modifies this
      ensures Filled(value, error) == FillExternal(scalars, old(value), default, variants)
    {
      if !value.Table? {
        return None;
      }
      if value.entries != [] {
        var filled;
        filled, error := FillPayloadsLoop(scalars, value.entries, variants);
        value := Table(filled);
        return;
      }
      if default.None? {
        return None;
      }
      if default.value.isUnit {
        var parsed := ParsedStr(default.value.tag);
        if parsed.Err? {
          return Some(parsed.error);
        }
        value := Str(parsed.value);
        return None;
      }
      var inner := new Subtree(Table([]));
      error := inner.FillTable(scalars, FieldsOf(variants, default.value.tag), false);
      if error.None? {
        value := Table([Entry(default.value.tag, inner.value)]);
      }
    }

    method FillInternally(scalars: ScalarParser, tagKey: string, default: Option<DefaultVariant>,
                          variants: seq<VariantDefault>)
      returns (error: Option<ParseError>)
      requires value.Table?
      modifies this
      ensures Filled(value, error) == InTable(FillInternal(scalars, old(value).entries, tagKey, default, variants))
    {
      var variant := TagValue(value.entries, tagKey);
      if variant.Some? {
        error := FillTable(scalars, FieldsOf(variants, variant.value), true);
        return;
      }
      if default.None? {
        return None;
      }
      var parsed := ParsedStr(default.value.tag);
      if parsed.Err? {
        return Some(parsed.error);
      }
      value := Table(value.entries + [Entry(tagKey, Str(parsed.value))]);
      error := None;
      if !default.value.isUnit {
        error := FillTable(scalars, FieldsOf(variants, default.value.tag), true);
      }
    }

    /** Fills the content sub-table, creating it if absent. */
    method FillContentTable(scalars: ScalarParser, contentKey: string, fields: seq<FieldDefault>)
      returns (error: Option<ParseError>)
      requires value.Table?
      modifies this
      ensures Filled(value, error) == InTable(FillContent(scalars, old(value).entries, contentKey, fields))
    {
      FindAppend(value.entries, [Entry(contentKey, Table([]))], contentKey);
      var es := value.entries;
      if Find(es, contentKey).None? {
        es := es + [Entry(contentKey, Table([]))];
      }
      var content := new Subtree(Find(es, contentKey).value);
      error := content.FillTable(scalars, fields, true);
      value := Table(ReplaceFirst(es, contentKey, content.value));
    }

    method FillAdjacently(scalars: ScalarParser, tagKey: string, contentKey: string, default: Option<DefaultVariant>,
                          variants: seq<VariantDefault>)
      returns (error: Option<ParseError>)
      requires value.Table?
      modifies this
      ensures Filled(value, error)
                == InTable(FillAdjacent(scalars, old(value).entries, tagKey, contentKey, default, variants))
    {
      var variant := TagValue(value.entries, tagKey);
      if variant.Some? {
        var fields := VariantFields(variants, variant.value);
        error := None;
        if fields.Some? {
          error := FillContentTable(scalars, contentKey, fields.value);
        }
        return;
      }
      if default.None? {
        return None;
      }
      var parsed := ParsedStr(default.value.tag);
      if parsed.Err? {
        return Some(parsed.error);
      }
      value := Table(value.entries + [Entry(tagKey, Str(parsed.value))]);
      error := None;
      if !default.value.isUnit {
        error := FillContentTable(scalars, contentKey, FieldsOf(variants, default.value.tag));
      }
    }

    /** `DefaultSpec::fill_missing`. */
    method FillDefaults(scalars: ScalarParser, spec: DefaultSpec) returns (error: Option<ParseError>)
      modifies this
      ensures Filled(value, error) == FillMissing(scalars, old(value), spec)
      ensures Keeps(old(value), value)
      ensures error.None? ==> Applied(scalars, old(value), spec, value)
    {
      FillKeepsValues(scalars, value, spec);
      if FillMissing(scalars, value, spec).error.None? {
        FillApplies(scalars, value, spec);
      }
      error := None;
      match spec {
        case NoDefaults =>
        case Fields(fields) => error := FillTable(scalars, fields, false);
        case Variants(External, default, variants) => error := FillExternally(scalars, default, variants);
        case Variants(Internal(tag), default, variants) =>
          if value.Table? {
            error := FillInternally(scalars, tag, default, variants);
          }
        case Variants(Adjacent(tag, content), default, variants) =>
          if value.Table? {
            error := FillAdjacently(scalars, tag, content, default, variants);
          }
        case Variants(Untagged, _, _) =>
      }
    }
  }
}

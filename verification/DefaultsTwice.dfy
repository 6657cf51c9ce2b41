/** Filling defaults twice: exactly when the second fill changes nothing. */
module DefaultsTwice {
  import opened Common
  import opened ConfigTree
  import opened TemplateParser
  import opened Defaults

  // ---------------------------------------------------------------- filling fields twice

  /** Filling `fields` would change nothing: each one is present, up to the first malformed default. */
  predicate Covered(scalars: ScalarParser, entries: seq<Entry>, fields: seq<FieldDefault>, coerce: bool)
    decreases |fields|
  {
    fields == [] ||
    if Find(entries, fields[0].field).Some? then Covered(scalars, entries, fields[1..], coerce)
    else DefaultValue(scalars, fields[0].raw, coerce).Err?
  }

  lemma {:induction false} FillEntriesAppends(scalars: ScalarParser, entries: seq<Entry>, fields: seq<FieldDefault>,
                                              coerce: bool)
    ensures entries <= FillEntries(scalars, entries, fields, coerce).tree
    ensures FillEntries(scalars, entries, fields, coerce).tree == entries <==> Covered(scalars, entries, fields, coerce)
    decreases |fields|
  {
    if fields != [] {
      if Find(entries, fields[0].field).Some? {
        FillEntriesAppends(scalars, entries, fields[1..], coerce);
      } else if DefaultValue(scalars, fields[0].raw, coerce).Ok? {
        var e := Entry(fields[0].field, DefaultValue(scalars, fields[0].raw, coerce).value);
        FillEntriesAppends(scalars, entries + [e], fields[1..], coerce);
        assert entries <= entries + [e];
      }
    }
  }

  lemma PrefixFind(a: seq<Entry>, b: seq<Entry>, key: string)
    requires a <= b && Find(a, key).Some?
    ensures Find(b, key) == Find(a, key)
  {
    assert b == a + b[|a|..];
    FindAppend(a, b[|a|..], key);
  }

  /** A second fill with the same fields repeats the first one's outcome, its error included. */
  lemma {:induction false} FillEntriesTwice(scalars: ScalarParser, entries: seq<Entry>, fields: seq<FieldDefault>,
                                            coerce: bool)
    ensures var r := FillEntries(scalars, entries, fields, coerce);
            Covered(scalars, r.tree, fields, coerce) && FillEntries(scalars, r.tree, fields, coerce) == r
    decreases |fields|
  {
    if fields != [] {
      var r := FillEntries(scalars, entries, fields, coerce);
      if Find(entries, fields[0].field).Some? {
        FillEntriesTwice(scalars, entries, fields[1..], coerce);
        FillEntriesAppends(scalars, entries, fields[1..], coerce);
        PrefixFind(entries, r.tree, fields[0].field);
      } else if DefaultValue(scalars, fields[0].raw, coerce).Ok? {
        var longer := entries + [Entry(fields[0].field, DefaultValue(scalars, fields[0].raw, coerce).value)];
        FillEntriesTwice(scalars, longer, fields[1..], coerce);
        FillEntriesAppends(scalars, longer, fields[1..], coerce);
        FindAppend(entries, longer[|entries|..], fields[0].field);
        assert longer == entries + longer[|entries|..];
        PrefixFind(longer, r.tree, fields[0].field);
      }
    }
  }

  lemma FillFieldsTwice(scalars: ScalarParser, t: ConfigValue, fields: seq<FieldDefault>, coerce: bool)
    ensures FillFields(scalars, FillFields(scalars, t, fields, coerce).tree, fields, coerce)
              == FillFields(scalars, t, fields, coerce)
  {
    if t.Table? {
      FillEntriesTwice(scalars, t.entries, fields, coerce);
    }
  }

  lemma {:induction false} FillPayloadsTwice(scalars: ScalarParser, entries: seq<Entry>, variants: seq<VariantDefault>)
    ensures FillPayloads(scalars, FillPayloads(scalars, entries, variants).tree, variants)
              == FillPayloads(scalars, entries, variants)
  {
    if entries != [] {
      var e, r := entries[0], FillPayloads(scalars, entries, variants);
      FillFieldsTwice(scalars, e.value, FieldsOf(variants, e.key), false);
      FillPayloadsTwice(scalars, entries[1..], variants);
      assert r.tree[1..] == entries[1..] || r.tree[1..] == FillPayloads(scalars, entries[1..], variants).tree;
      if r.error.Some? && FillFields(scalars, e.value, FieldsOf(variants, e.key), false).error.Some? {
        assert r.tree[1..] == entries[1..];
      }
    }
  }

  lemma FillExternalTwice(scalars: ScalarParser, t: ConfigValue, default: Option<DefaultVariant>,
                          variants: seq<VariantDefault>)
    ensures FillExternal(scalars, FillExternal(scalars, t, default, variants).tree, default, variants).tree
         == FillExternal(scalars, t, default, variants).tree
  {
    if t.Table? && t.entries != [] {
      FillPayloadsTwice(scalars, t.entries, variants);
    } else if t.Table? && default.Some? && !default.value.isUnit {
      var tag := default.value.tag;
      var inner := FillFields(scalars, Table([]), FieldsOf(variants, tag), false);
      FillFieldsTwice(scalars, Table([]), FieldsOf(variants, tag), false);
      var made := [Entry(tag, inner.tree)];
      assert made[1..] == [];
      assert FillPayloads(scalars, made[1..], variants) == Filled([], None);
    }
  }

  /** Filling `fields` into the content would change nothing. */
  predicate ContentCovered(scalars: ScalarParser, entries: seq<Entry>, contentKey: string, fields: seq<FieldDefault>) {
    var content := Find(entries, contentKey);
    content.Some? && (content.value.Table? ==> Covered(scalars, content.value.entries, fields, true))
  }

  lemma FillContentMeaning(scalars: ScalarParser, entries: seq<Entry>, contentKey: string, fields: seq<FieldDefault>,
                           other: string)
    ensures var r := FillContent(scalars, entries, contentKey, fields).tree;
            && |entries| <= |r|
            && (r == entries <==> ContentCovered(scalars, entries, contentKey, fields))
            && ContentCovered(scalars, r, contentKey, fields)
            && (Find(entries, other).Some? && !Find(entries, other).value.Table? ==>
                 Find(r, other) == Find(entries, other))
            && (Find(entries, other).Some? && Find(entries, other).value.Table? ==>
                 Find(r, other).Some? && Find(r, other).value.Table?)
  {
    var es := WithContent(entries, contentKey);
    FindAppend(entries, [Entry(contentKey, Table([]))], contentKey);
    FindAppend(entries, [Entry(contentKey, Table([]))], other);
    var content := Find(es, contentKey).value;
    var filled := FillFields(scalars, content, fields, true);
    ReplaceFirstMeaning(es, contentKey, filled.tree, other);
    if content.Table? {
      FillEntriesAppends(scalars, content.entries, fields, true);
      FillEntriesTwice(scalars, content.entries, fields, true);
    }
  }

  // ---------------------------------------------------------------- which fields get filled

  function Keys(entries: seq<Entry>): set<string> {
    set e <- entries :: e.key
  }

  /** With `present` there already, filling `fields` would add nothing. */
  predicate Supplied(scalars: ScalarParser, present: set<string>, fields: seq<FieldDefault>, coerce: bool)
    decreases |fields|
  {
    fields == [] ||
    if fields[0].field in present then Supplied(scalars, present, fields[1..], coerce)
    else DefaultValue(scalars, fields[0].raw, coerce).Err?
  }

  /** What is there once `fields` are filled: up to the first malformed default, all of them. */
  function Supply(scalars: ScalarParser, present: set<string>, fields: seq<FieldDefault>, coerce: bool): set<string>
    decreases |fields|
  {
    if fields == [] then present
    else if fields[0].field in present then Supply(scalars, present, fields[1..], coerce)
    else if DefaultValue(scalars, fields[0].raw, coerce).Err? then present
    else Supply(scalars, present + {fields[0].field}, fields[1..], coerce)
  }

  lemma KeysMeaning(entries: seq<Entry>, key: string)
    ensures key in Keys(entries) <==> Find(entries, key).Some?
  {
  }

  lemma KeysStep(entries: seq<Entry>, e: Entry)
    ensures Keys(entries + [e]) == Keys(entries) + {e.key}
  {
    assert forall x :: x in entries + [e] <==> x in entries || x == e;
  }

  lemma {:induction false} CoveredIsSupplied(scalars: ScalarParser, entries: seq<Entry>, fields: seq<FieldDefault>,
                                             coerce: bool)
    ensures Covered(scalars, entries, fields, coerce) <==> Supplied(scalars, Keys(entries), fields, coerce)
    decreases |fields|
  {
    if fields != [] {
      KeysMeaning(entries, fields[0].field);
      CoveredIsSupplied(scalars, entries, fields[1..], coerce);
    }
  }

  lemma {:induction false} FillSupplies(scalars: ScalarParser, entries: seq<Entry>, fields: seq<FieldDefault>,
                                        coerce: bool)
    ensures Keys(FillEntries(scalars, entries, fields, coerce).tree) == Supply(scalars, Keys(entries), fields, coerce)
    decreases |fields|
  {
    if fields != [] {
      KeysMeaning(entries, fields[0].field);
      var value := DefaultValue(scalars, fields[0].raw, coerce);
      if Find(entries, fields[0].field).Some? {
        FillSupplies(scalars, entries, fields[1..], coerce);
      } else if value.Ok? {
        KeysStep(entries, Entry(fields[0].field, value.value));
        FillSupplies(scalars, entries + [Entry(fields[0].field, value.value)], fields[1..], coerce);
      }
    }
  }

  /** The keys of the content table; none if there is no such table. */
  function ContentKeys(entries: seq<Entry>, contentKey: string): set<string> {
    match Find(entries, contentKey)
    case Some(Table(es)) => Keys(es)
    case _ => {}
  }

  predicate NonTable(entries: seq<Entry>, contentKey: string) {
    Find(entries, contentKey).Some? && !Find(entries, contentKey).value.Table?
  }

  lemma ContentCoveredIsSupplied(scalars: ScalarParser, entries: seq<Entry>, contentKey: string,
                                 fields: seq<FieldDefault>)
    ensures ContentCovered(scalars, entries, contentKey, fields) <==>
              || NonTable(entries, contentKey)
              || (Find(entries, contentKey).Some? && Supplied(scalars, ContentKeys(entries, contentKey), fields, true))
  {
    if Find(entries, contentKey).Some? && Find(entries, contentKey).value.Table? {
      CoveredIsSupplied(scalars, Find(entries, contentKey).value.entries, fields, true);
    }
  }

  lemma FillFieldsSupplies(scalars: ScalarParser, t: ConfigValue, fields: seq<FieldDefault>)
    ensures var r := FillFields(scalars, t, fields, true).tree;
            && (r.Table? <==> t.Table?)
            && (t.Table? ==> Keys(r.entries) == Supply(scalars, Keys(t.entries), fields, true))
  {
    if t.Table? {
      FillSupplies(scalars, t.entries, fields, true);
    }
  }

  /** The content after a fill holds what was there and what the fields supplied. */
  lemma FillContentSupplies(scalars: ScalarParser, entries: seq<Entry>, contentKey: string, fields: seq<FieldDefault>)
    ensures var r := FillContent(scalars, entries, contentKey, fields).tree;
            && Find(r, contentKey).Some?
            && (NonTable(r, contentKey) <==> NonTable(entries, contentKey))
            && (!NonTable(r, contentKey) ==>
                  ContentKeys(r, contentKey) == Supply(scalars, ContentKeys(entries, contentKey), fields, true))
  {
    var content := Find(entries, contentKey);
    FillContentFinds(scalars, entries, contentKey, fields);
    FillFieldsSupplies(scalars, if content.Some? then content.value else Table([]), fields);
    assert Keys([]) == {};
  }

  // ---------------------------------------------------------------- when a second fill changes nothing

  /** The tag of the default variant is written next to, or instead of, what was there. */
  ghost predicate Synthesizes(entries: seq<Entry>, tagKey: string, default: Option<DefaultVariant>) {
    TagValue(entries, tagKey).None? && default.Some? && ParsedStr(default.value.tag).Ok?
  }

  /** The fields filled beside a synthesized tag. */
  function OwnFields(default: DefaultVariant, variants: seq<VariantDefault>): seq<FieldDefault> {
    if default.isUnit then [] else FieldsOf(variants, default.tag)
  }

  /** When a second fill changes nothing. Only a synthesized tag can go wrong. It must become the tag that
    * is read back, which it does not if an unreadable tag entry comes first or if it is itself a template;
    * and the fields of the variant that it then names, which is another one if the tag holds an escaped
    * `$`, must be there already or be supplied with the tag. */
  ghost predicate Settled(scalars: ScalarParser, t: ConfigValue, spec: DefaultSpec) {
    match spec
    case Variants(Internal(tagKey), default, variants) =>
      t.Table? && Synthesizes(t.entries, tagKey, default) ==>
        var literal := ParsedStr(default.value.tag).value.AsLiteral();
        var own := OwnFields(default.value, variants);
        && Find(t.entries, tagKey).None?
        && literal.Some?
        && Supplied(scalars, Supply(scalars, Keys(t.entries) + {tagKey}, own, true),
                    FieldsOf(variants, literal.value), true)
    case Variants(Adjacent(tagKey, contentKey), default, variants) =>
      t.Table? && Synthesizes(t.entries, tagKey, default) ==>
        var literal := ParsedStr(default.value.tag).value.AsLiteral();
        && Find(t.entries, tagKey).None?
        && literal.Some?
        && (VariantFields(variants, literal.value).None? || tagKey == contentKey || NonTable(t.entries, contentKey) ||
              (!(default.value.isUnit && Find(t.entries, contentKey).None?) &&
               Supplied(scalars, Supply(scalars, ContentKeys(t.entries, contentKey),
                                        OwnFields(default.value, variants), true),
                        FieldsOf(variants, literal.value), true)))
    case _ => true
  }

  /** The same, of the tree after the first fill. */
  ghost predicate FillsNoMore(scalars: ScalarParser, t: ConfigValue, spec: DefaultSpec) {
    match spec
    case Variants(Internal(tagKey), default, variants) =>
      t.Table? && Synthesizes(t.entries, tagKey, default) ==>
        var literal := ParsedStr(default.value.tag).value.AsLiteral();
        && Find(t.entries, tagKey).None?
        && literal.Some?
        && Covered(scalars, FillInternal(scalars, t.entries, tagKey, default, variants).tree,
                   FieldsOf(variants, literal.value), true)
    case Variants(Adjacent(tagKey, contentKey), default, variants) =>
      t.Table? && Synthesizes(t.entries, tagKey, default) ==>
        var literal := ParsedStr(default.value.tag).value.AsLiteral();
        && Find(t.entries, tagKey).None?
        && literal.Some?
        && (VariantFields(variants, literal.value).Some? ==>
              ContentCovered(scalars, FillAdjacent(scalars, t.entries, tagKey, contentKey, default, variants).tree,
                             contentKey,
                             VariantFields(variants, literal.value).value))
    case _ => true
  }

  lemma InternalSettles(scalars: ScalarParser, entries: seq<Entry>, tagKey: string, default: Option<DefaultVariant>,
                        variants: seq<VariantDefault>, more: seq<FieldDefault>)
    requires Synthesizes(entries, tagKey, default)
    ensures Covered(scalars, FillInternal(scalars, entries, tagKey, default, variants).tree, more, true) <==>
              Supplied(scalars, Supply(scalars, Keys(entries) + {tagKey}, OwnFields(default.value, variants), true),
                       more, true)
  {
    var tag := Entry(tagKey, Str(ParsedStr(default.value.tag).value));
    KeysStep(entries, tag);
    FillSupplies(scalars, entries + [tag], OwnFields(default.value, variants), true);
    CoveredIsSupplied(scalars, FillInternal(scalars, entries, tagKey, default, variants).tree, more, true);
  }

  lemma AdjacentSettles(scalars: ScalarParser, entries: seq<Entry>, tagKey: string, contentKey: string,
                        default: Option<DefaultVariant>, variants: seq<VariantDefault>, more: seq<FieldDefault>)
    requires Synthesizes(entries, tagKey, default) && Find(entries, tagKey).None?
    ensures ContentCovered(scalars, FillAdjacent(scalars, entries, tagKey, contentKey, default, variants).tree,
                           contentKey, more) <==>
              || tagKey == contentKey
              || NonTable(entries, contentKey)
              || (!(default.value.isUnit && Find(entries, contentKey).None?) &&
                  Supplied(scalars, Supply(scalars, ContentKeys(entries, contentKey),
                                           OwnFields(default.value, variants), true),
                           more, true))
  {
    var tag := Entry(tagKey, Str(ParsedStr(default.value.tag).value));
    var r := FillAdjacent(scalars, entries, tagKey, contentKey, default, variants).tree;
    FindAppend(entries, [tag], contentKey);
    ContentCoveredIsSupplied(scalars, r, contentKey, more);
    if !default.value.isUnit {
      FillContentSupplies(scalars, entries + [tag], contentKey, FieldsOf(variants, default.value.tag));
    }
  }

  lemma SettledMeaning(scalars: ScalarParser, t: ConfigValue, spec: DefaultSpec)
    ensures Settled(scalars, t, spec) <==> FillsNoMore(scalars, t, spec)
  {
    match spec
    case Variants(Internal(tagKey), default, variants) =>
      if t.Table? && Synthesizes(t.entries, tagKey, default) {
        var literal := ParsedStr(default.value.tag).value.AsLiteral();
        if literal.Some? {
          InternalSettles(scalars, t.entries, tagKey, default, variants, FieldsOf(variants, literal.value));
        }
      }
    case Variants(Adjacent(tagKey, contentKey), default, variants) =>
      if t.Table? && Synthesizes(t.entries, tagKey, default) && Find(t.entries, tagKey).None? {
        var literal := ParsedStr(default.value.tag).value.AsLiteral();
        if literal.Some? {
          AdjacentSettles(scalars, t.entries, tagKey, contentKey, default, variants, FieldsOf(variants, literal.value));
        }
      }
    case _ =>
  }

  lemma FillInternalTwice(scalars: ScalarParser, entries: seq<Entry>, tagKey: string, default: Option<DefaultVariant>,
                          variants: seq<VariantDefault>)
    ensures FillInternal(scalars, FillInternal(scalars, entries, tagKey, default, variants).tree, tagKey, default,
                         variants).tree
            == FillInternal(scalars, entries, tagKey, default, variants).tree
            <==> FillsNoMore(scalars, Table(entries), Variants(Internal(tagKey), default, variants))
  {
    var r := FillInternal(scalars, entries, tagKey, default, variants).tree;
    if TagValue(entries, tagKey).Some? {
      var fields := FieldsOf(variants, TagValue(entries, tagKey).value);
      FillEntriesTwice(scalars, entries, fields, true);
      FillEntriesAppends(scalars, entries, fields, true);
      PrefixFind(entries, r, tagKey);
    } else if Synthesizes(entries, tagKey, default) {
      var parsed := ParsedStr(default.value.tag).value;
      var tagged := entries + [Entry(tagKey, Str(parsed))];
      var fields := FieldsOf(variants, default.value.tag);
      FillEntriesAppends(scalars, tagged, fields, true);
      FindAppend(entries, [Entry(tagKey, Str(parsed))], tagKey);
      PrefixFind(tagged, r, tagKey);
      if TagValue(r, tagKey).None? {
        FillEntriesAppends(scalars, r + [Entry(tagKey, Str(parsed))], fields, true);
      } else {
        FillEntriesAppends(scalars, r, FieldsOf(variants, TagValue(r, tagKey).value), true);
      }
    }
  }

  lemma FillAdjacentRead(scalars: ScalarParser, entries: seq<Entry>, tagKey: string, contentKey: string,
                         default: Option<DefaultVariant>, variants: seq<VariantDefault>)
    requires TagValue(entries, tagKey).Some?
    ensures var r := FillAdjacent(scalars, entries, tagKey, contentKey, default, variants).tree;
            FillAdjacent(scalars, r, tagKey, contentKey, default, variants).tree == r
  {
    var r := FillAdjacent(scalars, entries, tagKey, contentKey, default, variants).tree;
    var fields := FieldsOf(variants, TagValue(entries, tagKey).value);
    FillContentMeaning(scalars, entries, contentKey, fields, tagKey);
    FillContentMeaning(scalars, r, contentKey, fields, tagKey);
  }

  lemma FillAdjacentSynthesized(scalars: ScalarParser, entries: seq<Entry>, tagKey: string, contentKey: string,
                                default: Option<DefaultVariant>, variants: seq<VariantDefault>)
    requires Synthesizes(entries, tagKey, default)
    ensures var r := FillAdjacent(scalars, entries, tagKey, contentKey, default, variants).tree;
            TagValue(r, tagKey) ==
              if Find(entries, tagKey).None? then ParsedStr(default.value.tag).value.AsLiteral() else None
  {
    var parsed := ParsedStr(default.value.tag).value;
    var tagged := entries + [Entry(tagKey, Str(parsed))];
    FindAppend(entries, [Entry(tagKey, Str(parsed))], tagKey);
    FillContentMeaning(scalars, tagged, contentKey, FieldsOf(variants, default.value.tag), tagKey);
  }

  lemma FillAdjacentTwice(scalars: ScalarParser, entries: seq<Entry>, tagKey: string, contentKey: string,
                          default: Option<DefaultVariant>, variants: seq<VariantDefault>)
    ensures FillAdjacent(scalars, FillAdjacent(scalars, entries, tagKey, contentKey, default, variants).tree, tagKey,
                         contentKey, default, variants).tree
            == FillAdjacent(scalars, entries, tagKey, contentKey, default, variants).tree
            <==> FillsNoMore(scalars, Table(entries), Variants(Adjacent(tagKey, contentKey), default, variants))
  {
    var r := FillAdjacent(scalars, entries, tagKey, contentKey, default, variants).tree;
    if TagValue(entries, tagKey).Some? {
      FillAdjacentRead(scalars, entries, tagKey, contentKey, default, variants);
    } else if Synthesizes(entries, tagKey, default) {
      FillAdjacentSynthesized(scalars, entries, tagKey, contentKey, default, variants);
      if TagValue(r, tagKey).None? {
        var tagged := r + [Entry(tagKey, Str(ParsedStr(default.value.tag).value))];
        FillContentMeaning(scalars, tagged, contentKey, FieldsOf(variants, default.value.tag), tagKey);
      } else {
        FillContentMeaning(scalars, r, contentKey, FieldsOf(variants, TagValue(r, tagKey).value), tagKey);
      }
    }
  }

  /** Filling is idempotent exactly when the defaults settle. */
  lemma FillTwiceIffSettled(scalars: ScalarParser, t: ConfigValue, spec: DefaultSpec)
    ensures FillMissing(scalars, FillMissing(scalars, t, spec).tree, spec).tree == FillMissing(scalars, t, spec).tree
            <==> Settled(scalars, t, spec)
  {
    SettledMeaning(scalars, t, spec);
    match spec
    case Fields(fields) => FillFieldsTwice(scalars, t, fields, false);
    case Variants(External, default, variants) => FillExternalTwice(scalars, t, default, variants);
    case Variants(Internal(tagKey), default, variants) =>
      if t.Table? {
        FillInternalTwice(scalars, t.entries, tagKey, default, variants);
      }
    case Variants(Adjacent(tagKey, contentKey), default, variants) =>
      if t.Table? {
        FillAdjacentTwice(scalars, t.entries, tagKey, contentKey, default, variants);
      }
    case _ =>
  }

  /** A second fill of what a fill has supplied supplies nothing. */
  lemma {:induction false} SuppliedBySupply(scalars: ScalarParser, present: set<string>, fields: seq<FieldDefault>,
                                            coerce: bool)
    ensures present <= Supply(scalars, present, fields, coerce)
    ensures Supplied(scalars, Supply(scalars, present, fields, coerce), fields, coerce)
    decreases |fields|
  {
    if fields != [] {
      var more := if fields[0].field in present then present else present + {fields[0].field};
      SuppliedBySupply(scalars, more, fields[1..], coerce);
    }
  }

  /** For a tag without `$`, which names itself: an unreadable tag entry must not be in the way, and a unit
    * variant with listed defaults must find them all there. */
  ghost predicate PlainlySettled(scalars: ScalarParser, t: ConfigValue, spec: DefaultSpec)
    requires spec.Variants? && spec.default.Some?
  {
    var tag, fields := spec.default.value.tag, VariantFields(spec.variants, spec.default.value.tag);
    match spec.tagging
    case Internal(tagKey) =>
      t.Table? && TagValue(t.entries, tagKey).None? ==>
        && Find(t.entries, tagKey).None?
        && (spec.default.value.isUnit && fields.Some? ==>
             Supplied(scalars, Keys(t.entries) + {tagKey}, fields.value, true))
    case Adjacent(tagKey, contentKey) =>
      t.Table? && TagValue(t.entries, tagKey).None? ==>
        && Find(t.entries, tagKey).None?
        && (spec.default.value.isUnit && fields.Some? ==>
              tagKey == contentKey || ContentCovered(scalars, t.entries, contentKey, fields.value))
    case _ => true
  }

  /** The exact condition for default tags without `$`. */
  lemma FillTwiceIffPlainlySettled(scalars: ScalarParser, t: ConfigValue, spec: DefaultSpec)
    requires spec.Variants? && spec.default.Some? && '$' !in spec.default.value.tag
    ensures FillMissing(scalars, FillMissing(scalars, t, spec).tree, spec).tree == FillMissing(scalars, t, spec).tree
            <==> PlainlySettled(scalars, t, spec)
  {
    var tag := spec.default.value.tag;
    var own, fields := OwnFields(spec.default.value, spec.variants), FieldsOf(spec.variants, tag);
    PlainText(tag, "");
    assert "" + tag == tag;
    assert ParsedStr(tag).value.AsLiteral() == Some(tag);
    FillTwiceIffSettled(scalars, t, spec);
    if t.Table? {
      match spec.tagging
      case Internal(tagKey) => SuppliedBySupply(scalars, Keys(t.entries) + {tagKey}, own, true);
      case Adjacent(_, contentKey) =>
        SuppliedBySupply(scalars, ContentKeys(t.entries, contentKey), own, true);
        ContentCoveredIsSupplied(scalars, t.entries, contentKey, fields);
      case _ =>
    }
  }

  /** The shape of spec that the `#[config]` macro emits for ordinary tags: no `$` in the default tag, and
    * no defaults listed for a unit default variant. */
  ghost predicate PlainDefault(spec: DefaultSpec) {
    spec.Variants? && spec.default.Some? ==>
      && '$' !in spec.default.value.tag
      && (spec.default.value.isUnit ==> VariantFields(spec.variants, spec.default.value.tag).None?)
  }

  /** A tag entry, if there is one, is a plain string. */
  ghost predicate ReadableTag(t: ConfigValue, spec: DefaultSpec) {
    t.Table? && spec.Variants? && (spec.tagging.Internal? || spec.tagging.Adjacent?) ==>
      (Find(t.entries, spec.tagging.tag).Some? ==> TagValue(t.entries, spec.tagging.tag).Some?)
  }

  /** Under those conditions re-seeding never changes the tree. */
  lemma FillIsIdempotent(scalars: ScalarParser, t: ConfigValue, spec: DefaultSpec)
    requires PlainDefault(spec) && ReadableTag(t, spec)
    ensures FillMissing(scalars, FillMissing(scalars, t, spec).tree, spec).tree == FillMissing(scalars, t, spec).tree
  {
    if spec.Variants? && spec.default.Some? {
      FillTwiceIffPlainlySettled(scalars, t, spec);
    } else {
      FillTwiceIffSettled(scalars, t, spec);
    }
  }

  /** Without them it can: a tag written as a template is never read, so every fill appends one more. */
  lemma TemplatedTagAccumulates(scalars: ScalarParser)
    ensures var spec := Variants(Internal("kind"), Some(DefaultVariant("unix", true)), []);
            var t := Table([Entry("kind", Str(ConfigStr([Hole(Placeholder("KIND", None))], FullPlaceholder)))]);
            FillMissing(scalars, FillMissing(scalars, t, spec).tree, spec).tree != FillMissing(scalars, t, spec).tree
  {
    var spec := Variants(Internal("kind"), Some(DefaultVariant("unix", true)), []);
    var t := Table([Entry("kind", Str(ConfigStr([Hole(Placeholder("KIND", None))], FullPlaceholder)))]);
    PlainText("unix", "");
    FillTwiceIffSettled(scalars, t, spec);
    assert Find(t.entries, "kind") == Some(t.entries[0].value);
    assert Synthesizes(t.entries, "kind", spec.default);
  }
}

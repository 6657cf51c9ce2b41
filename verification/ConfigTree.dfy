/** The format-agnostic configuration tree and dotted-path lookup. */
module ConfigTree {
  import opened Common

  datatype Placeholder = Placeholder(key: string, default: Option<string>)

  datatype Segment = Literal(text: string) | Hole(placeholder: Placeholder)

  datatype StrKind = LiteralKind | FullPlaceholder | Templated

  datatype ConfigStr = ConfigStr(segments: seq<Segment>, kind: StrKind) {

    /** Some exactly when the whole leaf is one placeholder. */
    function AsFull(): Option<Placeholder> {
      if kind == FullPlaceholder && segments != [] && segments[0].Hole? then Some(segments[0].placeholder) else None
    }

    /** Some exactly when the leaf holds no placeholder; the empty leaf is the empty text. */
    function AsLiteral(): Option<string> {
      if kind != LiteralKind then None
      else if segments == [] then Some("")
      else if |segments| == 1 && segments[0].Literal? then Some(segments[0].text)
      else None
    }
  }

  /** `Float` carries the IEEE bit pattern; its decimal rendering is a parameter of the resolver. */
  datatype ConfigValue =
    | Null
    | Bool(b: bool)
    | Int(n: int)
    | Float(bits: nat)
    | Str(s: ConfigStr)
    | Array(items: seq<ConfigValue>)
    | Table(entries: seq<Entry>)

  datatype Entry = Entry(key: string, value: ConfigValue)

  /** The first entry under `key`: later entries with the same key are unreachable. */
  function Find(entries: seq<Entry>, key: string): (r: Option<ConfigValue>)
    ensures r.None? <==> forall i :: 0 <= i < |entries| ==> entries[i].key != key
  {
    if entries == [] then None
    else if entries[0].key == key then Some(entries[0].value)
    else Find(entries[1..], key)
  }

  /** The value found is that of the first entry with the key. */
  lemma {:induction false} FindFirst(entries: seq<Entry>, key: string, i: nat)
    requires i < |entries| && entries[i].key == key && forall j :: 0 <= j < i ==> entries[j].key != key
    ensures Find(entries, key) == Some(entries[i].value)
  {
    if i > 0 {
      assert forall j :: 0 <= j < |entries| - 1 ==> entries[1..][j] == entries[j + 1];
      FindFirst(entries[1..], key, i - 1);
    }
  }

  /** `str::split`: always at least one piece. */
  function Split(s: string, separator: char): (r: seq<string>)
    ensures r != []
  {
    if s == "" then [""]
    else
      var rest := Split(s[1..], separator);
      if s[0] == separator then [""] + rest else [[s[0]] + rest[0]] + rest[1..]
  }

  /** The node reached by following `path` from `node` through nested tables. */
  function Descend(node: ConfigValue, path: seq<string>): Option<ConfigValue>
    decreases |path|
  {
    if path == [] then Some(node)
    else if !node.Table? then None
    else
      match Find(node.entries, path[0])
      case None => None
      case Some(next) => Descend(next, path[1..])
  }

  /** The node a dotted path such as `a.b.c` denotes. */
  function PathNode(root: ConfigValue, path: string): Option<ConfigValue> {
    Descend(root, Split(path, '.'))
  }

  /** `lookup_path`: the iterative walk finds exactly the node the path denotes. */
  method LookupPath(root: ConfigValue, path: string) returns (r: Option<ConfigValue>)
    ensures r == PathNode(root, path)
  {
    var current := root;
    var segments := Split(path, '.');
    for i := 0 to |segments|
      invariant Descend(current, segments[i..]) == PathNode(root, path)
    {
      if !current.Table? {
        return None;
      }
      var next := Find(current.entries, segments[i]);
      if next.None? {
        return None;
      }
      current := next.value;
      assert segments[i..][1..] == segments[i + 1..];
    }
    r := Some(current);
  }

  /** `ConfigValue::get_path`: the empty path is the root itself. */
  method GetPath(root: ConfigValue, path: string) returns (r: Option<ConfigValue>)
    ensures r == if path == "" then Some(root) else PathNode(root, path)
  {
    if path == "" {
      return Some(root);
    }
    r := LookupPath(root, path);
  }

  /** Splitting on a character and joining with it again is the identity. */
  function Join(parts: seq<string>, separator: char): string
    requires parts != []
  {
    if |parts| == 1 then parts[0] else parts[0] + [separator] + Join(parts[1..], separator)
  }

  lemma {:induction false} SplitJoin(s: string, separator: char)
    ensures Join(Split(s, separator), separator) == s
    ensures forall i :: 0 <= i < |Split(s, separator)| ==> separator !in Split(s, separator)[i]
  {
    if s != "" {
      SplitJoin(s[1..], separator);
      var rest := Split(s[1..], separator);
      if s[0] == separator {
        assert ([""] + rest)[1..] == rest;
      } else {
        var parts := [[s[0]] + rest[0]] + rest[1..];
        assert parts[1..] == rest[1..];
      }
    }
  }

  lemma {:induction false} SplitNone(s: string, separator: char)
    requires separator !in s
    ensures Split(s, separator) == [s]
  {
    if s != "" {
      SplitNone(s[1..], separator);
      assert [s[0]] + s[1..] == s;
    }
  }

  lemma {:induction false} SplitConcat(a: string, separator: char, b: string)
    ensures Split(a + [separator] + b, separator) == Split(a, separator) + Split(b, separator)
  {
    if a == "" {
      assert (a + [separator] + b)[1..] == b && (a + [separator] + b)[0] == separator;
    } else {
      var whole := a + [separator] + b;
      assert whole[0] == a[0] && whole[1..] == a[1..] + [separator] + b;
      SplitConcat(a[1..], separator, b);
      PrependToFirst(Split(a[1..], separator), Split(b, separator), a[0], separator);
    }
  }

  /** What one more character in front does to the pieces. */
  function Longer(c: char, pieces: seq<string>, separator: char): seq<string>
    requires pieces != []
  {
    if c == separator then [""] + pieces else [[c] + pieces[0]] + pieces[1..]
  }

  lemma PrependToFirst(front: seq<string>, back: seq<string>, c: char, separator: char)
    requires front != []
    ensures Longer(c, front + back, separator) == Longer(c, front, separator) + back
  {
    assert (front + back)[0] == front[0] && (front + back)[1..] == front[1..] + back;
  }

  lemma {:induction false} DescendOn(node: ConfigValue, first: seq<string>, later: seq<string>)
    ensures Descend(node, first + later) ==
              match Descend(node, first) case None => None case Some(next) => Descend(next, later)
    decreases |first|
  {
    if first == [] {
      assert first + later == later;
    } else if node.Table? && Find(node.entries, first[0]).Some? {
      assert (first + later)[0] == first[0] && (first + later)[1..] == first[1..] + later;
      DescendOn(Find(node.entries, first[0]).value, first[1..], later);
    } else {
      assert (first + later)[0] == first[0];
    }
  }

  /** A path of one segment is an entry of a table; a longer one is followed segment by segment. */
  lemma PathMeaning(root: ConfigValue, key: string, path: string)
    ensures '.' !in key ==> PathNode(root, key) == if root.Table? then Find(root.entries, key) else None
    ensures PathNode(root, path + "." + key) ==
              match PathNode(root, path) case None => None case Some(node) => PathNode(node, key)
  {
    SplitConcat(path, '.', key);
    assert path + "." + key == path + ['.'] + key;
    DescendOn(root, Split(path, '.'), Split(key, '.'));
    if '.' !in key {
      SplitNone(key, '.');
      if root.Table? && Find(root.entries, key).Some? {
        assert Descend(Find(root.entries, key).value, [key][1..]) == Find(root.entries, key);
      }
    }
  }
}

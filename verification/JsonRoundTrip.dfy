/** Parsing what was printed: exactly when it succeeds, and what comes back. */
module JsonRoundTrip {
  import opened CStrings
  import opened JsonText
  import opened JsonTree

  // ----- the trees that are printed ----------------------------------------------------------

  /** A YANG identifier as far as JSON text is concerned. */
  predicate IsName(name: string) {
    name != [] && name[0] != '@' && forall c :: c in name ==> IsPlain(c) && c != '"' && c != '\\' && c != ':'
  }

  predicate DistinctNames(schemas: seq<Schema>) {
    && (forall i :: 0 <= i < |schemas| ==> IsName(schemas[i].name))
    && (forall i, j :: 0 <= i < j < |schemas| ==> schemas[i].name != schemas[j].name)
  }

  /** A boolean or number as a leaf stores it: without white space or JSON structure. */
  predicate IsBareText(v: string) {
    v != [] && forall c :: c in v ==> IsDigit(c) || IsAlpha(c) || c == '-' || c == '+' || c == '.'
  }

  predicate IsValue(value: Option<string>, printed: Printed) {
    match printed
    case Quoted => value.Some? && IsPlainText(value.value)
    case Bare => value.Some? && IsBareText(value.value)
    case Empty => value.None?
  }

  /** A data tree the parser could have built: typed leaves, and children from the schema. */
  predicate IsValid(ctx: Context, t: Tree)
    decreases t
  {
    match t
    case Term(schema, value, printed) =>
      (schema.kind.Leaf? || schema.kind.LeafList?) && ctx.types(schema, value) == Some(printed) && IsValue(value, printed)
    case Inner(schema, children) =>
      (schema.kind.Container? || schema.kind.List?) && DistinctNames(schema.children) &&
      forall i :: 0 <= i < |children| ==> children[i].schema in schema.children && IsValid(ctx, children[i])
  }

  predicate AreValid(ctx: Context, schemas: seq<Schema>, nodes: seq<Tree>) {
    && DistinctNames(schemas)
    && forall i :: 0 <= i < |nodes| ==> nodes[i].schema in schemas && IsValid(ctx, nodes[i])
  }

  // ----- the trees that can be read back -----------------------------------------------------

  /** A bare value lyjson_parse_number or lyjson_parse_boolean takes as a whole. */
  predicate IsBareReadable(v: string) {
    v == "true" || v == "false" || (v != [] && (v[0] == '-' || IsDigit(v[0])) && NumberLength(v, false) == Some(|v|))
  }

  predicate IsCleanValue(t: Tree)
    requires t.Term?
  {
    t.printed.Bare? && t.value.Some? ==> IsBareReadable(t.value.value)
  }

  predicate IsClean(t: Tree)
    decreases t, 0
  {
    if t.Term? then IsCleanValue(t) else CleanFrom(t.children, 0)
  }

  predicate CleanFrom(nodes: seq<Tree>, i: nat)
    requires i <= |nodes|
    decreases nodes, 2, |nodes| - i
  {
    i == |nodes| || ((IsSkipped(nodes, i) || CleanEntry(nodes, i)) && CleanFrom(nodes, i + 1))
  }

  predicate CleanEntry(nodes: seq<Tree>, i: nat)
    requires i < |nodes|
    decreases nodes, 1, 0
  {
    if IsMulti(nodes[i].schema) then HasContent(nodes[i]) && CleanInstances(nodes, i) else IsClean(nodes[i])
  }

  predicate CleanInstances(nodes: seq<Tree>, j: nat)
    requires j < |nodes|
    decreases nodes, 0, |nodes| - j
  {
    var k := NextInstance(nodes, nodes[j].schema, j + 1);
    CleanInstance(nodes[j]) && (k < |nodes| ==> CleanInstances(nodes, k))
  }

  predicate CleanInstance(t: Tree)
    decreases t, 1
  {
    IsClean(t) && (t.Inner? ==> t.children != [])
  }

  // ----- white space -------------------------------------------------------------------------

  predicate IsBlank(s: string) {
    forall i :: 0 <= i < |s| ==> IsWs(s[i])
  }

  lemma {:induction false} SkipBlank(blank: string, s: string)
    requires IsBlank(blank)
    ensures SkipWs(blank + s) == SkipWs(s)
  {
    if blank == [] {
      assert blank + s == s;
    } else {
      assert (blank + s)[1..] == blank[1..] + s;
      SkipBlank(blank[1..], s);
    }
  }

  /** What may follow a value: a separator, a closing bracket, or white space (section 2 of RFC 7159). */
  predicate IsDelimited(rest: string) {
    rest != [] && rest[0] in ",]} \t\n\r"
  }

  // ----- keys --------------------------------------------------------------------------------

  lemma {:induction false} EscapeName(id: string)
    requires forall c :: c in id ==> IsPlain(c) && c != '"' && c != '\\'
    ensures Escape(id) == id
  {
    if id != [] {
      assert forall c :: c in id[1..] ==> c in id;
      EscapeName(id[1..]);
      assert id[0] in id;
      assert id == [id[0]] + id[1..];
    }
  }

  /** A key in its quotation marks, and a name separator behind it. */
  lemma ReadKey(id: string, more: string, rest: string)
    requires id != [] && forall c :: c in id ==> IsPlain(c) && c != '"' && c != '\\'
    requires SkipWs(more) == ":" + rest
    ensures ParseKey("\"" + id + "\"" + more) == Read(id, SkipWs(rest))
  {
    hide Unescape, Escape;
    var s := "\"" + id + "\"" + more;
    EscapeName(id);
    UnescapeEscape(id, more);
    assert s[1..] == id + "\"" + more;
    assert s[|id| + 2..] == more;
    assert (":" + rest)[1..] == rest;
    assert IsCString(id) by {
      forall i | 0 <= i < |id| ensures id[i] != NUL { assert id[i] in id; }
    }
  }

  lemma {:induction false} FindDistinct(schemas: seq<Schema>, schema: Schema)
    requires DistinctNames(schemas) && schema in schemas
    ensures FindByName(schemas, schema.name) == Some(schema)
  {
    if schemas[0] != schema {
      var i :| 0 <= i < |schemas| && schemas[i] == schema;
      assert schemas[0].name != schemas[i].name;
      assert schemas[1..][i - 1] == schema;
      FindDistinct(schemas[1..], schema);
    }
  }

  /** The name prefix printed in a scope, and the schema nodes looked up there. */
  ghost predicate IsScope(ctx: Context, scope: Scope, prefix: string, schemas: seq<Schema>) {
    match scope
    case Below(children) => prefix == "" && children == schemas
    case Top =>
      prefix != "" && prefix[|prefix| - 1] == ':' && IsName(prefix[..|prefix| - 1]) &&
      prefix[..|prefix| - 1] in ctx.modules && ctx.modules[prefix[..|prefix| - 1]] == schemas
  }

  lemma FindPrinted(ctx: Context, scope: Scope, prefix: string, schemas: seq<Schema>, schema: Schema)
    requires IsScope(ctx, scope, prefix, schemas)
    requires DistinctNames(schemas) && schema in schemas
    ensures FindSchema(ctx, scope, prefix + schema.name) == Some(schema)
  {
    FindDistinct(schemas, schema);
    if scope.Below? {
      assert prefix + schema.name == schema.name;
      ColonAfter(schema.name, "");
    } else {
      var mod := prefix[..|prefix| - 1];
      ColonAfter(mod, schema.name);
      assert prefix + schema.name == mod + ":" + schema.name;
      assert (mod + ":" + schema.name)[|mod| + 1..] == schema.name;
      assert (mod + ":" + schema.name)[..|mod|] == mod;
    }
  }

  /** With the name of a module in front, a node below a parent is found just the same, if the module is
      there. */
  lemma FindQualified(ctx: Context, children: seq<Schema>, schema: Schema, mod: string)
    requires DistinctNames(children) && schema in children && ':' !in mod
    ensures FindSchema(ctx, Below(children), mod + ":" + schema.name) == if mod in ctx.modules then Some(schema) else None
    ensures FindSchema(ctx, Top, schema.name) == None
  {
    FindDistinct(children, schema);
    ColonAfter(mod, schema.name);
    ColonAfter(schema.name, "");
    assert (mod + ":" + schema.name)[|mod| + 1..] == schema.name;
    assert (mod + ":" + schema.name)[..|mod|] == mod;
  }

  /** A member starts with its key, which names its schema node. */
  lemma ReadName(ctx: Context, scope: Scope, prefix: string, schemas: seq<Schema>, schema: Schema, more: string, content: string)
    requires IsScope(ctx, scope, prefix, schemas)
    requires DistinctNames(schemas) && schema in schemas && SkipWs(more) == ":" + content
    ensures ParseKey("\"" + (prefix + schema.name) + "\"" + more) == Read(prefix + schema.name, SkipWs(content))
    ensures !StartsWith(prefix + schema.name, '@') && FindSchema(ctx, scope, prefix + schema.name) == Some(schema)
  {
    hide SkipWs, FindSchema, ParseKey;
    var id := prefix + schema.name;
    assert IsName(schema.name);
    assert IsIdText(id) by {
      if scope.Top? {
        var mod := prefix[..|prefix| - 1];
        assert prefix == mod + ":";
        forall c | c in prefix ensures IsPlain(c) && c != '"' && c != '\\' {
          assert c in mod || c == ':';
        }
      }
    }
    assert id[0] != '@';
    ReadKey(id, more, content);
    FindPrinted(ctx, scope, prefix, schemas, schema);
  }

  predicate IsIdText(id: string) {
    id != [] && forall c :: c in id ==> IsPlain(c) && c != '"' && c != '\\'
  }

  // ----- values ------------------------------------------------------------------------------

  lemma {:induction false} NumberLocal(v: string, rest: string, seen: bool)
    requires v == [] || IsBareText(v)
    requires IsDelimited(rest)
    ensures NumberLength(v + rest, seen) == NumberLength(v, seen)
    ensures NumberLength(v, seen).Some? ==> NumberLength(v, seen).value == |v|
  {
    var s := v + rest;
    if v != [] {
      assert v[0] in v && s[0] == v[0];
      assert s[1..] == v[1..] + rest;
      assert |v| > 1 ==> s[1] == v[1];
      assert |v| == 1 ==> s[1] == rest[0];
      assert forall c :: c in v[1..] ==> c in v;
      NumberLocal(v[1..], rest, seen || s[0] != '-');
    } else {
      assert s == rest;
    }
  }

  lemma BooleanLocal(v: string, rest: string)
    requires IsBareText(v) && (v[0] == 'f' || v[0] == 't')
    requires IsDelimited(rest)
    ensures BooleanLength(v + rest) == if v == "true" || v == "false" then |v| else 0
  {
    var s := v + rest;
    assert forall i :: 0 <= i < |v| ==> s[i] == v[i] && v[i] in v;
    assert s[|v|] == rest[0];
    if "false" <= s {
      LiteralPrefix("false", v, rest);
    } else if "true" <= s {
      LiteralPrefix("true", v, rest);
    } else {
      assert v <= s;
    }
  }

  lemma LiteralPrefix(word: string, v: string, rest: string)
    requires IsBareText(v) && IsDelimited(rest)
    requires word <= v + rest
    requires forall c :: c in word ==> IsAlpha(c)
    ensures word <= v
  {
    var s := v + rest;
    assert forall i :: 0 <= i < |word| ==> s[i] == word[i] && word[i] in word;
    assert s[|v|] == rest[0];
  }

  lemma ReadBare(v: string, rest: string)
    requires IsBareText(v) && IsDelimited(rest)
    ensures ParseScalar(v + rest) == if IsBareReadable(v) then Read(Some(v), rest) else Fail
  {
    var s := v + rest;
    assert s[0] == v[0] && v[0] in v;
    assert s[..|v|] == v && s[|v|..] == rest;
    if v[0] == '-' || IsDigit(v[0]) {
      NumberLocal(v, rest, false);
    } else if v[0] == 'f' || v[0] == 't' {
      BooleanLocal(v, rest);
    }
  }

  lemma {:induction false} NumberStops(v: string, c: char, rest: string, seen: bool)
    requires NumberLength(v, seen) == Some(|v|) && c !in ",]} \t\n\r" && !IsDigit(c) && c != '-'
    ensures NumberLength(v + ([c] + rest), seen).None?
  {
    var s := v + ([c] + rest);
    if v == [] {
      assert s[0] == c;
    } else {
      assert s[0] == v[0] && s[1..] == v[1..] + ([c] + rest);
      NumberStops(v[1..], c, rest, seen || v[0] != '-');
    }
  }

  /** Behind a number or a literal stands white space, a comma or a closing bracket: any other byte that does
      not go on with the number makes it unreadable. */
  lemma ValueEnds(v: string, c: char, rest: string)
    requires IsBareReadable(v) && IsBareText(v) && !IsDigit(c) && c != '-'
    ensures ParseScalar(v + ([c] + rest)) == if c in ",]} \t\n\r" then Read(Some(v), [c] + rest) else Fail
  {
    var s := v + ([c] + rest);
    if c in ",]} \t\n\r" {
      ReadBare(v, [c] + rest);
    } else if v == "true" || v == "false" {
      assert s[|v|] == c && v <= s;
      assert s[0] == v[0];
    } else {
      assert s[0] == v[0];
      NumberStops(v, c, rest, false);
    }
  }

  lemma ReadQuoted(text: string, rest: string)
    requires IsPlainText(text)
    ensures ParseScalar("\"" + Escape(text) + "\"" + rest) == Read(Some(text), rest)
  {
    hide Unescape, Escape;
    var s := "\"" + Escape(text) + "\"" + rest;
    UnescapeEscape(text, rest);
    assert s[1..] == Escape(text) + "\"" + rest;
    assert s[|Escape(text)| + 2..] == rest;
    assert IsCString(text);
  }

  /** Reading a printed value, whatever its type, succeeds exactly for the readable ones. */
  lemma ReadValue(ctx: Context, t: Tree, rest: string)
    requires t.Term? && IsValid(ctx, t) && IsDelimited(rest)
    ensures ParseValue(ctx, t.schema, PrintValue(t) + rest) == if IsCleanValue(t) then Read(t, rest) else Fail
  {
    match t.printed {
      case Quoted => ReadQuoted(t.value.value, rest);
      case Bare => ReadBare(t.value.value, rest);
      case Empty =>
        var s := "[null]" + rest;
        assert s[6..] == rest;
        assert "[null]" <= s;
    }
  }
}

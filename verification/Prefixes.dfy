/** Rewriting the prefixes of an expression (src/common.c), as functions on strings, and when one
    rewriting undoes another. */
module Prefixes {
  import opened CStrings

  // ----- identifiers -------------------------------------------------------------------------

  predicate IsIdentifierChar(c: char) {
    IsAlpha(c) || IsDigit(c) || c == '_' || c == '-' || c == '.'
  }

  function IdentifierRun(s: string): (n: nat)
    ensures n <= |s| && forall i :: 0 <= i < n ==> IsIdentifierChar(s[i])
    ensures n < |s| ==> !IsIdentifierChar(s[n])
  {
    if s == [] || !IsIdentifierChar(s[0]) then 0 else 1 + IdentifierRun(s[1..])
  }

  /** parse_identifier of src/resolve.c, with its test for a leading "xml" as it stands. */
  function IdentifierLength(s: string): (n: nat)
    ensures n <= |s|
  {
    if |s| >= 3 && (s[0] == 'x' || s[0] == 'X') && (s[1] == 'm' || s[0] == 'M') && (s[2] == 'l' || s[2] == 'L') then 0
    else if s == [] || !(IsAlpha(s[0]) || s[0] == '_') then 0
    else 1 + IdentifierRun(s[1..])
  }

  /** A name lyp_check_identifier accepts. */
  predicate IsIdentifier(s: string) {
    s != [] && (IsAlpha(s[0]) || s[0] == '_') && forall i :: 0 <= i < |s| ==> IsIdentifierChar(s[i])
  }

  // ----- rewriting ---------------------------------------------------------------------------

  /** A character that ends a prefix when reading backwards from its colon. */
  predicate IsDelimiter(c: char) {
    c == '/' || c == ' ' || c == '[' || c == '\'' || c == '"'
  }

  /** Where the identifier that ends `s` starts: behind the last delimiter. */
  function IdStart(s: string): (i: nat)
    ensures i <= |s| && (i > 0 ==> IsDelimiter(s[i - 1]))
    ensures forall k :: i <= k < |s| ==> !IsDelimiter(s[k])
  {
    if s == [] then 0 else if IsDelimiter(s[|s| - 1]) then |s| else IdStart(s[..|s| - 1])
  }

  /** Every prefix before a colon replaced by `f`, all other text kept; None where `f` has no answer. */
  function Rewrite(s: string, f: string -> Option<string>): Option<string>
    decreases |s|
  {
    var n := ColonIndex(s);
    if n == |s| then Some(s)
    else
      var i := IdStart(s[..n]);
      var r := f(s[i..n]);
      if r.None? then None
      else
        var rest := Rewrite(s[n + 1..], f);
        if rest.None? then None else Some(s[..i] + r.value + ":" + rest.value)
  }

  /** The prefixes in an expression, in order. */
  function Ids(s: string): seq<string>
    decreases |s|
  {
    var n := ColonIndex(s);
    if n == |s| then [] else [s[IdStart(s[..n])..n]] + Ids(s[n + 1..])
  }

  predicate IsPlainId(id: string) {
    forall c :: c in id ==> c != ':' && !IsDelimiter(c)
  }

  // ----- undoing -----------------------------------------------------------------------------

  /** The replaced prefix is found again at the same place. */
  lemma SplitRewritten(before: string, id: string, rest: string)
    requires ':' !in before && IsPlainId(id)
    requires before == [] || IsDelimiter(before[|before| - 1])
    ensures var t := before + id + ":" + rest;
            && ColonIndex(t) == |before| + |id|
            && IdStart(t[..|before| + |id|]) == |before|
            && t[|before|..|before| + |id|] == id && t[..|before|] == before && t[|before| + |id| + 1..] == rest
  {
    var t, a := before + id + ":" + rest, before + id;
    assert ':' !in a;
    ColonAfter(a, rest);
    assert t[..|a|] == a;
    var i := IdStart(a);
    assert forall k :: |before| <= k < |a| ==> a[k] in id;
    assert before != [] ==> IsDelimiter(a[|before| - 1]);
  }

  lemma Cancel(before: string, a: string, x: string, b: string, y: string)
    requires ':' !in a && ':' !in b
    requires before + a + ":" + x == before + b + ":" + y
    ensures a == b && x == y
  {
    var s, t := a + ":" + x, b + ":" + y;
    assert before + a + ":" + x == before + s && before + b + ":" + y == before + t;
    assert s == (before + s)[|before|..] && t == (before + t)[|before|..];
    ColonAfter(a, x);
    ColonAfter(b, y);
    assert a == s[..|a|] && b == t[..|b|];
    assert x == s[|a| + 1..] && y == t[|b| + 1..];
  }

  lemma SplitExpression(s: string)
    requires ColonIndex(s) < |s|
    ensures var n := ColonIndex(s);
            var i := IdStart(s[..n]);
            && s == s[..i] + s[i..n] + ":" + s[n + 1..]
            && ':' !in s[..i] && ':' !in s[i..n]
            && (s[..i] == [] || IsDelimiter(s[..i][|s[..i]| - 1]))
  {
    var n := ColonIndex(s);
    assert s == s[..n] + [s[n]] + s[n + 1..];
    assert s[..n] == s[..IdStart(s[..n])] + s[IdStart(s[..n])..n];
  }

  /** Rewriting back gives the expression again exactly when every prefix is mapped back to itself. */
  lemma {:induction false} RewriteBack(s: string, f: string -> Option<string>, g: string -> Option<string>)
    requires Rewrite(s, f).Some?
    requires forall id :: id in Ids(s) ==> f(id).Some? ==> IsPlainId(f(id).value) && (g(f(id).value).Some? ==> ':' !in g(f(id).value).value)
    ensures forall id :: id in Ids(s) ==> f(id).Some?
    ensures Rewrite(Rewrite(s, f).value, g) == Some(s)
        <==> forall id :: id in Ids(s) ==> g(f(id).value) == Some(id)
    decreases |s|
  {
    var n := ColonIndex(s);
    if n < |s| {
      var i := IdStart(s[..n]);
      var before, id, rest := s[..i], s[i..n], s[n + 1..];
      SplitExpression(s);
      assert Ids(s) == [id] + Ids(rest);
      assert id in Ids(s) && forall x :: x in Ids(rest) ==> x in Ids(s);
      assert forall x :: x in Ids(s) ==> x == id || x in Ids(rest);
      RewriteBack(rest, f, g);
      BackOnce(before, id, rest, f, g);
    }
  }

  lemma BackOnce(before: string, id: string, rest: string, f: string -> Option<string>, g: string -> Option<string>)
    requires ':' !in before && ':' !in id && (before == [] || IsDelimiter(before[|before| - 1]))
    requires f(id).Some? && Rewrite(rest, f).Some? && IsPlainId(f(id).value)
    requires g(f(id).value).Some? ==> ':' !in g(f(id).value).value
    ensures Rewrite(before + f(id).value + ":" + Rewrite(rest, f).value, g) == Some(before + id + ":" + rest)
        <==> g(f(id).value) == Some(id) && Rewrite(Rewrite(rest, f).value, g) == Some(rest)
  {
    var t := before + f(id).value + ":" + Rewrite(rest, f).value;
    SplitRewritten(before, f(id).value, Rewrite(rest, f).value);
    var o, x := g(f(id).value), Rewrite(Rewrite(rest, f).value, g);
    if o.Some? && x.Some? && before + o.value + ":" + x.value == before + id + ":" + rest {
      Cancel(before, o.value, x.value, id, rest);
    }
  }

  // ----- schema expressions ------------------------------------------------------------------

  datatype Import = Import(prefix: string, name: string)

  /** What rewriting needs of a (sub)module: its own prefix, its main module's name, its imports. */
  datatype Module = Module(prefix: string, name: string, imports: seq<Import>)

  function FirstByPrefix(imports: seq<Import>, prefix: string): (r: Option<string>)
    ensures r.Some? ==> Import(prefix, r.value) in imports
  {
    if imports == [] then None
    else if imports[0].prefix == prefix then Some(imports[0].name)
    else FirstByPrefix(imports[1..], prefix)
  }

  function FirstByName(imports: seq<Import>, name: string): (r: Option<string>)
    ensures r.Some? ==> Import(r.value, name) in imports
  {
    if imports == [] then None
    else if imports[0].name == name then Some(imports[0].prefix)
    else FirstByName(imports[1..], name)
  }

  /** lys_get_import_module by prefix, and the name of the module it finds. */
  function NameOf(m: Module, prefix: string): Option<string> {
    if m.prefix == prefix then Some(m.name) else FirstByPrefix(m.imports, prefix)
  }

  /** transform_module_name2import_prefix. */
  function PrefixOf(m: Module, name: string): Option<string> {
    if m.name == name then Some(m.prefix) else FirstByName(m.imports, name)
  }

  /** A prefix as transform_schema2json resolves it. */
  function SchemaName(m: Module, prefix: string): Option<string> {
    if IdentifierLength(prefix) < |prefix| then None else NameOf(m, prefix)
  }

  /** The own entry and the imports. */
  function Entries(m: Module): seq<Import> {
    [Import(m.prefix, m.name)] + m.imports
  }

  /** Prefixes and module names are identifiers and pairwise distinct. */
  predicate IsModule(m: Module) {
    && (forall e :: e in Entries(m) ==> IsIdentifier(e.prefix) && IsIdentifier(e.name))
    && (forall i, j :: 0 <= i < j < |Entries(m)| ==> Entries(m)[i].prefix != Entries(m)[j].prefix)
    && (forall i, j :: 0 <= i < j < |Entries(m)| ==> Entries(m)[i].name != Entries(m)[j].name)
  }

  lemma {:induction false} FirstFound(imports: seq<Import>, i: nat)
    requires i < |imports|
    requires forall k, l :: 0 <= k < l < |imports| ==> imports[k].prefix != imports[l].prefix && imports[k].name != imports[l].name
    ensures FirstByPrefix(imports, imports[i].prefix) == Some(imports[i].name)
    ensures FirstByName(imports, imports[i].name) == Some(imports[i].prefix)
  {
    if i > 0 {
      assert imports[1..][i - 1] == imports[i];
      FirstFound(imports[1..], i - 1);
    }
  }

  /** Prefixes and names stand for each other. */
  lemma Inverse(m: Module, prefix: string, name: string)
    requires IsModule(m)
    ensures NameOf(m, prefix) == Some(name) <==> PrefixOf(m, name) == Some(prefix)
    ensures PrefixOf(m, name) == Some(prefix) ==> Import(prefix, name) in Entries(m)
  {
    var e := Entries(m);
    assert FirstByPrefix(e, prefix) == NameOf(m, prefix) && FirstByName(e, name) == PrefixOf(m, name) by {
      assert e[1..] == m.imports;
    }
    if FirstByPrefix(e, prefix) == Some(name) || FirstByName(e, name) == Some(prefix) {
      var i :| 0 <= i < |e| && e[i] == Import(prefix, name);
      FirstFound(e, i);
    }
  }

  lemma IdentifierIsPlain(id: string)
    requires IsIdentifier(id)
    ensures IsPlainId(id) && ':' !in id
  {
    forall c | c in id ensures c != ':' && !IsDelimiter(c) {
      var i :| 0 <= i < |id| && id[i] == c;
    }
  }

  /** From prefixes to module names and back: the identity on every expression that can be rewritten. */
  lemma NamesThenPrefixes(m: Module, expr: string)
    requires IsModule(m) && Rewrite(expr, id => SchemaName(m, id)).Some?
    ensures Rewrite(Rewrite(expr, id => SchemaName(m, id)).value, id => PrefixOf(m, id)) == Some(expr)
  {
    var f, g := id => SchemaName(m, id), id => PrefixOf(m, id);
    forall id | f(id).Some?
      ensures g(f(id).value) == Some(id) && IsPlainId(f(id).value) && ':' !in id
    {
      Inverse(m, id, f(id).value);
      IdentifierIsPlain(f(id).value);
      IdentifierIsPlain(id);
    }
    RewriteBack(expr, f, g);
  }

  /** From module names to prefixes and back: the identity exactly when parse_identifier accepts every
      prefix that occurs, which it does not for one that starts with "xml". */
  lemma PrefixesThenNames(m: Module, expr: string)
    requires IsModule(m) && Rewrite(expr, id => PrefixOf(m, id)).Some?
    ensures Rewrite(Rewrite(expr, id => PrefixOf(m, id)).value, id => SchemaName(m, id)) == Some(expr)
        <==> forall id :: id in Ids(expr) && PrefixOf(m, id).Some? ==>
               IdentifierLength(PrefixOf(m, id).value) == |PrefixOf(m, id).value|
  {
    var f, g := id => PrefixOf(m, id), id => SchemaName(m, id);
    forall id | f(id).Some?
      ensures NameOf(m, f(id).value) == Some(id) && IsPlainId(f(id).value) && ':' !in id
    {
      Inverse(m, f(id).value, id);
      IdentifierIsPlain(f(id).value);
      IdentifierIsPlain(id);
    }
    RewriteBack(expr, f, g);
  }

  /** An import prefix that starts with "xml" is printed, but not read back. */
  lemma XmlPrefixIsLost(m: Module, e: Import, before: string, rest: string)
    requires IsModule(m) && e in Entries(m) && "xml" <= e.prefix
    requires ':' !in before && ':' !in rest && (before == [] || IsDelimiter(before[|before| - 1]))
    ensures Rewrite(before + e.name + ":" + rest, id => PrefixOf(m, id)) == Some(before + e.prefix + ":" + rest)
    ensures Rewrite(before + e.prefix + ":" + rest, id => SchemaName(m, id)).None?
  {
    IdentifierIsPlain(e.name);
    IdentifierIsPlain(e.prefix);
    EntryByName(m, e);
    assert IdentifierLength(e.prefix) == 0;
    RewriteOne(before, e.name, rest, id => PrefixOf(m, id));
    RewriteOne(before, e.prefix, rest, id => SchemaName(m, id));
  }

  lemma EntryByName(m: Module, e: Import)
    requires IsModule(m) && e in Entries(m)
    ensures PrefixOf(m, e.name) == Some(e.prefix)
  {
    var es := Entries(m);
    var i :| 0 <= i < |es| && es[i] == e;
    FirstFound(es, i);
    assert es[1..] == m.imports;
  }

  /** There are such modules. */
  lemma XmlPrefixExample()
    ensures IsModule(Module("m", "main", [Import("xmlp", "other")]))
  {
    assert Entries(Module("m", "main", [Import("xmlp", "other")])) == [Import("m", "main"), Import("xmlp", "other")];
  }

  lemma RewriteOne(before: string, id: string, rest: string, f: string -> Option<string>)
    requires ':' !in before && IsPlainId(id) && ':' !in rest
    requires before == [] || IsDelimiter(before[|before| - 1])
    ensures Rewrite(before + id + ":" + rest, f)
         == if f(id).None? then None else Some(before + f(id).value + ":" + rest)
  {
    SplitRewritten(before, id, rest);
    ColonAfter(rest, "");
  }

  /** Identifiers other than those that start like "xml" are accepted as a whole. */
  lemma IdentifierAccepted(id: string)
    requires IsIdentifier(id)
    ensures IdentifierLength(id) == |id| <==>
            !(|id| >= 3 && (id[0] == 'x' || id[0] == 'X') && id[1] == 'm' && (id[2] == 'l' || id[2] == 'L'))
  {
    assert forall k :: 0 <= k < |id| - 1 ==> IsIdentifierChar(id[1..][k]);
  }

  // ----- the bytes that matter ---------------------------------------------------------------

  /** Letters, digits and three more make up an identifier. */
  lemma IdentifierCharacters(c: char)
    ensures IsIdentifierChar(c) <==>
              c in "abcdefghijklmnopqrstuvwxyz" || c in "ABCDEFGHIJKLMNOPQRSTUVWXYZ" || c in "0123456789" || c in "_-."
  {
    CharacterClasses(c);
  }

  /** An identifier starts with a letter or an underscore, and may go on with any of these characters. */
  lemma IdentifierForm(c: char, s: string)
    ensures IsIdentifier([c] + s) <==>
              (c in "abcdefghijklmnopqrstuvwxyz" || c in "ABCDEFGHIJKLMNOPQRSTUVWXYZ" || c == '_')
              && forall i :: 0 <= i < |s| ==> IsIdentifierChar(s[i])
    ensures !IsIdentifier("")
  {
    CharacterClasses(c);
    var id := [c] + s;
    assert id[0] == c && forall i :: 0 < i < |id| ==> id[i] == s[i - 1];
    assert forall i :: 0 <= i < |s| ==> s[i] == id[i + 1];
  }

  /** An identifier reads to its colon, and starts at the text's begin or behind one of five bytes; nothing
      else of the text in front of it is replaced. */
  lemma BehindDelimiter(before: string, id: string, rest: string, f: string -> Option<string>)
    requires ':' !in before && (before == "" || before[|before| - 1] in "/ ['\"")
    requires forall c :: c in id ==> c !in ":/ ['\""
    ensures var r := Rewrite(rest, f);
            Rewrite(before + id + ":" + rest, f)
            == if f(id).None? || r.None? then None else Some(before + f(id).value + ":" + r.value)
  {
    hide Rewrite, IdStart, ColonIndex;
    assert IsPlainId(id);
    SplitRewritten(before, id, rest);
    RewriteFirst(before + id + ":" + rest, f);
  }

  lemma RewriteFirst(s: string, f: string -> Option<string>)
    requires ColonIndex(s) < |s|
    ensures var n := ColonIndex(s);
            var i := IdStart(s[..n]);
            var r, rest := f(s[i..n]), Rewrite(s[n + 1..], f);
            Rewrite(s, f) == if r.None? || rest.None? then None else Some(s[..i] + r.value + ":" + rest.value)
  {
    hide IdStart, ColonIndex;
  }

  /** Behind any other byte what is replaced starts further in front. */
  lemma BehindOther(before: string, id: string, rest: string)
    requires ':' !in before && before != "" && before[|before| - 1] !in "/ ['\""
    requires forall c :: c in id ==> c !in ":/ ['\""
    ensures var t := before + id + ":" + rest;
            ColonIndex(t) == |before| + |id| && IdStart(t[..|before| + |id|]) < |before|
  {
    var a := before + id;
    ColonAfter(a, rest);
    assert (a + ":" + rest)[..|a|] == a;
    forall j | |before| - 1 <= j < |a| ensures !IsDelimiter(a[j]) {
      assert a[j] == if j < |before| then before[j] else id[j - |before|];
      assert j >= |before| ==> id[j - |before|] in id;
    }
    var i := IdStart(a);
  }

  /** A step of a path with a predicate: the prefix is replaced in front of it and inside. */
  lemma PathWithPredicate(p: string, a: string, b: string, v: string, f: string -> Option<string>)
    requires forall c :: c in p ==> c !in ":/ ['\""
    requires ':' !in a && ':' !in b && ':' !in v
    ensures Rewrite(p + ":" + a + "[" + p + ":" + b + "='" + v + "']", f)
         == if f(p).None? then None else Some(f(p).value + ":" + a + "[" + f(p).value + ":" + b + "='" + v + "']")
  {
    hide Rewrite, IsDelimiter;
    var tail := b + "='" + v + "']";
    var inner := (a + "[") + p + ":" + tail;
    PathText(p, a, b, v);
    BehindDelimiter("", p, inner, f);
    BehindDelimiter(a + "[", p, tail, f);
    NothingToReplace(tail, f);
    if f(p).Some? {
      PathText(f(p).value, a, b, v);
    }
  }

  lemma PathText(p: string, a: string, b: string, v: string)
    ensures "" + p + ":" + ((a + "[") + p + ":" + (b + "='" + v + "']")) == p + ":" + a + "[" + p + ":" + b + "='" + v + "']"
  {
    var tail := b + "='" + v + "']";
    assert p + ":" + a + "[" + p + ":" + b + "='" + v + "']" == p + ":" + a + "[" + p + ":" + tail;
    assert p + ":" + a + "[" + p + ":" + tail == p + ":" + ((a + "[") + p + ":" + tail);
  }

  lemma NothingToReplace(s: string, f: string -> Option<string>)
    requires ':' !in s
    ensures Rewrite(s, f) == Some(s)
  {
    ColonAfter(s, "");
  }

  /** In a module with prefix m and name main. */
  lemma PredicateExample()
    ensures var m := Module("m", "main", []);
            Rewrite("m:a[m:b='x']", id => SchemaName(m, id)) == Some("main:a[main:b='x']")
  {
    hide Rewrite, IdentifierLength;
    var m := Module("m", "main", []);
    var f := id => SchemaName(m, id);
    OneLetter();
    assert "m:a[m:b='x']" == "m" + ":" + "a" + "[" + "m" + ":" + "b" + "='" + "x" + "']";
    assert "main:a[main:b='x']" == "main" + ":" + "a" + "[" + "main" + ":" + "b" + "='" + "x" + "']";
    assert f("m") == Some("main");
    PathWithPredicate("m", "a", "b", "x", f);
  }

  lemma OneLetter()
    ensures IdentifierLength("m") == 1
  {
  }
}

/** Rewriting between module names and XML prefixes: transform_json2xml and transform_xml2json of
    src/common.c. */
module XmlTransforms {
  import opened CStrings
  import opened Prefixes
  import opened PrefixTransforms
  import opened Dictionary
  import opened DictionaryTable
  import ModuleList
  import Revisions

  datatype XmlModule = XmlModule(name: string, prefix: string, ns: string)

  /** The modules of a context: ly_ctx_get_module and ly_ctx_get_module_by_ns without a revision. */
  datatype Context = Context(byName: string -> Option<XmlModule>, byNs: string -> Option<XmlModule>)

  /** Names and namespaces stand for each other, and both lookups find what they are asked for. */
  ghost predicate IsContext(ctx: Context) {
    && (forall n :: ctx.byName(n).Some? ==> ctx.byName(n).value.name == n && IsIdentifier(n) && IsIdentifier(ctx.byName(n).value.prefix))
    && (forall n :: ctx.byName(n).Some? ==> ctx.byNs(ctx.byName(n).value.ns).Some? && ctx.byNs(ctx.byName(n).value.ns).value.name == n)
    && (forall s :: ctx.byNs(s).Some? ==> IsIdentifier(ctx.byNs(s).value.name))
  }

  function Found(m: Option<ModuleList.Module>, prefixOf: ModuleList.Module -> string): Option<XmlModule> {
    if m.None? then None else Some(XmlModule(m.value.name, prefixOf(m.value), m.value.ns))
  }

  /** The lookups in a module list, for modules with the given prefixes. */
  function ContextOf(mods: seq<ModuleList.Module>, prefixOf: ModuleList.Module -> string): Context {
    Context(n => Found(ModuleList.Newest(mods, ModuleList.ByName, n), prefixOf),
            s => Found(ModuleList.Newest(mods, ModuleList.ByNs, s), prefixOf))
  }

  /** Every list that modules are added to is such a context. */
  lemma ListIsContext(mods: seq<ModuleList.Module>, prefixOf: ModuleList.Module -> string)
    requires ModuleList.IsConsistent(mods)
    requires forall m :: m in mods ==> IsIdentifier(m.name) && IsIdentifier(prefixOf(m))
    ensures IsContext(ContextOf(mods, prefixOf))
  {
    hide ModuleList.Newest, ModuleList.IsConsistent, IsIdentifier;
    var ctx := ContextOf(mods, prefixOf);
    ListIsOrdered(mods);
    forall n | ctx.byName(n).Some?
      ensures ctx.byNs(ctx.byName(n).value.ns).Some? && ctx.byNs(ctx.byName(n).value.ns).value.name == n
    {
      var m := ModuleList.Newest(mods, ModuleList.ByName, n).value;
      ModuleList.NewestIsLatest(mods, ModuleList.ByNs, m.ns);
      ModuleList.NoClash(mods, m, ModuleList.Newest(mods, ModuleList.ByNs, m.ns).value);
    }
  }

  lemma ListIsOrdered(mods: seq<ModuleList.Module>)
    requires ModuleList.IsConsistent(mods)
    ensures forall m :: m in mods ==> Revisions.IsLatestFirst(m.revs)
  {
  }

  datatype Decl = Decl(prefix: string, ns: string)

  function PrefixFor(ctx: Context, name: string): Option<string> {
    var m := ctx.byName(name);
    if m.None? then None else Some(m.value.prefix)
  }

  /** The declarations remembered so far, and one more if its namespace is new. */
  function Remember(decls: seq<Decl>, d: Decl): seq<Decl> {
    if exists i :: 0 <= i < |decls| && decls[i].ns == d.ns then decls else decls + [d]
  }

  function Collect(ctx: Context, ids: seq<string>, decls: seq<Decl>): seq<Decl> {
    if ids == [] then decls
    else
      var m := ctx.byName(ids[0]);
      Collect(ctx, ids[1..], if m.None? then decls else Remember(decls, Decl(m.value.prefix, m.value.ns)))
  }

  /** lyxml_get_ns: the first declaration of the prefix. */
  function NsOf(decls: seq<Decl>, prefix: string): (r: Option<string>)
    ensures r.Some? ==> Decl(prefix, r.value) in decls
    ensures r.None? ==> forall d :: d in decls ==> d.prefix != prefix
  {
    if decls == [] then None
    else if decls[0].prefix == prefix then Some(decls[0].ns)
    else NsOf(decls[1..], prefix)
  }

  /** A prefix as transform_xml2json resolves it. */
  function NameFor(ctx: Context, decls: seq<Decl>, prefix: string): Option<string> {
    if IdentifierLength(prefix) < |prefix| then None
    else
      var ns := NsOf(decls, prefix);
      if ns.None? then None
      else
        var m := ctx.byNs(ns.value);
        if m.None? then None else Some(m.value.name)
  }

  // ----- the loops ---------------------------------------------------------------------------

  /** transform_json2xml; with `collect`, the declarations the result needs are returned as well. */
  method TransformJsonToXml(ctx: Context, expr: string, collect: bool)
    returns (text: Option<string>, prefixes: seq<string>, namespaces: seq<string>)
    requires HasNoBareColon(expr)
    ensures text == Rewrite(expr, id => PrefixFor(ctx, id))
    ensures text.Some? && collect ==> IsZip(Collect(ctx, Ids(expr), []), prefixes, namespaces)
  {
    hide Rewrite, ColonIndex, IdStart, Prepend, Collect, Ids, IsZip, Remember;
    ghost var f := id => PrefixFor(ctx, id);
    ghost var done: string := [];
    ghost var decls: seq<Decl> := [];
    var from: nat, size: nat, used: nat := 0, |expr| + 1, 0;
    var out := new char[size];
    prefixes, namespaces := [], [];
    assert expr[0..] == expr;
    PrependNothing(Rewrite(expr, f));
    EmptyZip();
    while true
      invariant from <= |expr| && HasRoom(out, size, used, expr, from) && fresh(out)
      invariant from > 0 ==> expr[from - 1] == ':'
      invariant out[..used] == done && Rewrite(expr, f) == Prepend(done, Rewrite(expr[from..], f))
      invariant collect ==> IsZip(decls, prefixes, namespaces)
      invariant collect ==> Collect(ctx, Ids(expr), []) == Collect(ctx, Ids(expr[from..]), decls)
      decreases |expr| - from
    {
      NoColonAtStart(expr, from);
      var col := FindColon(expr, from);
      if col == |expr| {
        NothingToRewrite(expr, from, done, f);
        NothingToCollect(ctx, expr, from, decls);
        var whole := Finish(out, size, used, expr, from);
        return Some(whole), prefixes, namespaces;
      }
      var id := FindId(expr, from, col);
      RewriteStep(expr, from, id, col, done, f);
      var mod := ctx.byName(expr[id..col]);
      if mod.None? {
        return None, [], [];
      }
      CollectStep(ctx, expr, from, id, col, decls);
      if collect {
        prefixes, namespaces := AddDecl(decls, mod.value.prefix, mod.value.ns, prefixes, namespaces);
        decls := Remember(decls, Decl(mod.value.prefix, mod.value.ns));
      }
      out, size, used := Append(out, size, used, expr, from, id, col, mod.value.prefix);
      done := done + (expr[from..id] + mod.value.prefix + ":");
      from := col + 1;
    }
  }

  predicate IsZip(decls: seq<Decl>, prefixes: seq<string>, namespaces: seq<string>) {
    |prefixes| == |namespaces| == |decls| && forall i :: 0 <= i < |decls| ==> decls[i] == Decl(prefixes[i], namespaces[i])
  }

  lemma EmptyZip()
    ensures IsZip([], [], [])
  {
  }

  /** The namespace is remembered only if it is new; equal strings have equal addresses. */
  method AddDecl(ghost decls: seq<Decl>, prefix: string, ns: string, prefixes: seq<string>, namespaces: seq<string>)
    returns (prefixes': seq<string>, namespaces': seq<string>)
    requires IsZip(decls, prefixes, namespaces)
    ensures IsZip(Remember(decls, Decl(prefix, ns)), prefixes', namespaces')
  {
    var i := 0;
    while i < |namespaces|
      invariant i <= |namespaces|
      invariant forall k :: 0 <= k < i ==> decls[k].ns != ns
    {
      if namespaces[i] == ns {
        assert decls[i].ns == ns;
        return prefixes, namespaces;
      }
      i := i + 1;
    }
    return prefixes + [prefix], namespaces + [ns];
  }

  lemma NothingToCollect(ctx: Context, expr: string, from: nat, decls: seq<Decl>)
    requires from <= |expr| && from + ColonIndex(expr[from..]) == |expr|
    ensures Collect(ctx, Ids(expr[from..]), decls) == decls
  {
  }

  lemma CollectStep(ctx: Context, expr: string, from: nat, id: nat, col: nat, decls: seq<Decl>)
    requires from < col < |expr| && col == from + ColonIndex(expr[from..])
    requires id == from + IdStart(expr[from..][..col - from]) && ctx.byName(expr[id..col]).Some?
    ensures Collect(ctx, Ids(expr[from..]), decls)
         == Collect(ctx, Ids(expr[col + 1..]), Remember(decls, Decl(ctx.byName(expr[id..col]).value.prefix, ctx.byName(expr[id..col]).value.ns)))
  {
    hide Remember, IdStart, Ids, ColonIndex;
    IdsStep(expr, from, id, col);
    var ids := Ids(expr[from..]);
    assert ids[0] == expr[id..col] && ids[1..] == Ids(expr[col + 1..]);
  }

  lemma IdsUnfold(s: string)
    requires ColonIndex(s) < |s|
    ensures var n := ColonIndex(s); Ids(s) == [s[IdStart(s[..n])..n]] + Ids(s[n + 1..])
  {
    hide ColonIndex, IdStart;
  }

  lemma IdsStep(expr: string, from: nat, id: nat, col: nat)
    requires from < col < |expr| && col == from + ColonIndex(expr[from..])
    requires id == from + IdStart(expr[from..][..col - from])
    ensures Ids(expr[from..]) == [expr[id..col]] + Ids(expr[col + 1..])
  {
    hide IdStart, ColonIndex, Ids;
    IdsUnfold(expr[from..]);
    var s, n := expr[from..], col - from;
    assert s[id - from..n] == expr[id..col];
    assert s[n + 1..] == expr[col + 1..];
  }

  /** transform_xml2json: the rewritten string is interned, and its address returned. */
  method TransformXmlToJson(ctx: Context, dict: Dict, expr: string, decls: seq<Decl>) returns (h: Handle?)
    requires dict.Valid() && HasNoBareColon(expr)
    modifies dict, dict.owned
    ensures dict.Valid() && fresh(dict.owned - old(dict.owned))
    ensures var r := Rewrite(expr, id => NameFor(ctx, decls, id));
            if r.None? then h == null && dict.table == old(dict.table)
            else h != null && h.text == r.value && dict.table == Insert(old(dict.table), h.text, h) && h == Inserted(old(dict.table), h.text, h)
  {
    hide Insert, Inserted, Rewrite, NameFor;
    var text := XmlToJsonText(ctx, expr, decls);
    if text.None? {
      return null;
    }
    h := dict.DictInsert(text.value, null);
  }

  method XmlToJsonText(ctx: Context, expr: string, decls: seq<Decl>) returns (text: Option<string>)
    requires HasNoBareColon(expr)
    ensures text == Rewrite(expr, id => NameFor(ctx, decls, id))
  {
    hide Rewrite, ColonIndex, IdStart, Prepend, NameFor;
    ghost var f := id => NameFor(ctx, decls, id);
    ghost var done: string := [];
    var from: nat, size: nat, used: nat := 0, |expr| + 1, 0;
    var out := new char[size];
    assert expr[0..] == expr;
    PrependNothing(Rewrite(expr, f));
    while true
      invariant from <= |expr| && HasRoom(out, size, used, expr, from) && fresh(out)
      invariant from > 0 ==> expr[from - 1] == ':'
      invariant out[..used] == done && Rewrite(expr, f) == Prepend(done, Rewrite(expr[from..], f))
      decreases |expr| - from
    {
      NoColonAtStart(expr, from);
      var col := FindColon(expr, from);
      if col == |expr| {
        NothingToRewrite(expr, from, done, f);
        var whole := Finish(out, size, used, expr, from);
        return Some(whole);
      }
      var id := FindId(expr, from, col);
      RewriteStep(expr, from, id, col, done, f);
      var name := XmlPrefix(ctx, expr, decls, id, col);
      if name.None? {
        return None;
      }
      out, size, used := Append(out, size, used, expr, from, id, col, name.value);
      done := done + (expr[from..id] + name.value + ":");
      from := col + 1;
    }
  }

  /** The resolution step of transform_xml2json. */
  method XmlPrefix(ctx: Context, expr: string, decls: seq<Decl>, id: nat, col: nat) returns (name: Option<string>)
    requires id <= col < |expr| && expr[col] == ':' && ':' !in expr[id..col]
    ensures name == NameFor(ctx, decls, expr[id..col])
  {
    var rc := ParseIdentifier(expr, id);
    assert expr[id..] == expr[id..col] + ":" + expr[col + 1..];
    IdentifierBeforeColon(expr[id..col], expr[col + 1..]);
    if rc < col - id {
      return None;
    }
    var ns := GetNs(decls, expr[id..col]);
    if ns.None? {
      return None;
    }
    var mod := ctx.byNs(ns.value);
    return if mod.None? then None else Some(mod.value.name);
  }

  method GetNs(decls: seq<Decl>, prefix: string) returns (ns: Option<string>)
    ensures ns == NsOf(decls, prefix)
  {
    var i := 0;
    while i < |decls|
      invariant i <= |decls|
      invariant NsOf(decls, prefix) == NsOf(decls[i..], prefix)
    {
      if decls[i].prefix == prefix {
        return Some(decls[i].ns);
      }
      assert decls[i..][1..] == decls[i + 1..];
      i := i + 1;
    }
    return None;
  }

  // ----- to XML and back ---------------------------------------------------------------------

  predicate DistinctPrefixes(decls: seq<Decl>) {
    forall i, j :: 0 <= i < j < |decls| ==> decls[i].prefix != decls[j].prefix
  }

  predicate AcceptedPrefixes(decls: seq<Decl>) {
    forall i :: 0 <= i < |decls| ==> IdentifierLength(decls[i].prefix) == |decls[i].prefix|
  }

  /** All declarations come from the modules of `ids`, and every such module's namespace is declared. */
  ghost predicate Covers(ctx: Context, ids: seq<string>, decls: seq<Decl>) {
    && (forall d :: d in decls ==> exists id :: id in ids && IsDeclOf(ctx, id, d))
    && (forall id :: id in ids && ctx.byName(id).Some? ==> Decl(ctx.byName(id).value.prefix, ctx.byName(id).value.ns) in decls)
    && (forall i, j :: 0 <= i < j < |decls| ==> decls[i].ns != decls[j].ns)
  }

  predicate IsDeclOf(ctx: Context, id: string, d: Decl) {
    ctx.byName(id).Some? && d == Decl(ctx.byName(id).value.prefix, ctx.byName(id).value.ns)
  }

  lemma {:induction false} CollectCovers(ctx: Context, before: seq<string>, ids: seq<string>, decls: seq<Decl>)
    requires IsContext(ctx) && Covers(ctx, before, decls)
    ensures Covers(ctx, before + ids, Collect(ctx, ids, decls))
    decreases |ids|
  {
    if ids == [] {
      assert before + ids == before;
    } else {
      var id := ids[0];
      var decls' := if ctx.byName(id).None? then decls
                    else Remember(decls, Decl(ctx.byName(id).value.prefix, ctx.byName(id).value.ns));
      CoversOne(ctx, before, id, decls);
      CollectCovers(ctx, before + [id], ids[1..], decls');
      assert before + [id] + ids[1..] == before + ids;
    }
  }

  /** Two modules with one namespace are one module. */
  lemma SameNs(ctx: Context, a: string, b: string)
    requires IsContext(ctx) && ctx.byName(a).Some? && ctx.byName(b).Some? && ctx.byName(a).value.ns == ctx.byName(b).value.ns
    ensures a == b
  {
  }

  lemma CoversOne(ctx: Context, ids: seq<string>, id: string, decls: seq<Decl>)
    requires IsContext(ctx) && Covers(ctx, ids, decls)
    ensures Covers(ctx, ids + [id], if ctx.byName(id).None? then decls
                                    else Remember(decls, Decl(ctx.byName(id).value.prefix, ctx.byName(id).value.ns)))
  {
    var all := ids + [id];
    assert forall x :: x in all <==> x in ids || x == id;
    if ctx.byName(id).Some? {
      var d := Decl(ctx.byName(id).value.prefix, ctx.byName(id).value.ns);
      assert IsDeclOf(ctx, id, d) && id in all;
      if exists i :: 0 <= i < |decls| && decls[i].ns == d.ns {
        var i :| 0 <= i < |decls| && decls[i].ns == d.ns;
        assert decls[i] in decls;
        var x :| x in ids && IsDeclOf(ctx, x, decls[i]);
        SameNs(ctx, x, id);
      }
    }
  }

  lemma {:induction false} FirstDeclared(decls: seq<Decl>, i: nat)
    requires i < |decls| && forall k :: 0 <= k < i ==> decls[k].prefix != decls[i].prefix
    ensures NsOf(decls, decls[i].prefix) == Some(decls[i].ns)
  {
    if i > 0 {
      FirstDeclared(decls[1..], i - 1);
    }
  }

  /** From module names to XML prefixes and back, with the declarations the first step asks for: the
      identity exactly when those prefixes are pairwise distinct and parse_identifier accepts them. */
  lemma XmlThenJson(ctx: Context, expr: string)
    requires IsContext(ctx) && Rewrite(expr, id => PrefixFor(ctx, id)).Some?
    ensures var decls := Collect(ctx, Ids(expr), []);
            Rewrite(Rewrite(expr, id => PrefixFor(ctx, id)).value, id => NameFor(ctx, decls, id)) == Some(expr)
            <==> DistinctPrefixes(decls) && AcceptedPrefixes(decls)
  {
    hide Rewrite, Collect, IdentifierLength, Ids;
    var decls := Collect(ctx, Ids(expr), []);
    var f, g := id => PrefixFor(ctx, id), id => NameFor(ctx, decls, id);
    CollectCovers(ctx, [], Ids(expr), []);
    assert [] + Ids(expr) == Ids(expr);
    forall id | f(id).Some?
      ensures IsPlainId(f(id).value) && (g(f(id).value).Some? ==> ':' !in g(f(id).value).value)
    {
      IdentifierIsPlain(f(id).value);
      if g(f(id).value).Some? {
        IdentifierIsPlain(g(f(id).value).value);
      }
    }
    RewriteBack(expr, f, g);
    BackIffDistinct(ctx, Ids(expr), decls);
  }

  lemma BackIffDistinct(ctx: Context, ids: seq<string>, decls: seq<Decl>)
    requires IsContext(ctx) && Covers(ctx, ids, decls)
    requires forall id :: id in ids ==> PrefixFor(ctx, id).Some?
    ensures (forall id :: id in ids ==> NameFor(ctx, decls, PrefixFor(ctx, id).value) == Some(id))
        <==> DistinctPrefixes(decls) && AcceptedPrefixes(decls)
  {
    hide IdentifierLength;
    if DistinctPrefixes(decls) && AcceptedPrefixes(decls) {
      forall id | id in ids ensures NameFor(ctx, decls, PrefixFor(ctx, id).value) == Some(id) {
        var d := Decl(ctx.byName(id).value.prefix, ctx.byName(id).value.ns);
        assert d in decls;
        var i :| 0 <= i < |decls| && decls[i] == d;
        FirstDeclared(decls, i);
      }
    }
    if forall id :: id in ids ==> NameFor(ctx, decls, PrefixFor(ctx, id).value) == Some(id) {
      forall i | 0 <= i < |decls| ensures IdentifierLength(decls[i].prefix) == |decls[i].prefix| {
        var id := OwnerOf(ctx, ids, decls, i);
      }
      forall i, j | 0 <= i < j < |decls| ensures decls[i].prefix != decls[j].prefix {
        var a := OwnerOf(ctx, ids, decls, i);
        var b := OwnerOf(ctx, ids, decls, j);
        assert decls[i].ns != decls[j].ns;
      }
    }
  }

  lemma OwnerOf(ctx: Context, ids: seq<string>, decls: seq<Decl>, i: nat) returns (id: string)
    requires Covers(ctx, ids, decls) && i < |decls|
    ensures id in ids && IsDeclOf(ctx, id, decls[i])
  {
    assert decls[i] in decls;
    id :| id in ids && IsDeclOf(ctx, id, decls[i]);
  }
}

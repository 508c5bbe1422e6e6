/** Loading modules with their imports: fill_yin_import, the import loop of read_sub_module and
    yin_read_module in src/parser_yin.c, and ly_ctx_load_module in src/context.c. */
module Loader {
  import opened CStrings
  import opened Revisions
  import opened ModuleList
  import opened Imports

  /** The state inside a load of `root`: `more` is loaded so far, `path` leads to the module being parsed,
      and its names behind the root are those on the stack. */
  ghost predicate IsLoading(ctx: Context, w: World, root: string, path: seq<string>, more: seq<Module>)
    reads ctx, ctx.list, ctx.parsing
  {
    && ctx.Valid() && ctx.mods == w.list + more && IsOrder(w, root, more)
    && IsPath(w, path) && path[0] == root && AreDistinct(path[1..]) && ctx.stack == path[1..]
  }

  /** The names in parsing are not loaded. */
  predicate AreOpen(names: seq<string>, mods: seq<Module>) {
    forall i :: 0 <= i < |names| ==> !IsLoaded(mods, names[i])
  }

  function Names(path: seq<string>): set<string> {
    set x | x in path
  }

  /** The sources not being parsed; every nested load has fewer of them. */
  function Left(sources: map<string, Source>, stack: seq<string>): nat {
    |sources.Keys - Names(stack)|
  }

  lemma FewerLeft(sources: map<string, Source>, stack: seq<string>, name: string)
    requires name !in stack
    ensures Left(sources, stack + [name]) <= Left(sources, stack)
    ensures name in sources ==> Left(sources, stack + [name]) < Left(sources, stack)
  {
    var a, b := sources.Keys - Names(stack), sources.Keys - Names(stack + [name]);
    assert b == a - {name};
  }

  // ----- one import --------------------------------------------------------------------------

  /** fill_yin_import: the imported module, loaded if need be; with no result, the root cannot be loaded. */
  method FillImport(ctx: Context, sources: map<string, Source>, value: string,
                    ghost w: World, ghost root: string, ghost path: seq<string>, ghost more: seq<Module>)
    returns (m: Module?, ghost more': seq<Module>)
    requires IsLoading(ctx, w, root, path, more) && AreOpen(path[1..], ctx.mods) && w.sources == sources
    requires path[|path| - 1] in sources && value in sources[path[|path| - 1]].imports && root in sources
    modifies ctx, ctx.list, ctx.parsing
    ensures IsLoading(ctx, w, root, path, more') && AreOpen(path[1..], ctx.mods) && more <= more'
    ensures ctx.list == old(ctx.list) || fresh(ctx.list)
    ensures ctx.parsing == null || ctx.parsing == old(ctx.parsing) || fresh(ctx.parsing)
    ensures m != null ==> m in ctx.mods && m.name == value
    ensures m == null ==> !IsLoadable(w, root)
    decreases Left(sources, path[1..]), 2
  {
    hide IsPath, IsOrder, AreDistinct, IsLoadable, Left, AreOpen, Context.Valid, Newest, IsBelow, IsLoaded;
    more' := more;
    NotEmpty(w, path);
    var found, count := ctx.IsParsing(value);
    if found {
      CircularImport(w, root, path, ctx.mods, value);
      return null, more;
    }
    ctx.Push(value, count);
    m := ctx.GetModuleBy(ByName, value, None);
    assert path[1..] + [value] == (path + [value])[1..] && (path[1..] + [value])[..|path[1..]|] == path[1..];
    if m == null {
      NotListed(ctx, value);
      OneFurther(w, root, path, ctx.mods, value);
      FewerLeft(sources, path[1..], value);
      OpenOneMore(path[1..], value, ctx.mods);
      m, more' := LoadMissing(ctx, sources, value, w, root, path, path + [value], more);
    }
    var intact := ctx.Pop(value, count);
    assert intact;
  }

  /** The load of an import that is not listed, its name already pushed. */
  method LoadMissing(ctx: Context, sources: map<string, Source>, value: string,
                     ghost w: World, ghost root: string, ghost path: seq<string>, ghost path': seq<string>, ghost more: seq<Module>)
    returns (m: Module?, ghost more': seq<Module>)
    requires IsLoading(ctx, w, root, path', more) && AreOpen(path'[1..], ctx.mods) && w.sources == sources
    requires path != [] && path' == path + [value] && value !in path[1..] && root in sources && IsBelow(w, root, value)
    modifies ctx, ctx.list, ctx.parsing
    ensures IsLoading(ctx, w, root, path', more') && AreOpen(path[1..], ctx.mods) && more <= more'
    ensures ctx.list == old(ctx.list) || fresh(ctx.list)
    ensures ctx.parsing == null || ctx.parsing == old(ctx.parsing) || fresh(ctx.parsing)
    ensures m != null ==> m in ctx.mods && m.name == value
    ensures m == null ==> !IsLoadable(w, root)
    decreases Left(sources, path'[1..]), if value in sources then 5 else 1
  {
    hide IsPath, IsOrder, AreDistinct, IsLoadable, Left, AreOpen, Context.Valid, IsBuilt, IsAddResult, IsBelow, IsLoaded;
    ghost var built;
    m, more', built := LoadModule(ctx, sources, value, w, root, path', more);
    assert path'[1..] == path[1..] + [value];
    OpenOneLess(path[1..], value, w.list + more', built);
    if built != null {
      NestedResult(w, root, value, more', built, m, ctx.mods);
      assert w.list + (more' + [built]) == w.list + more' + [built];
      more' := if m == null then more' else more' + [m];
    }
  }

  // ----- one module --------------------------------------------------------------------------

  /** ly_ctx_load_module and yin_read_module: the module found under `name` is parsed with its imports
      and added to the list. */
  method LoadModule(ctx: Context, sources: map<string, Source>, name: string,
                    ghost w: World, ghost root: string, ghost path: seq<string>, ghost more: seq<Module>)
    returns (m: Module?, ghost more': seq<Module>, ghost built: Module?)
    requires IsLoading(ctx, w, root, path, more) && AreOpen(path[1..], ctx.mods) && w.sources == sources
    requires path[|path| - 1] == name
    modifies ctx, ctx.list, ctx.parsing
    ensures ctx.Valid() && ctx.stack == path[1..] && IsOrder(w, root, more') && more <= more' && AreOpen(path[1..], w.list + more')
    ensures ctx.list == old(ctx.list) || fresh(ctx.list)
    ensures ctx.parsing == null || ctx.parsing == old(ctx.parsing) || fresh(ctx.parsing)
    ensures built == null ==> m == null && ctx.mods == w.list + more' && !IsLoadable(w, root)
    ensures built != null ==> built.name == name && IsBuilt(w, built, w.list + more') && IsAddResult(w.list + more', built, m, ctx.mods)
    decreases Left(sources, path[1..]), if name in sources then 4 else 0
  {
    hide IsPath, IsOrder, AreDistinct, IsLoadable, Left, AreOpen, Context.Valid, IsBuilt, FirstStop, IsLatestFirst, IsUsable;
    if name !in sources {
      NoSource(w, root, path);
      return null, more, null;
    }
    var parsed;
    parsed, more' := ReadModule(ctx, sources, name, w, root, path, more);
    built := parsed;
    if parsed == null {
      return null, more', built;
    }
    BuiltNs(w, parsed, w.list + more');
    m := ctx.AddModule(parsed);
  }

  lemma NoSource(w: World, root: string, path: seq<string>)
    requires IsPath(w, path) && path[0] == root && path[|path| - 1] !in w.sources
    ensures !IsLoadable(w, root)
  {
    BadPath(w, root, path);
  }

  /** read_sub_module: the imports in order, each a different module, and then the rest. */
  method ReadModule(ctx: Context, sources: map<string, Source>, name: string,
                    ghost w: World, ghost root: string, ghost path: seq<string>, ghost more: seq<Module>)
    returns (parsed: Module?, ghost more': seq<Module>)
    requires IsLoading(ctx, w, root, path, more) && AreOpen(path[1..], ctx.mods) && w.sources == sources
    requires path[|path| - 1] == name && name in sources
    modifies ctx, ctx.list, ctx.parsing
    ensures IsLoading(ctx, w, root, path, more') && AreOpen(path[1..], ctx.mods) && more <= more'
    ensures ctx.list == old(ctx.list) || fresh(ctx.list)
    ensures ctx.parsing == null || ctx.parsing == old(ctx.parsing) || fresh(ctx.parsing)
    ensures parsed == null ==> !IsLoadable(w, root)
    ensures parsed != null ==> parsed.name == name && IsBuilt(w, parsed, ctx.mods)
    decreases Left(sources, path[1..]), 3
  {
    hide IsPath, IsOrder, AreDistinct, IsLoadable, Left, AreOpen, Context.Valid, IsSound, AreImports, Ordered, Declared, IsReadable;
    more' := more;
    NotEmpty(w, path);
    var src := sources[name];
    var imports: seq<Module> := [];
    NoImports(src.imports, ctx.mods);
    NotSound(src);
    RootIsThere(w, path);
    for k := 0 to |src.imports|
      invariant IsLoading(ctx, w, root, path, more') && AreOpen(path[1..], ctx.mods) && more <= more'
      invariant ctx.list == old(ctx.list) || fresh(ctx.list)
      invariant ctx.parsing == null || ctx.parsing == old(ctx.parsing) || fresh(ctx.parsing)
      invariant AreImports(imports, src.imports[..k], ctx.mods) && AreDistinct(src.imports[..k])
    {
      ghost var before := ctx.mods;
      var m;
      m, more' := FillImport(ctx, sources, src.imports[k], w, root, path, more');
      if m == null {
        return null, more';
      }
      NextImport(imports, src.imports, k, before, ctx.mods, m);
      var repeated := HasName(imports, m.name);
      if repeated {
        Unsound(w, root, path);
        return null, more';
      }
      imports := imports + [m];
    }
    assert src.imports[..|src.imports|] == src.imports;
    var readable, revs := ReadRevisions(src.statements);
    if !readable || !src.valid {
      Unsound(w, root, path);
      return null, more';
    }
    SoundSource(src);
    parsed := new Module(name, src.ns, revs[..], imports);
  }

  // ----- the outermost load ------------------------------------------------------------------

  /** Every import of a listed module is listed before it. */
  predicate IsClosed(mods: seq<Module>) {
    forall k, i :: 0 <= k < |mods| && 0 <= i < |mods[k].imports| ==> mods[k].imports[i] in mods[..k]
  }

  /** ly_ctx_load_module as a caller uses it. It ends on every import graph and succeeds exactly when the
      graph allows it; then the new modules are those below the root, each behind its imports, and the
      root is last, unless it was listed already. */
  method Load(ctx: Context, sources: map<string, Source>, root: string) returns (m: Module?, ghost more: seq<Module>)
    requires ctx.Valid() && ctx.stack == []
    modifies ctx, ctx.list, ctx.parsing
    ensures ctx.Valid() && ctx.stack == []
    ensures ctx.list == old(ctx.list) || fresh(ctx.list)
    ensures var w := World(sources, old(ctx.mods));
            && (m != null <==> IsLoadable(w, root))
            && IsOrder(w, root, more)
            && (m == null ==> ctx.mods == old(ctx.mods) + more)
            && (m != null ==> IsLoadResult(w, root, m, more, ctx.mods))
    ensures old(IsClosed(ctx.mods)) ==> IsClosed(ctx.mods)
  {
    hide IsOrder, IsLoadable, Context.Valid, IsBuilt, IsClosed, IsAddResult, IsLoadResult, AreOpen;
    ghost var w := World(sources, ctx.mods);
    StartOfLoad(w, root);
    ghost var built;
    m, more, built := LoadModule(ctx, sources, root, w, root, [root], []);
    if old(IsClosed(ctx.mods)) {
      OrderIsClosed(w, root, more);
    }
    ListIsConsistent(ctx);
    if built != null {
      RootResult(w, root, more, built, m, ctx.mods);
    }
  }

  lemma ListIsConsistent(ctx: Context)
    requires ctx.Valid()
    ensures IsConsistent(ctx.mods)
  {
  }

  /** What a successful load leaves. */
  ghost predicate IsLoadResult(w: World, root: string, m: Module, more: seq<Module>, mods: seq<Module>) {
    && root in w.sources && m in mods && m.name == root
    && mods == w.list + more + (if IsKnown(w, root) then [] else [m])
    && (if IsKnown(w, root) then IsSource(m, root, w.sources[root]) else IsBuilt(w, m, w.list + more))
    && (forall x :: IsLoaded(more, x) <==> IsBelow(w, root, x))
  }

  lemma StartOfLoad(w: World, root: string)
    ensures IsPath(w, [root]) && IsOrder(w, root, []) && AreOpen([root][1..], w.list) && AreDistinct([root][1..])
    ensures [root][1..] == [] && w.list == w.list + []
  {
  }

  /** The end of the outermost load. */
  lemma RootResult(w: World, root: string, more: seq<Module>, built: Module, m: Module?, mods': seq<Module>)
    requires IsOrder(w, root, more) && built.name == root && IsBuilt(w, built, w.list + more)
    requires IsAddResult(w.list + more, built, m, mods') && IsConsistent(mods')
    ensures m != null <==> IsLoadable(w, root)
    ensures m == null ==> mods' == w.list + more
    ensures m != null ==> IsLoadResult(w, root, m, more, mods')
    ensures IsClosed(w.list + more) ==> IsClosed(mods')
  {
    hide IsOrder, IsBuilt, FirstStop, IsKnown, HasImports, IsClosed, IsLoaded, IsBelow, Needs, HasGoodPaths, HasFreeNamespaces, IsUsable, IsConsistent;
    var mods := w.list + more;
    var i := FirstStop(mods, built);
    BuiltNs(w, built, mods);
    RootStop(w, root, more, built);
    if m == null {
      SinglePath(w, root);
      NeededIsNew(w, root, more, root);
      ClashNotLoadable(w, root, more, root, mods[i]);
    } else {
      forall x ensures IsLoaded(more, x) <==> IsBelow(w, root, x) {
        NeededIsNew(w, root, more, x);
      }
      if i == |mods| {
        assert built in mods';
        ClosedOneMore(w, built, mods);
      } else {
        assert mods + [] == mods;
      }
      GoodPaths(w, root, more);
      FreeNamespaces(w, root, more, mods');
    }
  }

  lemma {:induction false} OrderIsClosed(w: World, root: string, more: seq<Module>)
    requires IsOrder(w, root, more) && IsClosed(w.list)
    ensures IsClosed(w.list + more)
  {
    var mods := w.list + more;
    forall k, i | 0 <= k < |mods| && 0 <= i < |mods[k].imports| ensures mods[k].imports[i] in mods[..k] {
      if k < |w.list| {
        assert mods[..k] == w.list[..k];
      } else {
        assert IsNext(w, root, more, k - |w.list|);
        assert mods[..k] == w.list + more[..k - |w.list|];
      }
    }
  }

  lemma ClosedOneMore(w: World, m: Module, mods: seq<Module>)
    requires IsBuilt(w, m, mods)
    ensures IsClosed(mods) ==> IsClosed(mods + [m])
  {
    if IsClosed(mods) {
      var all := mods + [m];
      forall k, i | 0 <= k < |all| && 0 <= i < |all[k].imports| ensures all[k].imports[i] in all[..k] {
        assert k < |mods| ==> all[..k] == mods[..k];
        assert k == |mods| ==> all[..k] == mods;
      }
    }
  }

  // ----- why it is right ---------------------------------------------------------------------

  /** Importing a module that is being parsed is refused, and rightly so. */
  lemma CircularImport(w: World, root: string, path: seq<string>, mods: seq<Module>, value: string)
    requires IsPath(w, path) && path[0] == root && value in path[1..] && AreOpen(path[1..], mods) && w.list <= mods
    requires path[|path| - 1] in w.sources && value in w.sources[path[|path| - 1]].imports
    ensures !IsLoadable(w, root)
  {
    hide IsPath, IsLoadable, IsLoaded;
    NotEmpty(w, path);
    var i :| 0 <= i < |path| - 1 && path[1..][i] == value;
    NotLoadedBefore(w.list, mods, value);
    ExtendPath(w, path, value);
    var p := path + [value];
    assert p[1..][i] == value && p[1..][|path| - 1] == value;
    BadPath(w, root, p);
  }

  lemma NotLoadedBefore(list: seq<Module>, mods: seq<Module>, name: string)
    requires list <= mods && !IsLoaded(mods, name)
    ensures !IsLoaded(list, name)
  {
    assert forall i :: 0 <= i < |list| ==> list[i] == mods[i];
  }

  lemma NotListed(ctx: Context, name: string)
    requires ctx.Valid() && Newest(ctx.mods, ByName, name).None?
    ensures !IsLoaded(ctx.mods, name)
  {
    hide IsStack, IsLatestFirst;
    var mods := ctx.mods;
    NewestIsLatest(mods, ByName, name);
    assert forall i :: 0 <= i < |mods| ==> mods[i] in mods;
  }

  lemma OneFurther(w: World, root: string, path: seq<string>, mods: seq<Module>, value: string)
    requires IsPath(w, path) && path[0] == root && AreDistinct(path[1..]) && value !in path[1..] && w.list <= mods
    requires path[|path| - 1] in w.sources && value in w.sources[path[|path| - 1]].imports && !IsLoaded(mods, value)
    ensures IsPath(w, path + [value]) && (path + [value])[1..] == path[1..] + [value] && AreDistinct((path + [value])[1..])
    ensures IsBelow(w, root, value)
  {
    hide IsPath, IsLoaded;
    NotEmpty(w, path);
    NotLoadedBefore(w.list, mods, value);
    ExtendPath(w, path, value);
    assert (path + [value])[1..] == path[1..] + [value];
    assert IsPathBetween(w, path + [value], root, value);
  }

  /** What AddModule makes of a module. */
  predicate IsAddResult(mods: seq<Module>, built: Module, m: Module?, mods': seq<Module>) {
    var i := FirstStop(mods, built);
    if i == |mods| then m == built && mods' == mods + [built]
    else if IsSame(mods[i], built) then m == mods[i] && mods' == mods
    else m == null && mods' == mods
  }

  /** A nested load of a module that is not listed adds it, or finds its namespace taken. */
  lemma NestedResult(w: World, root: string, value: string, more: seq<Module>, built: Module, m: Module?, mods': seq<Module>)
    requires IsOrder(w, root, more) && IsBelow(w, root, value) && root in w.sources
    requires built.name == value && IsBuilt(w, built, w.list + more) && !IsLoaded(w.list + more, value)
    requires IsAddResult(w.list + more, built, m, mods')
    ensures m == null ==> mods' == w.list + more && !IsLoadable(w, root)
    ensures m != null ==> m == built && mods' == w.list + (more + [m]) && IsOrder(w, root, more + [m])
  {
    hide IsLoadable, IsBelow, IsBuilt, IsOrder, FirstStop;
    var mods := w.list + more;
    var i := FirstStop(mods, built);
    assert i < |mods| ==> mods[i].name != value;
    if i == |mods| {
      assert w.list + (more + [built]) == mods + [built];
      OneMore(w, root, more, built);
    } else {
      BuiltNs(w, built, mods);
      BelowIsAdded(w, root, value, mods);
      ClashNotLoadable(w, root, more, value, mods[i]);
    }
  }

  lemma BuiltNs(w: World, m: Module, before: seq<Module>)
    requires IsBuilt(w, m, before)
    ensures IsFrom(w, m) && IsUsable(w, m.name) && HasImports(w, m.name, before) && IsLatestFirst(m.revs)
  {
    BuiltHasImports(w, m, before);
    OrderedLatest(Declared(w.sources[m.name].statements));
  }

  lemma BelowIsAdded(w: World, root: string, x: string, mods: seq<Module>)
    requires IsBelow(w, root, x) && root in w.sources && x in w.sources && w.list <= mods && !IsLoaded(mods, x)
    ensures IsAdded(w, root, x)
  {
    hide IsPath, IsLoaded, IsKnown;
    NotLoadedBefore(w.list, mods, x);
    if IsKnown(w, root) {
      KnownIsLoaded(w, root);
    }
  }

  lemma OneMore(w: World, root: string, more: seq<Module>, m: Module)
    requires IsOrder(w, root, more) && IsBelow(w, root, m.name)
    requires IsBuilt(w, m, w.list + more) && !IsLoaded(w.list + more, m.name)
    ensures IsOrder(w, root, more + [m])
  {
    hide IsBelow, IsBuilt, IsLoaded;
    var all := more + [m];
    forall k | 0 <= k < |all| ensures IsNext(w, root, all, k) {
      assert all[..k] == more[..k];
      if k < |more| {
        assert IsNext(w, root, more, k);
      } else {
        assert all[..k] == more;
      }
    }
  }

  lemma OpenOneMore(names: seq<string>, name: string, mods: seq<Module>)
    requires AreOpen(names, mods) && !IsLoaded(mods, name)
    ensures AreOpen(names + [name], mods)
  {
  }

  lemma OpenOneLess(names: seq<string>, name: string, mods: seq<Module>, m: Module?)
    requires AreOpen(names + [name], mods) && name !in names
    ensures AreOpen(names, mods) && !IsLoaded(mods, name)
    ensures m != null && m.name == name ==> AreOpen(names, mods + [m])
  {
    var all := names + [name];
    assert all[|names|] == name;
    forall i | 0 <= i < |names| ensures !IsLoaded(mods, names[i]) && (m != null && m.name == name ==> !IsLoaded(mods + [m], names[i])) {
      assert all[i] == names[i] && names[i] in names;
      if m != null {
        LoadedIn(mods, [m], names[i]);
      }
    }
  }

  lemma RootIsThere(w: World, path: seq<string>)
    requires IsPath(w, path) && path[|path| - 1] in w.sources
    ensures path[0] in w.sources
  {
    if |path| > 1 {
      RestOfPath(w, path);
    }
  }

  lemma Unsound(w: World, root: string, path: seq<string>)
    requires IsPath(w, path) && path[0] == root && path[|path| - 1] in w.sources && !IsSound(w.sources[path[|path| - 1]])
    ensures !IsLoadable(w, root)
  {
    hide IsPath, IsSound;
    BadPath(w, root, path);
  }

  // ----- the imports of a module -------------------------------------------------------------

  /** The search for a module imported twice. */
  method HasName(imports: seq<Module>, name: string) returns (found: bool)
    ensures found <==> exists i :: 0 <= i < |imports| && imports[i].name == name
  {
    for i := 0 to |imports|
      invariant forall k :: 0 <= k < i ==> imports[k].name != name
    {
      if imports[i].name == name {
        return true;
      }
    }
    return false;
  }

  lemma NoImports(names: seq<string>, mods: seq<Module>)
    ensures AreImports([], names[..0], mods) && AreDistinct(names[..0])
  {
  }

  /** One more import is there; the list has only grown. */
  lemma NextImport(imports: seq<Module>, names: seq<string>, k: nat, before: seq<Module>, mods: seq<Module>, m: Module)
    requires k < |names| && AreImports(imports, names[..k], before) && AreDistinct(names[..k])
    requires before <= mods && m in mods && m.name == names[k]
    ensures AreImports(imports + [m], names[..k + 1], mods)
    ensures if exists i :: 0 <= i < |imports| && imports[i].name == m.name then !AreDistinct(names) else AreDistinct(names[..k + 1])
  {
    var all, u := imports + [m], names[..k + 1];
    forall i | 0 <= i < |u| ensures all[i] in mods && all[i].name == u[i] {
      if i < k {
        assert imports[i] in before && names[..k][i] == u[i];
      }
    }
    forall i | 0 <= i < k ensures u[i] == names[..k][i] == imports[i].name {
    }
  }

  lemma SoundSource(src: Source)
    requires src.valid && (forall s :: s in src.statements ==> IsReadable(s)) && AreDistinct(src.imports)
    ensures IsSound(src)
  {
  }

  lemma NotSound(src: Source)
    ensures !src.valid || !(forall s :: s in src.statements ==> IsReadable(s)) || !AreDistinct(src.imports) ==> !IsSound(src)
  {
  }
}

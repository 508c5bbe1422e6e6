/** Which modules can be loaded: import paths through the modules that are not loaded yet, and what a list
    of freshly loaded modules says about them (fill_yin_import and yin_read_module in src/parser_yin.c). */
module Imports {
  import opened Revisions
  import opened ModuleList

  /** What is found under a module name: its namespace, revision statements and import names; `valid` is
      everything else the parser checks. */
  datatype Source = Source(ns: string, statements: seq<Statement>, imports: seq<string>, valid: bool)

  /** The sources there are, and the modules loaded before. */
  datatype World = World(sources: map<string, Source>, list: seq<Module>)

  predicate IsLoaded(mods: seq<Module>, name: string) {
    exists i :: 0 <= i < |mods| && mods[i].name == name
  }

  predicate AreDistinct(names: seq<string>) {
    forall i, j :: 0 <= i < j < |names| ==> names[i] != names[j]
  }

  predicate IsSound(src: Source) {
    src.valid && (forall s :: s in src.statements ==> IsReadable(s)) && AreDistinct(src.imports)
  }

  predicate IsUsable(w: World, name: string) {
    name in w.sources && IsSound(w.sources[name])
  }

  // ----- paths -------------------------------------------------------------------------------

  predicate IsStep(w: World, a: string, b: string) {
    a in w.sources && b in w.sources[a].imports && !IsLoaded(w.list, b)
  }

  /** A chain of imports, all but its start not loaded yet. */
  ghost predicate IsPath(w: World, p: seq<string>) {
    p != [] && forall i, j {:trigger p[i], p[j]} :: 0 <= i && j == i + 1 && j < |p| ==> IsStep(w, p[i], p[j])
  }

  ghost predicate IsPathBetween(w: World, p: seq<string>, from: string, end: string) {
    IsPath(w, p) && p[0] == from && p[|p| - 1] == end
  }

  /** `x` is among the modules that loading `root` asks for. */
  ghost predicate Needs(w: World, root: string, x: string) {
    exists p :: IsPathBetween(w, p, root, x)
  }

  /** `x` is reached from `root` by at least one import. */
  ghost predicate IsBelow(w: World, root: string, x: string) {
    exists p :: IsPathBetween(w, p, root, x) && |p| > 1
  }

  /** The list holds the same module already, and nothing before it clashes. */
  predicate IsKnown(w: World, root: string)
    requires root in w.sources
  {
    exists i :: 0 <= i < |w.list| && IsSource(w.list[i], root, w.sources[root])
      && forall j :: 0 <= j < i ==> !(w.list[j].name != root && w.list[j].ns == w.sources[root].ns)
  }

  predicate IsSource(m: Module, name: string, src: Source) {
    var revs := Ordered(Declared(src.statements));
    m.name == name && |m.revs| == |revs| && (revs == [] || m.revs[0].date == revs[0].date)
  }

  /** Loading `root` has to add `x`. */
  ghost predicate IsAdded(w: World, root: string, x: string) {
    Needs(w, root, x) && root in w.sources && x in w.sources && !(x == root && IsKnown(w, root))
  }

  /** Every module on an import path is there and sound, and no path comes to a module twice. */
  ghost predicate HasGoodPaths(w: World, root: string) {
    forall p :: IsPath(w, p) && p[0] == root ==> IsUsable(w, p[|p| - 1]) && AreDistinct(p[1..])
  }

  /** No namespace is taken by another module, loaded or to be added. */
  ghost predicate HasFreeNamespaces(w: World, root: string) {
    && (forall x, i :: 0 <= i < |w.list| && IsAdded(w, root, x) ==> w.list[i].name == x || w.list[i].ns != w.sources[x].ns)
    && (forall x, y :: IsAdded(w, root, x) && IsAdded(w, root, y) ==> x == y || w.sources[x].ns != w.sources[y].ns)
  }

  ghost predicate IsLoadable(w: World, root: string) {
    HasGoodPaths(w, root) && HasFreeNamespaces(w, root)
  }

  lemma ExtendPath(w: World, p: seq<string>, x: string)
    requires IsPath(w, p) && IsStep(w, p[|p| - 1], x)
    ensures IsPath(w, p + [x]) && (p + [x])[0] == p[0]
  {
    hide IsStep;
    var q := p + [x];
    forall i, j | 0 <= i && j == i + 1 && j < |q| ensures IsStep(w, q[i], q[j]) {
      assert j < |p| ==> q[i] == p[i] && q[j] == p[j];
      assert j == |p| ==> q[i] == p[|p| - 1] && q[j] == x;
    }
  }

  lemma RestOfPath(w: World, p: seq<string>)
    requires IsPath(w, p) && |p| > 1
    ensures IsPath(w, p[1..]) && IsStep(w, p[0], p[1])
  {
    hide IsStep;
    var q := p[1..];
    forall i, j | 0 <= i && j == i + 1 && j < |q| ensures IsStep(w, q[i], q[j]) {
      assert q[i] == p[i + 1] && q[j] == p[j + 1];
    }
  }

  lemma SubPath(w: World, p: seq<string>, i: nat, j: nat)
    requires IsPath(w, p) && i < j <= |p|
    ensures IsPath(w, p[i..j])
  {
    hide IsStep;
    var q := p[i..j];
    forall a, b | 0 <= a && b == a + 1 && b < |q| ensures IsStep(w, q[a], q[b]) {
      assert q[a] == p[i + a] && q[b] == p[i + b];
    }
  }

  lemma JoinPaths(w: World, p: seq<string>, q: seq<string>)
    requires IsPath(w, p) && IsPath(w, q) && p[|p| - 1] == q[0]
    ensures IsPath(w, p + q[1..])
  {
    hide IsStep;
    var r := p + q[1..];
    forall i, j | 0 <= i && j == i + 1 && j < |r| ensures IsStep(w, r[i], r[j]) {
      assert j < |p| ==> r[i] == p[i] && r[j] == p[j];
      assert j >= |p| ==> r[i] == q[i - |p| + 1] && r[j] == q[j - |p| + 1];
    }
  }

  /** No module below the root imports its way back to itself. */
  ghost predicate HasNoCycle(w: World, root: string) {
    forall x :: IsBelow(w, root, x) ==> !IsBelow(w, x, x)
  }

  /** The paths are good exactly when all needed modules are there and sound, and there is no circular
      import among them. */
  lemma GoodPathsMeaning(w: World, root: string)
    ensures HasGoodPaths(w, root) <==> HasNoCycle(w, root) && forall x :: Needs(w, root, x) ==> IsUsable(w, x)
  {
    hide IsStep, IsUsable, AreDistinct;
    if HasGoodPaths(w, root) {
      forall x | IsBelow(w, root, x) && IsBelow(w, x, x) ensures false {
        CycleRepeats(w, root, x);
      }
    }
    if HasNoCycle(w, root) && forall x :: Needs(w, root, x) ==> IsUsable(w, x) {
      forall p | IsPath(w, p) && p[0] == root ensures IsUsable(w, p[|p| - 1]) && AreDistinct(p[1..]) {
        NotEmpty(w, p);
        assert IsPathBetween(w, p, root, p[|p| - 1]);
        NoRepetition(w, root, p);
      }
    }
  }

  lemma CycleRepeats(w: World, root: string, x: string)
    requires IsBelow(w, root, x) && IsBelow(w, x, x)
    ensures !HasGoodPaths(w, root)
  {
    hide IsPath, IsUsable;
    var p :| IsPathBetween(w, p, root, x) && |p| > 1;
    var q :| IsPathBetween(w, q, x, x) && |q| > 1;
    var r := p + q[1..];
    JoinPaths(w, p, q);
    assert r[1..][|p| - 2] == x && r[1..][|r| - 2] == x;
    assert r[0] == root && !AreDistinct(r[1..]);
  }

  lemma NoRepetition(w: World, root: string, p: seq<string>)
    requires HasNoCycle(w, root) && IsPath(w, p) && p[0] == root
    ensures AreDistinct(p[1..])
  {
    hide IsPath;
    NotEmpty(w, p);
    forall i, j | 0 <= i < j < |p[1..]| ensures p[1..][i] != p[1..][j] {
      if p[1..][i] == p[1..][j] {
        Repetition(w, root, p, i, j);
      }
    }
  }

  lemma Repetition(w: World, root: string, p: seq<string>, i: nat, j: nat)
    requires IsPath(w, p) && p[0] == root && i < j < |p| - 1 && p[i + 1] == p[j + 1]
    ensures IsBelow(w, root, p[i + 1]) && IsBelow(w, p[i + 1], p[i + 1])
  {
    hide IsPath;
    var x := p[i + 1];
    SubPath(w, p, 0, i + 2);
    SubPath(w, p, i + 1, j + 2);
    assert IsPathBetween(w, p[0..i + 2], root, x);
    assert IsPathBetween(w, p[i + 1..j + 2], x, x);
  }

  lemma NotEmpty(w: World, p: seq<string>)
    requires IsPath(w, p)
    ensures p != []
  {
  }

  // ----- the modules loaded so far -----------------------------------------------------------

  /** `m` is what the source says, its imports found among `before`. */
  predicate IsBuilt(w: World, m: Module, before: seq<Module>) {
    m.name in w.sources
    && var src := w.sources[m.name];
    && IsSound(src) && m.ns == src.ns && m.revs == Ordered(Declared(src.statements))
    && AreImports(m.imports, src.imports, before)
  }

  /** The modules stand for the names, and all come from `before`. */
  predicate AreImports(imports: seq<Module>, names: seq<string>, before: seq<Module>) {
    |imports| == |names| && forall i :: 0 <= i < |names| ==> imports[i] in before && imports[i].name == names[i]
  }

  /** `new` is a loading order: each module was asked for, was not there, and comes behind its imports. */
  ghost predicate IsOrder(w: World, root: string, more: seq<Module>) {
    forall k :: 0 <= k < |more| ==> IsNext(w, root, more, k)
  }

  ghost predicate IsNext(w: World, root: string, more: seq<Module>, k: nat)
    requires k < |more|
  {
    && !IsLoaded(w.list + more[..k], more[k].name)
    && IsBelow(w, root, more[k].name)
    && IsBuilt(w, more[k], w.list + more[..k])
  }

  lemma LoadedIn(a: seq<Module>, b: seq<Module>, name: string)
    ensures IsLoaded(a + b, name) <==> IsLoaded(a, name) || IsLoaded(b, name)
  {
    var c := a + b;
    assert forall i :: 0 <= i < |c| ==> c[i] == if i < |a| then a[i] else b[i - |a|];
    if i :| 0 <= i < |a| && a[i].name == name {
      assert (a + b)[i] == a[i];
    }
    if i :| 0 <= i < |b| && b[i].name == name {
      assert (a + b)[|a| + i] == b[i];
    }
    if i :| 0 <= i < |a + b| && (a + b)[i].name == name {
      assert if i < |a| then a[i].name == name else b[i - |a|].name == name;
    }
  }

  /** All imports of `x` are loaded. */
  predicate HasImports(w: World, x: string, mods: seq<Module>) {
    x in w.sources && forall i :: 0 <= i < |w.sources[x].imports| ==> IsLoaded(mods, w.sources[x].imports[i])
  }

  lemma BuiltHasImports(w: World, m: Module, mods: seq<Module>)
    requires IsBuilt(w, m, mods)
    ensures HasImports(w, m.name, mods) && IsUsable(w, m.name)
  {
    var names := w.sources[m.name].imports;
    forall i | 0 <= i < |names| ensures IsLoaded(mods, names[i]) {
      assert m.imports[i] in mods;
    }
  }

  /** A step from a module whose imports are there leads to one of the first `n` new modules. */
  lemma StepInto(w: World, root: string, more: seq<Module>, n: nat, a: string, b: string) returns (k: nat)
    requires n <= |more| && HasImports(w, a, w.list + more[..n]) && IsStep(w, a, b)
    ensures k < n && more[k].name == b
  {
    LoadedIn(w.list, more[..n], b);
    k :| k < n && more[..n][k].name == b;
  }

  /** From a module whose imports are among the first `n` new modules, paths stay among them, and never
      come to one twice. */
  lemma {:induction false} Descends(w: World, root: string, more: seq<Module>, n: nat, p: seq<string>)
    requires IsOrder(w, root, more) && n <= |more| && IsPath(w, p) && HasImports(w, p[0], w.list + more[..n])
    ensures forall i :: 1 <= i < |p| ==> IsLoaded(more[..n], p[i]) && IsUsable(w, p[i])
    ensures AreDistinct(p[1..])
    decreases |p|
  {
    hide HasImports, IsStep, IsBuilt, IsBelow, IsUsable, IsPath;
    NotEmpty(w, p);
    if |p| > 1 {
      RestOfPath(w, p);
      var k := StepInto(w, root, more, n, p[0], p[1]);
      var q := p[1..];
      assert IsNext(w, root, more, k);
      BuiltHasImports(w, more[k], w.list + more[..k]);
      Descends(w, root, more, k, q);
      LoadedIn(w.list, more[..k], p[1]);
      forall i | 1 <= i < |p| ensures IsLoaded(more[..n], p[i]) && IsUsable(w, p[i]) {
        if i == 1 {
          assert more[..n][k].name == p[1];
        } else {
          assert p[i] == q[i - 1];
          PrefixLoaded(more, k, n, p[i]);
        }
      }
      DistinctFirst(q, more[..k]);
    }
  }

  lemma PrefixLoaded(mods: seq<Module>, k: nat, n: nat, name: string)
    requires k <= n <= |mods| && IsLoaded(mods[..k], name)
    ensures IsLoaded(mods[..n], name)
  {
    var i :| 0 <= i < k && mods[..k][i].name == name;
    assert mods[..n][i].name == name;
  }

  lemma DistinctFirst(q: seq<string>, mods: seq<Module>)
    requires q != [] && AreDistinct(q[1..]) && !IsLoaded(mods, q[0])
    requires forall i :: 1 <= i < |q| ==> IsLoaded(mods, q[i])
    ensures AreDistinct(q)
  {
    hide IsLoaded;
    forall i, j | 0 <= i < j < |q| ensures q[i] != q[j] {
      if i > 0 {
        assert q[1..][i - 1] == q[i] && q[1..][j - 1] == q[j];
      }
    }
  }

  /** The module asked for is never among those loaded on its behalf. */
  lemma RootNotNested(w: World, root: string, more: seq<Module>)
    requires IsOrder(w, root, more)
    ensures !IsLoaded(more, root)
  {
    hide IsBuilt, IsPath, IsStep;
    if k: nat :| k < |more| && more[k].name == root {
      assert IsNext(w, root, more, k);
      var p :| IsPathBetween(w, p, root, root) && |p| > 1;
      BuiltHasImports(w, more[k], w.list + more[..k]);
      Descends(w, root, more, k, p);
      LoadedIn(w.list, more[..k], root);
      assert IsLoaded(more[..k], p[|p| - 1]);
    }
  }

  /** Behind a complete order the needed modules are the root and the new ones. */
  lemma NeededIsNew(w: World, root: string, more: seq<Module>, x: string)
    requires IsOrder(w, root, more) && HasImports(w, root, w.list + more)
    ensures IsBelow(w, root, x) <==> IsLoaded(more, x)
    ensures Needs(w, root, x) <==> x == root || IsLoaded(more, x)
  {
    hide IsBuilt, IsPath, IsStep, HasImports;
    assert more[..|more|] == more;
    if p :| IsPathBetween(w, p, root, x) && |p| > 1 {
      Descends(w, root, more, |more|, p);
    }
    if k: nat :| k < |more| && more[k].name == x {
      assert IsNext(w, root, more, k);
    }
    SinglePath(w, root);
    if p :| IsPathBetween(w, p, root, x) {
      NotEmpty(w, p);
      assert |p| == 1 ==> x == root;
    }
  }

  lemma SinglePath(w: World, root: string)
    ensures IsPathBetween(w, [root], root, root)
  {
  }

  lemma GoodPaths(w: World, root: string, more: seq<Module>)
    requires IsOrder(w, root, more) && HasImports(w, root, w.list + more) && IsUsable(w, root)
    ensures HasGoodPaths(w, root)
  {
    hide IsBuilt, IsStep, HasImports, AreDistinct, IsUsable;
    assert more[..|more|] == more;
    forall p | IsPath(w, p) && p[0] == root ensures IsUsable(w, p[|p| - 1]) && AreDistinct(p[1..]) {
      Descends(w, root, more, |more|, p);
      assert |p| > 1 ==> IsUsable(w, p[|p| - 1]);
    }
  }

  /** A path that ends badly or comes back to a module keeps the root from being loaded. */
  lemma BadPath(w: World, root: string, p: seq<string>)
    requires IsPath(w, p) && p[0] == root && (!IsUsable(w, p[|p| - 1]) || !AreDistinct(p[1..]))
    ensures !IsLoadable(w, root)
  {
    hide IsPath, IsUsable, AreDistinct;
  }

  // ----- namespaces --------------------------------------------------------------------------

  lemma KnownIsLoaded(w: World, root: string)
    requires root in w.sources && IsKnown(w, root)
    ensures IsLoaded(w.list, root)
  {
  }

  /** A new module is one that has to be added. */
  lemma NewIsAdded(w: World, root: string, more: seq<Module>, k: nat)
    requires IsOrder(w, root, more) && k < |more| && root in w.sources
    ensures var m := more[k];
            m.name in w.sources && m.ns == w.sources[m.name].ns && IsAdded(w, root, m.name)
  {
    hide IsPath, IsStep, IsKnown;
    assert IsNext(w, root, more, k);
    LoadedIn(w.list, more[..k], more[k].name);
    if IsKnown(w, root) {
      KnownIsLoaded(w, root);
    }
  }

  /** A module that cannot be listed because of its namespace keeps the root from being loaded. */
  lemma ClashNotLoadable(w: World, root: string, more: seq<Module>, x: string, c: Module)
    requires IsOrder(w, root, more) && IsAdded(w, root, x)
    requires c in w.list + more && c.name != x && c.ns == w.sources[x].ns
    ensures !IsLoadable(w, root)
  {
    hide IsPath, IsStep, IsKnown, IsAdded, IsNext, HasGoodPaths;
    RootHasSource(w, root, x);
    if i :| 0 <= i < |w.list| && w.list[i] == c {
      assert !HasFreeNamespaces(w, root);
    } else {
      var k :| 0 <= k < |more| && more[k] == c;
      NewIsAdded(w, root, more, k);
    }
  }

  lemma RootHasSource(w: World, root: string, x: string)
    requires IsAdded(w, root, x)
    ensures root in w.sources && x in w.sources
  {
  }

  /** A complete order without clashes. */
  lemma FreeNamespaces(w: World, root: string, more: seq<Module>, all: seq<Module>)
    requires IsOrder(w, root, more) && HasImports(w, root, w.list + more) && root in w.sources
    requires IsConsistent(all) && forall m :: m in w.list + more ==> m in all
    requires !IsKnown(w, root) ==> exists m :: m in all && m.name == root && m.ns == w.sources[root].ns
    ensures HasFreeNamespaces(w, root)
  {
    hide IsPath, IsStep, IsKnown, IsAdded, IsNext, HasImports, IsOrder, IsConsistent;
    forall x, i | 0 <= i < |w.list| && x in w.sources && IsAdded(w, root, x)
      ensures w.list[i].name == x || w.list[i].ns != w.sources[x].ns {
      var m := Holder(w, root, more, all, x);
      assert w.list[i] in w.list + more;
      NoClash(all, w.list[i], m);
    }
    forall x, y | x in w.sources && y in w.sources && IsAdded(w, root, x) && IsAdded(w, root, y)
      ensures x == y || w.sources[x].ns != w.sources[y].ns {
      var a := Holder(w, root, more, all, x);
      var b := Holder(w, root, more, all, y);
      NoClash(all, a, b);
    }
    AddedHasSource(w, root);
  }

  lemma AddedHasSource(w: World, root: string)
    ensures forall x :: IsAdded(w, root, x) ==> x in w.sources
  {
  }

  /** The module in the list that was added under a name. */
  lemma Holder(w: World, root: string, more: seq<Module>, all: seq<Module>, x: string) returns (m: Module)
    requires IsOrder(w, root, more) && HasImports(w, root, w.list + more) && IsAdded(w, root, x)
    requires forall m :: m in w.list + more ==> m in all
    requires root in w.sources && (!IsKnown(w, root) ==> exists m :: m in all && m.name == root && m.ns == w.sources[root].ns)
    ensures x in w.sources && m in all && m.name == x && m.ns == w.sources[x].ns
  {
    hide IsPath, IsStep, IsKnown, HasImports, IsNext, IsOrder, Needs;
    NeededIsNew(w, root, more, x);
    if x == root {
      m :| m in all && m.name == root && m.ns == w.sources[root].ns;
    } else {
      var k :| 0 <= k < |more| && more[k].name == x;
      m := more[k];
      assert m in w.list + more;
      NewIsAdded(w, root, more, k);
    }
  }

  // ----- the root ----------------------------------------------------------------------------

  predicate IsFrom(w: World, m: Module) {
    m.name in w.sources && m.ns == w.sources[m.name].ns && m.revs == Ordered(Declared(w.sources[m.name].statements))
  }

  /** What stops the root, if anything: it is known exactly when the first stop is the same module. */
  lemma RootStop(w: World, root: string, more: seq<Module>, m: Module)
    requires IsOrder(w, root, more) && m.name == root && IsFrom(w, m)
    ensures var mods := w.list + more; var i := FirstStop(mods, m);
            IsKnown(w, root) <==> i < |mods| && IsSame(mods[i], m)
  {
    hide IsOrder, IsNext, Ordered, Declared, FirstStop, IsLatestFirst;
    var mods := w.list + more;
    var i := FirstStop(mods, m);
    RootOnlyListed(w, root, more, m);
    if IsKnown(w, root) {
      var k :| 0 <= k < |w.list| && IsSource(w.list[k], root, w.sources[root])
        && forall j :: 0 <= j < k ==> !(w.list[j].name != root && w.list[j].ns == w.sources[root].ns);
      assert IsSame(mods[k], m);
      assert i < k ==> !IsClash(mods[i], m);
    }
    if i < |mods| && IsSame(mods[i], m) {
      assert forall j :: 0 <= j < i ==> !IsClash(mods[j], m);
    }
  }

  /** Only modules listed before can be the same as the root. */
  lemma RootOnlyListed(w: World, root: string, more: seq<Module>, m: Module)
    requires IsOrder(w, root, more) && m.name == root && IsFrom(w, m)
    ensures var mods := w.list + more;
            && (forall k :: 0 <= k < |w.list| ==> mods[k] == w.list[k] && IsSame(mods[k], m) == IsSource(mods[k], root, w.sources[root]))
            && (forall k :: |w.list| <= k < |mods| ==> !IsSame(mods[k], m))
  {
    hide IsOrder, IsNext, Ordered, Declared, FirstStop;
    RootNotNested(w, root, more);
    var mods := w.list + more;
    assert forall k :: |w.list| <= k < |mods| ==> mods[k] == more[k - |w.list|];
  }
}

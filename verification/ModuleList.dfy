/** The modules of a context and the names being parsed: src/context.c, and the parts of src/parser_yin.c
    that change them. */
module ModuleList {
  import opened CStrings
  import opened Revisions

  /** A parsed module; nothing of it changes once it is complete. */
  class Module {
    const name: string
    const ns: string
    const revs: seq<Revision>
    const imports: seq<Module>

    constructor (name: string, ns: string, revs: seq<Revision>, imports: seq<Module>)
      ensures this.name == name && this.ns == ns && this.revs == revs && this.imports == imports
    {
      this.name, this.ns, this.revs, this.imports := name, ns, revs, imports;
    }
  }

  // ----- adding a module ---------------------------------------------------------------------

  /** Name, number of revisions and latest revision agree. */
  predicate IsSame(a: Module, b: Module) {
    a.name == b.name && |a.revs| == |b.revs| && (b.revs == [] || a.revs[0].date == b.revs[0].date)
  }

  predicate IsClash(a: Module, b: Module) {
    a.name != b.name && a.ns == b.ns
  }

  /** The first module that keeps `m` from being added, or the end of the list. */
  function FirstStop(mods: seq<Module>, m: Module): (i: nat)
    ensures i <= |mods|
    ensures i < |mods| ==> IsSame(mods[i], m) || IsClash(mods[i], m)
    ensures forall k :: 0 <= k < i ==> !IsSame(mods[k], m) && !IsClash(mods[k], m)
  {
    if mods == [] || IsSame(mods[0], m) || IsClash(mods[0], m) then 0 else 1 + FirstStop(mods[1..], m)
  }

  /** No module is listed twice, and modules with different names have different namespaces. */
  predicate IsConsistent(mods: seq<Module>) {
    && (forall i :: 0 <= i < |mods| ==> IsLatestFirst(mods[i].revs))
    && (forall i, j :: 0 <= i < j < |mods| ==> !IsSame(mods[i], mods[j]) && !IsClash(mods[i], mods[j]))
  }

  lemma AddKeepsConsistent(mods: seq<Module>, m: Module)
    requires IsConsistent(mods) && IsLatestFirst(m.revs) && FirstStop(mods, m) == |mods|
    ensures IsConsistent(mods + [m])
  {
    hide IsLatestFirst, FirstStop;
  }

  /** Modules that share a namespace share their name. */
  lemma NoClash(all: seq<Module>, a: Module, b: Module)
    requires IsConsistent(all) && a in all && b in all
    ensures a.name == b.name || a.ns != b.ns
  {
    hide IsLatestFirst;
    var i :| 0 <= i < |all| && all[i] == a;
    var j :| 0 <= j < |all| && all[j] == b;
    assert i < j ==> !IsClash(all[i], all[j]);
    assert j < i ==> !IsClash(all[j], all[i]);
  }

  /** Adding what is there already finds the entry that is there. */
  lemma ReaddFindsEntry(mods: seq<Module>, k: nat, m: Module)
    requires IsConsistent(mods) && k < |mods| && IsSame(mods[k], m) && mods[k].ns == m.ns
    ensures FirstStop(mods, m) == k
  {
    hide IsLatestFirst, FirstStop;
    forall j | 0 <= j < k ensures !IsSame(mods[j], m) && !IsClash(mods[j], m) {
      assert !IsSame(mods[j], mods[k]) && !IsClash(mods[j], mods[k]);
    }
  }

  // ----- looking a module up -----------------------------------------------------------------

  /** The field ly_ctx_get_module_by compares. */
  datatype Key = ByName | ByNs

  function KeyOf(m: Module, sel: Key): string {
    if sel.ByName? then m.name else m.ns
  }

  /** The result of a lookup without a revision. */
  function Newest(mods: seq<Module>, sel: Key, key: string): (r: Option<Module>)
    ensures r.Some? ==> r.value in mods && KeyOf(r.value, sel) == key
  {
    if mods == [] then None
    else
      var m := mods[|mods| - 1];
      var rest := Newest(mods[..|mods| - 1], sel, key);
      if KeyOf(m, sel) != key || (rest.Some? && !IsNewer(m, rest.value)) then rest else Some(m)
  }

  /** A later entry takes the place of an earlier one. */
  predicate IsNewer(m: Module, prev: Module) {
    m.revs != [] && (prev.revs == [] || StrCmp(m.revs[0].date, prev.revs[0].date) >= 0)
  }

  /** No revision of `m` is later than the first one of `r`; where `r` has none, `m` has none. */
  predicate IsNoLater(m: Module, r: Module) {
    if r.revs == [] then m.revs == [] else forall i :: 0 <= i < |m.revs| ==> StrCmp(m.revs[i].date, r.revs[0].date) <= 0
  }

  /** The module found has the latest revision of all that match; one without revisions is found only
      where no match has any. */
  lemma {:induction false} NewestIsLatest(mods: seq<Module>, sel: Key, key: string)
    requires forall m :: m in mods ==> IsLatestFirst(m.revs)
    ensures var r := Newest(mods, sel, key);
            if r.None? then forall m :: m in mods ==> KeyOf(m, sel) != key
            else forall m :: m in mods && KeyOf(m, sel) == key ==> IsNoLater(m, r.value)
  {
    hide StrCmp, IsNoLater, IsLatestFirst, IsNewer;
    if mods != [] {
      var front, last := mods[..|mods| - 1], mods[|mods| - 1];
      assert mods == front + [last];
      NewestIsLatest(front, sel, key);
      var rest, r := Newest(front, sel, key), Newest(mods, sel, key);
      forall m | m in mods && r.Some? && KeyOf(m, sel) == key ensures IsNoLater(m, r.value) {
        if m == last {
          LastOrEarlier(last, if rest.Some? then rest.value else last);
        } else if rest.Some? {
          LastOrEarlier(last, rest.value);
          NoLaterThanNewer(m, rest.value, r.value);
        }
      }
    }
  }

  lemma LastOrEarlier(last: Module, rest: Module)
    requires IsLatestFirst(last.revs)
    ensures IsNoLater(last, last)
    ensures !IsNewer(last, rest) ==> IsNoLater(last, rest)
  {
    if !IsNewer(last, rest) && rest.revs != [] {
      forall i | 0 <= i < |last.revs| ensures StrCmp(last.revs[i].date, rest.revs[0].date) <= 0 {
        StrCmpTransitive(last.revs[i].date, last.revs[0].date, rest.revs[0].date);
      }
    }
  }

  lemma NoLaterThanNewer(m: Module, rest: Module, r: Module)
    requires IsNoLater(m, rest) && (r == rest || IsNewer(r, rest))
    ensures IsNoLater(m, r)
  {
    if r != rest && rest.revs != [] {
      StrCmpReverse(r.revs[0].date, rest.revs[0].date);
      forall i | 0 <= i < |m.revs| ensures StrCmp(m.revs[i].date, r.revs[0].date) <= 0 {
        StrCmpTransitive(m.revs[i].date, rest.revs[0].date, r.revs[0].date);
      }
    }
  }

  /** A lookup by name or by namespace finds a module with that name or namespace; in the order of strings,
      and so of the calendar, no revision of any other is later than its first one. */
  lemma NewestByField(mods: seq<Module>, key: string)
    requires forall m :: m in mods ==> IsLatestFirst(m.revs)
    ensures var r := Newest(mods, ByName, key);
            if r.None? then forall m :: m in mods ==> m.name != key
            else r.value in mods && r.value.name == key && forall m :: m in mods && m.name == key ==> IsNewestOf(r.value, m)
    ensures var r := Newest(mods, ByNs, key);
            if r.None? then forall m :: m in mods ==> m.ns != key
            else r.value in mods && r.value.ns == key && forall m :: m in mods && m.ns == key ==> IsNewestOf(r.value, m)
  {
    hide Newest, IsNoLater, IsNewestOf, IsLatestFirst;
    NewestIsLatest(mods, ByName, key);
    NewestIsLatest(mods, ByNs, key);
    forall m, r | m in mods && IsNoLater(m, r) ensures IsNewestOf(r, m) {
      NoLaterInOrder(m, r);
    }
  }

  predicate IsNewestOf(r: Module, m: Module) {
    && (r.revs == [] ==> m.revs == [])
    && (forall x :: x in m.revs ==> r.revs != [] && !IsBefore(r.revs[0].date, x.date))
    && (forall x :: x in m.revs && IsDate(x.date) && r.revs != [] && IsDate(r.revs[0].date) ==>
          !IsEarlier(DayOf(r.revs[0].date), DayOf(x.date)))
  }

  lemma NoLaterInOrder(m: Module, r: Module)
    requires IsNoLater(m, r)
    ensures IsNewestOf(r, m)
  {
    hide StrCmp, IsBefore, DayOf, IsEarlier;
    forall x | x in m.revs
      ensures r.revs != [] && !IsBefore(r.revs[0].date, x.date)
      ensures IsDate(x.date) && IsDate(r.revs[0].date) ==> !IsEarlier(DayOf(r.revs[0].date), DayOf(x.date))
    {
      var i :| 0 <= i < |m.revs| && m.revs[i] == x;
      StrCmpIsOrder(x.date, r.revs[0].date);
      if IsDate(x.date) && IsDate(r.revs[0].date) {
        StrCmpOfDates(r.revs[0].date, x.date);
        StrCmpIsOrder(r.revs[0].date, x.date);
      }
    }
  }

  /** The match of a lookup with a revision. */
  predicate IsRevision(m: Module, sel: Key, key: string, date: string) {
    KeyOf(m, sel) == key && m.revs != [] && m.revs[0].date == date
  }

  // ----- the context -------------------------------------------------------------------------

  class Context {
    var list: array<Module?>
    var size: nat
    var used: nat
    var parsing: array?<Option<string>>  // ends in None
    ghost var mods: seq<Module>    // the modules listed
    ghost var stack: seq<string>   // the names in `parsing`

    /** Slots below `used` are filled and the rest is empty; `parsing` is there only while it holds names. */
    ghost predicate Valid()
      reads this, list, parsing
    {
      && 0 < size == list.Length && used == |mods| <= size
      && (forall i :: 0 <= i < used ==> list[i] == mods[i])
      && (forall i :: used <= i < size ==> list[i] == null)
      && IsConsistent(mods)
      && (if parsing == null then stack == [] else stack != [] && IsStack(parsing[..], stack))
    }

    /** ly_ctx_new, before its built-in modules are added. */
    constructor ()
      ensures Valid() && mods == [] && stack == [] && fresh(list) && size == 16
    {
      list := new Module?[16](_ => null);
      size, used, parsing, mods, stack := 16, 0, null, [], [];
    }

    /** The end of yin_read_module: the module is added, found to be listed already, or refused. */
    method AddModule(m: Module) returns (r: Module?)
      requires Valid() && IsLatestFirst(m.revs)
      modifies this, list
      ensures Valid() && stack == old(stack) && parsing == old(parsing) && (list == old(list) || fresh(list))
      ensures size == if old(used) == old(size) then 2 * old(size) else old(size)
      ensures var i := FirstStop(old(mods), m);
              if i == |old(mods)| then r == m && mods == old(mods) + [m]
              else if IsSame(old(mods)[i], m) then r == old(mods)[i] && mods == old(mods)
              else r == null && mods == old(mods)
    {
      hide FirstStop, IsLatestFirst, IsConsistent, IsStack;
      if used == size {
        Grow();
      }
      var i := 0;
      while list[i] != null
        invariant i <= used < size && Valid() && unchanged(this`mods) && unchanged(this`stack) && unchanged(this`parsing)
        invariant (list == old(list) || fresh(list)) && size == if old(used) == old(size) then 2 * old(size) else old(size)
        invariant forall k :: 0 <= k < i ==> !IsSame(mods[k], m) && !IsClash(mods[k], m)
        decreases used - i
      {
        if list[i].name == m.name {
          if |list[i].revs| == |m.revs| && (m.revs == [] || list[i].revs[0].date == m.revs[0].date) {
            return list[i];
          }
        } else if list[i].ns == m.ns {
          return null;
        }
        i := i + 1;
      }
      AddKeepsConsistent(mods, m);
      list[i] := m;
      used, mods := used + 1, mods + [m];
      return m;
    }

    /** The list is doubled; the new slots are empty. */
    method Grow()
      requires Valid() && used == size
      modifies this`list, this`size
      ensures Valid() && fresh(list) && used < size && size == 2 * old(size)
    {
      hide IsConsistent, IsStack;
      var more := new Module?[2 * size](i requires 0 <= i reads this, list => if i < list.Length then list[i] else null);
      list, size := more, 2 * size;
    }

    /** ly_ctx_get_module_by. */
    method GetModuleBy(sel: Key, key: string, revision: Option<string>) returns (r: Module?)
      requires Valid()
      ensures revision.None? ==> r == match Newest(mods, sel, key) case None => null case Some(m) => m
      ensures revision.Some? && r == null ==> forall m :: m in mods ==> !IsRevision(m, sel, key, revision.value)
      ensures revision.Some? && r != null ==>
                exists i :: 0 <= i < |mods| && mods[i] == r && IsRevision(r, sel, key, revision.value)
                  && forall j :: 0 <= j < i ==> !IsRevision(mods[j], sel, key, revision.value)
    {
      hide Newest, IsConsistent, IsStack, StrCmp;
      var result: Module? := null;
      NothingNewest(sel, key);
      for i := 0 to used
        invariant revision.None? ==> result == match Newest(mods[..i], sel, key) case None => null case Some(m) => m
        invariant revision.Some? ==> result == null && forall j :: 0 <= j < i ==> !IsRevision(mods[j], sel, key, revision.value)
      {
        NewestStep(mods, i, sel, key);
        var m := list[i];
        if m == null || KeyOf(m, sel) != key {
          continue;
        }
        if revision.None? {
          if result != null {
            if |m.revs| == 0 {
              continue;
            }
            if |result.revs| > 0 && StrCmp(m.revs[0].date, result.revs[0].date) < 0 {
              continue;
            }
          }
          result := m;
        } else if |m.revs| > 0 && revision.value == m.revs[0].date {
          return m;
        }
      }
      assert mods[..used] == mods;
      return result;
    }

    /** The search of fill_yin_import for a name in `parsing`, up to the end mark. */
    method IsParsing(name: string) returns (found: bool, count: nat)
      requires Valid()
      ensures found <==> name in stack
      ensures !found ==> count == |stack|
    {
      hide IsConsistent;
      count := 0;
      if parsing == null {
        return false, count;
      }
      while parsing[count].Some?
        invariant count <= |stack| && forall k :: 0 <= k < count ==> stack[k] != name
        decreases |stack| - count
      {
        if parsing[count].value == name {
          return true, count;
        }
        count := count + 1;
      }
      return false, count;
    }

    /** A name is pushed; `count` names are there. */
    method Push(name: string, count: nat)
      requires Valid() && count == |stack|
      modifies this`parsing, this`stack
      ensures Valid() && fresh(parsing) && parsing != null && stack == old(stack) + [name]
    {
      hide IsConsistent;
      var more := new Option<string>[count + 2](_ => None);
      for i := 0 to count
        invariant unchanged(this) && more[count + 1] == None
        invariant forall k :: 0 <= k < i ==> more[k] == Some(stack[k])
      {
        more[i] := parsing[i];
      }
      more[count] := Some(name);
      parsing, stack := more, stack + [name];
    }

    /** The last name is taken off again; `intact` is the internal check of fill_yin_import. */
    method Pop(name: string, count: nat) returns (intact: bool)
      requires Valid() && stack != [] && stack[|stack| - 1] == name && count + 1 == |stack|
      modifies this`parsing, this`stack, parsing
      ensures Valid() && intact && stack == old(stack[..|stack| - 1]) && (parsing == old(parsing) || parsing == null)
    {
      hide IsConsistent;
      intact := parsing[count + 1].None? && parsing[count] == Some(name);
      if count > 0 {
        parsing[count] := None;
      } else {
        parsing := null;
      }
      stack := stack[..|stack| - 1];
    }
  }

  /** An array of names with an end mark. */
  predicate IsStack(parsing: seq<Option<string>>, stack: seq<string>) {
    |stack| < |parsing| && parsing[|stack|] == None && forall i :: 0 <= i < |stack| ==> parsing[i] == Some(stack[i])
  }

  lemma NothingNewest(sel: Key, key: string)
    ensures Newest([], sel, key) == None
  {
  }

  lemma NewestStep(mods: seq<Module>, i: nat, sel: Key, key: string)
    requires i < |mods|
    ensures var rest := Newest(mods[..i], sel, key);
            Newest(mods[..i + 1], sel, key)
            == if KeyOf(mods[i], sel) != key || (rest.Some? && !IsNewer(mods[i], rest.value)) then rest else Some(mods[i])
  {
    assert mods[..i + 1][..i] == mods[..i];
  }
}

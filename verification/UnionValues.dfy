/** Values of a union type: the member loop of lyp_parse_value in src/parser.c, with the strings it
    interns and releases. */
module UnionValues {
  import opened CStrings
  import Prefixes
  import PrefixTransforms
  import opened Dictionary
  import DictionaryRuns
  import opened DictionaryTable
  import opened UnionTypes
  import opened XmlTransforms

  class Leaf {
    var valueStr: Handle?

    constructor (value: Handle?)
      ensures valueStr == value
    {
      valueStr := value;
    }
  }

  /** The XML element a value comes from, with the namespace declarations in scope. */
  class Element {
    var content: Handle?
    const decls: seq<Decl>

    constructor (decls: seq<Decl>)
      ensures content == null && this.decls == decls
    {
      content := null;
      this.decls := decls;
    }
  }

  /** What lyp_parse_value_ answers for a type object and a string. */
  type Accepts = (int, Option<string>) -> bool

  /** These types take their value with module names in place of XML prefixes. */
  predicate IsQualified(t: Type) {
    t.base.Ident? || t.base.Inst?
  }

  function TextOf(h: Handle?): Option<string> {
    if h == null then None else Some(h.text)
  }

  /** The value in the form a member is given it, or None where its prefixes cannot be resolved;
      `decls` are the declarations of the XML element, if there is one. */
  function Form(ctx: Context, decls: Option<seq<Decl>>, t: Type, text: Option<string>): (r: Option<Option<string>>) {
    if decls.None? || !IsQualified(t) || text.None? then Some(text)
    else
      var r := Prefixes.Rewrite(text.value, id => NameFor(ctx, decls.value, id));
      if r.None? then None else Some(r)
  }

  predicate Takes(ctx: Context, accepts: Accepts, decls: Option<seq<Decl>>, t: Type, text: Option<string>) {
    var form := Form(ctx, decls, t, text);
    form.Some? && accepts(t.address, form.value)
  }

  /** Members for identities and instance identifiers are tried on the value with module names, all others on
      the value as it is; without an XML element every member is. */
  lemma TakesByBase(ctx: Context, accepts: Accepts, decls: seq<Decl>, t: Type, text: string)
    ensures t.base == Ident || t.base == Inst ==>
              (Takes(ctx, accepts, Some(decls), t, Some(text)) <==>
                 var r := Prefixes.Rewrite(text, id => NameFor(ctx, decls, id)); r.Some? && accepts(t.address, r))
    ensures t.base == Other || t.base == Union ==> (Takes(ctx, accepts, Some(decls), t, Some(text)) <==> accepts(t.address, Some(text)))
    ensures Takes(ctx, accepts, None, t, Some(text)) <==> accepts(t.address, Some(text))
  {
    hide Prefixes.Rewrite, NameFor;
  }

  lemma FormByBase(ctx: Context, decls: seq<Decl>, t: Type, text: Option<string>)
    ensures t.base == Ident || t.base == Inst ==> IsQualified(t)
    ensures t.base == Other || t.base == Union ==> !IsQualified(t)
    ensures (t.base == Ident || t.base == Inst) && text.Some? && Form(ctx, Some(decls), t, text).Some? ==>
              Form(ctx, Some(decls), t, text).value == Prefixes.Rewrite(text.value, id => NameFor(ctx, decls, id))
  {
    hide Prefixes.Rewrite, NameFor;
  }

  /** Which members take a value. */
  function Taker(ctx: Context, accepts: Accepts, elem: Element?, text: Option<string>): Type -> bool {
    (t: Type) => Takes(ctx, accepts, Decls(elem), t, text)
  }

  function Decls(elem: Element?): Option<seq<Decl>> {
    if elem == null then None else Some(elem.decls)
  }

  /** The first member of the flattened union that takes the value. */
  function FirstTaking(list: seq<Type>, takes: Type -> bool): (i: nat)
    ensures i <= |list|
    ensures i < |list| ==> takes(list[i])
    ensures forall k :: 0 <= k < i ==> !takes(list[k])
  {
    if list == [] || takes(list[0]) then 0 else 1 + FirstTaking(list[1..], takes)
  }

  /** No counter of the dictionary wraps when one more string is held. */
  predicate HasCounters(t: Table)
    requires |t.buckets| == DICT_SIZE
  {
    t.used + 1 < UINT32
    && forall b, i :: 0 <= b < DICT_SIZE && 0 <= i < |t.buckets[b]| ==> 0 < t.buckets[b][i].count && t.used != 0
  }

  /** A dictionary that holds fewer than 2^32 - 1 different strings has them. */
  lemma HeldHasCounters(t: Table, m: multiset<string>)
    requires DictionaryRuns.Represents(t, m) && |DictionaryRuns.Keys(m)| + 1 < UINT32
    ensures HasCounters(t)
  {
    hide Index, Find, Total;
    forall b, i | 0 <= b < DICT_SIZE && 0 <= i < |t.buckets[b]| ensures 0 < t.buckets[b][i].count && t.used != 0 {
      EntryIsHeld(t, m, b, i);
    }
  }

  lemma EntryIsHeld(t: Table, m: multiset<string>, b: nat, i: nat)
    requires DictionaryRuns.Represents(t, m) && b < DICT_SIZE && i < |t.buckets[b]|
    ensures 0 < t.buckets[b][i].count && t.used != 0
  {
    hide Index, Find, Total;
    var x := t.buckets[b][i].handle.text;
    assert IsBucket(t.buckets[b], b);
    FindUnique(t.buckets[b], b, i);
    assert Present(t, x) && Count(t, x) == t.buckets[b][i].count;
    assert x in DictionaryRuns.Keys(m);
  }

  lemma ReleaseRestores(t: Table, text: string, buffer: Handle)
    requires IsTable(t) && HasCounters(t) && buffer.text == text
    ensures Remove(Insert(t, text, buffer), Inserted(t, text, buffer)) == t
  {
    hide Index, Find, IsBucket, Total;
    RemoveUndoesInsert(t, text, buffer);
  }

  // ----- one member --------------------------------------------------------------------------

  /** The value is put into the form with module names; the element keeps the original. */
  method Qualify(ctx: Context, leaf: Leaf, elem: Element, dict: Dict) returns (ok: bool)
    requires dict.Valid() && IsTable(dict.table) && elem.content == null
    requires leaf.valueStr != null && PrefixTransforms.HasNoBareColon(leaf.valueStr.text)
    modifies leaf, elem, dict, dict.owned
    ensures dict.Valid() && fresh(dict.owned - old(dict.owned))
    ensures var r := Prefixes.Rewrite(old(leaf.valueStr.text), id => NameFor(ctx, elem.decls, id));
            if r.None? then !ok && leaf.valueStr == old(leaf.valueStr) && elem.content == null && dict.table == old(dict.table)
            else ok && leaf.valueStr != null && leaf.valueStr.text == r.value && elem.content == old(leaf.valueStr)
                 && IsInterned(old(dict.table), leaf.valueStr, dict.table)
  {
    hide IsInterned, Prefixes.Rewrite, PrefixTransforms.HasNoBareColon, Insert, Inserted, NameFor, Dict.Valid, IsBucket, Total;
    elem.content := leaf.valueStr;
    leaf.valueStr := TransformXmlToJson(ctx, dict, elem.content.text, elem.decls);
    if leaf.valueStr == null {
      leaf.valueStr := elem.content;
      elem.content := null;
      return false;
    }
    InternedBy(old(dict.table), leaf.valueStr, dict.table);
    return true;
  }

  /** `t'` is `t` with one more reference to `h`. */
  predicate IsInterned(t: Table, h: Handle, t': Table) {
    |t.buckets| == DICT_SIZE && t' == Insert(t, h.text, h) && h == Inserted(t, h.text, h)
  }

  lemma IsInternedMeans(t: Table, h: Handle, t': Table)
    requires IsInterned(t, h, t')
    ensures |t.buckets| == DICT_SIZE && t' == Insert(t, h.text, h) && h == Inserted(t, h.text, h)
  {
  }

  lemma InternedBy(t: Table, h: Handle, t': Table)
    requires |t.buckets| == DICT_SIZE && t' == Insert(t, h.text, h) && h == Inserted(t, h.text, h)
    ensures IsInterned(t, h, t')
  {
  }

  /** The value is put back, and the reference to its other form released. */
  method PutBack(leaf: Leaf, elem: Element, dict: Dict, ghost was: Table)
    requires dict.Valid() && leaf.valueStr != null && IsInterned(was, leaf.valueStr, dict.table) && IsTable(was) && HasCounters(was)
    modifies leaf, elem, dict, dict.owned
    ensures dict.Valid() && fresh(dict.owned - old(dict.owned))
    ensures dict.table == was && leaf.valueStr == old(elem.content) && elem.content == null
  {
    hide HasCounters, IsTable, Insert, Inserted, Remove, Dict.Valid;
    ReleaseRestores(was, leaf.valueStr.text, leaf.valueStr);
    dict.Release(leaf.valueStr);
    leaf.valueStr := elem.content;
    elem.content := null;
  }

  /** One turn of the loop. A member that takes the value leaves it in the form it was given; any other
      leaves the leaf, the element and the dictionary as they were. */
  method TryMember(ctx: Context, accepts: Accepts, t: Type, leaf: Leaf, elem: Element?, dict: Dict) returns (taken: bool)
    requires dict.Valid() && IsTable(dict.table) && HasCounters(dict.table)
    requires elem != null ==> elem.content == null
    requires elem != null && IsQualified(t) ==> leaf.valueStr != null && PrefixTransforms.HasNoBareColon(leaf.valueStr.text)
    modifies leaf, elem, dict, dict.owned
    ensures dict.Valid() && fresh(dict.owned - old(dict.owned))
    ensures taken <==> Takes(ctx, accepts, Decls(elem), t, TextOf(old(leaf.valueStr)))
    ensures taken && elem != null && IsQualified(t) ==>
              && leaf.valueStr != null && Form(ctx, Some(elem.decls), t, TextOf(old(leaf.valueStr))) == Some(Some(leaf.valueStr.text))
              && IsInterned(old(dict.table), leaf.valueStr, dict.table) && elem.content == old(leaf.valueStr)
    ensures !(taken && elem != null && IsQualified(t)) ==>
              leaf.valueStr == old(leaf.valueStr) && dict.table == old(dict.table) && (elem != null ==> elem.content == null)
  {
    hide IsInterned, HasCounters, IsTable, Prefixes.Rewrite, NameFor, PrefixTransforms.HasNoBareColon, Dict.Valid;
    if elem != null && IsQualified(t) {
      var ok := Qualify(ctx, leaf, elem, dict);
      if !ok {
        return false;
      }
    }
    taken := accepts(t.address, TextOf(leaf.valueStr));
    if !taken && elem != null && IsQualified(t) {
      PutBack(leaf, elem, dict, old(dict.table));
    }
  }

  // ----- the references held -----------------------------------------------------------------

  /** The strings the leaf and the element hold references to. */
  function Held(leaf: Leaf, elem: Element?): multiset<string>
    reads leaf, elem
  {
    References(leaf.valueStr) + (if elem == null then multiset{} else References(elem.content))
  }

  function References(h: Handle?): multiset<string> {
    if h == null then multiset{} else multiset{h.text}
  }

  /** Every count has changed by as many references as are held more, or less. */
  ghost predicate IsAccounted(t: Table, held: multiset<string>, t': Table, held': multiset<string>) {
    IsTable(t) && IsTable(t') && forall x: string :: Count(t', x) == (Count(t, x) + held'[x] - held[x]) % UINT32
  }

  lemma NothingChanged(t: Table, held: multiset<string>)
    requires IsTable(t)
    ensures IsAccounted(t, held, t, held)
  {
    hide Index, IsBucket, Find, Total;
    forall x: string ensures Count(t, x) == (Count(t, x) + held[x] - held[x]) % UINT32 {
      CountInRange(t, x);
    }
  }

  /** Corollary of InsertStep: a successful transformation makes one reference more, and the dictionary
      counts it. */
  lemma OneMoreHeld(t: Table, held: multiset<string>, now: Handle, t': Table)
    requires IsTable(t) && IsInterned(t, now, t')
    ensures IsAccounted(t, held, t', held + multiset{now.text})
  {
    hide Index, IsBucket, Find, Total, Insert;
    InsertStep(t, now.text, now, now.text);
    forall x: string ensures Count(t', x) == (Count(t, x) + (held + multiset{now.text})[x] - held[x]) % UINT32 {
      InsertStep(t, now.text, now, x);
      CountInRange(t, x);
    }
  }

  // ----- the loop ----------------------------------------------------------------------------

  /** The union case of lyp_parse_value. It is called only where its loop ends; the first member that
      takes the value is chosen, and only that one leaves anything behind. */
  method ParseUnion(ctx: Context, accepts: Accepts, stype: Type, leaf: Leaf, elem: Element?, dict: Dict) returns (chosen: Option<Type>)
    requires dict.Valid() && IsTable(dict.table) && HasCounters(dict.table)
    requires elem != null ==> elem.content == null
    requires forall i :: 0 <= i < |Flatten(stype)| && elem != null && IsQualified(Flatten(stype)[i]) ==>
               leaf.valueStr != null && PrefixTransforms.HasNoBareColon(leaf.valueStr.text)
    requires var list := Flatten(stype);
             AreDistinct(list) || FirstTaking(list, Taker(ctx, accepts, elem, TextOf(leaf.valueStr))) < Fresh(list)
    modifies leaf, elem, dict, dict.owned
    ensures dict.Valid() && fresh(dict.owned - old(dict.owned))
    ensures var list := Flatten(stype);
            var i := FirstTaking(list, Taker(ctx, accepts, elem, TextOf(old(leaf.valueStr))));
            chosen == if i < |list| then Some(list[i]) else None
    ensures chosen.Some? && elem != null && IsQualified(chosen.value) ==>
              && leaf.valueStr != null && Form(ctx, Some(elem.decls), chosen.value, TextOf(old(leaf.valueStr))) == Some(Some(leaf.valueStr.text))
              && IsInterned(old(dict.table), leaf.valueStr, dict.table) && elem.content == old(leaf.valueStr)
    ensures !(chosen.Some? && elem != null && IsQualified(chosen.value)) ==>
              leaf.valueStr == old(leaf.valueStr) && dict.table == old(dict.table) && (elem != null ==> elem.content == null)
    ensures chosen.Some? && elem != null && (chosen.value.base == Ident || chosen.value.base == Inst) ==>
              && old(leaf.valueStr) != null && leaf.valueStr != null
              && Prefixes.Rewrite(old(leaf.valueStr.text), id => NameFor(ctx, elem.decls, id)) == Some(leaf.valueStr.text)
              && IsTable(old(dict.table)) && dict.table == Insert(old(dict.table), leaf.valueStr.text, leaf.valueStr)
              && elem.content == old(leaf.valueStr)
    ensures chosen.Some? && (elem == null || chosen.value.base == Other) ==> leaf.valueStr == old(leaf.valueStr) && dict.table == old(dict.table)
    ensures IsAccounted(old(dict.table), old(Held(leaf, elem)), dict.table, Held(leaf, elem))
  {
    hide IsInterned, HasCounters, IsTable, IsAccounted, PrefixTransforms.HasNoBareColon, Takes, Form, Flatten, Scan, Fresh, FirstTaking, Dict.Valid;
    ghost var list, text := Flatten(stype), TextOf(leaf.valueStr);
    ghost var takes := Taker(ctx, accepts, elem, text);
    ghost var first, n := FirstTaking(list, takes), Fresh(list);
    ghost var i: nat := 0;
    ScanNothing(list);
    NothingChanged(dict.table, Held(leaf, elem));
    var found;
    chosen, found := GetNextUnionType(stype, None, false);
    while chosen.Some?
      invariant dict.Valid() && fresh(dict.owned - old(dict.owned)) && dict.table == old(dict.table)
      invariant leaf.valueStr == old(leaf.valueStr) && (elem != null ==> elem.content == null)
      invariant i <= first && i <= n && chosen == if i < |list| then Some(list[i]) else None
      decreases |list| - i
    {
      var taken := TryMember(ctx, accepts, chosen.value, leaf, elem, dict);
      assert taken == takes(list[i]);
      if taken {
        if elem != null {
          FormByBase(ctx, elem.decls, chosen.value, text);
        }
        if elem != null && IsQualified(chosen.value) {
          IsInternedMeans(old(dict.table), leaf.valueStr, dict.table);
          OneMoreHeld(old(dict.table), old(Held(leaf, elem)), leaf.valueStr, dict.table);
          assert Held(leaf, elem) == old(Held(leaf, elem)) + multiset{leaf.valueStr.text};
        }
        return;
      }
      FreshIsFirst(list, i);
      NextOfFirst(list, i);
      chosen, found := GetNextUnionType(stype, Some(chosen.value.address), false);
      i := i + 1;
    }
  }
}

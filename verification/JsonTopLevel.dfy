/** Whole documents: what printing and parsing make of the top-level nodes, which have no parent. */
module JsonTopLevel {
  import opened CStrings
  import opened JsonTree
  import opened JsonRoundTrip
  import opened JsonTokens
  import opened JsonLayout
  import opened JsonGrouping

  // ----- what is read of a printed document --------------------------------------------------

  datatype Verdict = Fits | Fails | Breaks

  /** Another instance of the list follows. */
  predicate HasMore(nodes: seq<Tree>, i: nat)
    requires i < |nodes|
  {
    NextInstance(nodes, nodes[i].schema, i + 1) < |nodes|
  }

  /** How reading the printed member of a top-level node ends. */
  function EntryVerdict(nodes: seq<Tree>, i: nat): Verdict
    requires i < |nodes|
  {
    if nodes[i].schema.kind.List? then
      if !HasContent(nodes[i]) || !CleanInstance(nodes[i]) then Fails else if HasMore(nodes, i) then Breaks else Fits
    else if CleanEntry(nodes, i) then Fits else Fails
  }

  function VerdictFrom(nodes: seq<Tree>, i: nat): Verdict
    requires i <= |nodes|
    decreases |nodes| - i
  {
    if i == |nodes| then Fits
    else if IsSkipped(nodes, i) || EntryVerdict(nodes, i).Fits? then VerdictFrom(nodes, i + 1)
    else EntryVerdict(nodes, i)
  }

  function ReadFrom(nodes: seq<Tree>, i: nat, rest: string): TopRead
    requires i < |nodes|
  {
    match VerdictFrom(nodes, i)
    case Fits => Accepted(GroupFrom(nodes, i), |GroupEntry(nodes, i)|, SkipWs(rest))
    case Fails => Refused
    case Breaks => Broken
  }

  function ReadOne(nodes: seq<Tree>, i: nat, rest: string): TopRead
    requires i < |nodes|
  {
    match EntryVerdict(nodes, i)
    case Fits => Accepted(GroupEntry(nodes, i), |GroupEntry(nodes, i)|, SkipWs(rest))
    case Fails => Refused
    case Breaks => Broken
  }

  /** A top-level member: parsing goes on with the content. */
  lemma ReadTopMember(ctx: Context, prefix: string, schemas: seq<Schema>, nodes: seq<Tree>, i: nat, s: string) returns (content: string)
    requires i < |nodes| && IsScope(ctx, Top, prefix, schemas) && AreValid(ctx, schemas, nodes)
    requires After(s, EntryTokens(prefix, nodes, i)).Some?
    ensures After(s, EntryTokens(prefix, nodes, i)) == After(content, ContentTokens(nodes, i))
    ensures ParseTopData(ctx, SkipWs(s)) == ParseTopContent(ctx, nodes[i].schema, SkipWs(content))
  {
    hide ParseTopContent, SkipWs, FindSchema, ParseKey, After, EntryTokens, ContentTokens, AreValid;
    content := ReadEntryKey(ctx, Top, prefix, schemas, nodes, i, s);
  }

  lemma ReadTopList(ctx: Context, nodes: seq<Tree>, i: nat, s: string, rest: string)
    requires i < |nodes| && nodes[i].schema.kind.List? && HasContent(nodes[i]) && IsValid(ctx, nodes[i])
    requires After(s, ["["] + InstancesTokens(nodes, i) + ["]"]) == Some(rest)
    ensures ParseTopContent(ctx, nodes[i].schema, SkipWs(s)) == ReadOne(nodes, i, rest)
  {
    hide After, InstancesTokens, InstanceTokens, ParseInstance, CleanInstance, GroupTree, SkipWs;
    var t := nodes[i];
    var inner := InstancesTokens(nodes, i) + ["]"];
    assert ["["] + InstancesTokens(nodes, i) + ["]"] == ["["] + inner;
    var body := ReadToken(s, '[', inner);
    InnerNode(ctx, t);
    InstancesStep(nodes, i);
    var k := NextInstance(nodes, t.schema, i + 1);
    if k < |nodes| {
      var r := ReadInstance(ctx, t, body, [","] + (InstancesTokens(nodes, k) + ["]"]));
      var r1 := ReadToken(r, ',', InstancesTokens(nodes, k) + ["]"]);
    } else {
      var r := ReadInstance(ctx, t, body, ["]"] + []);
      var r1 := ReadToken(r, ']', []);
      NoTokens(r1);
      var one: seq<Tree> := [GroupTree(t)];
      assert one + [] == one;
      assert GroupEntry(nodes, i) == one;
    }
  }

  lemma TopContentOfOther(ctx: Context, schema: Schema, s: string)
    requires !StartsWith(s, '[') && ParseContent(ctx, schema, s).Fail?
    ensures ParseTopContent(ctx, schema, s).Refused?
  {
    hide ParseContent, ParseInstance;
  }

  /** One top-level member. */
  lemma ReadTopEntry(ctx: Context, prefix: string, schemas: seq<Schema>, nodes: seq<Tree>, i: nat, s: string, rest: string)
    requires i < |nodes| && IsScope(ctx, Top, prefix, schemas) && AreValid(ctx, schemas, nodes) && IsDelimited(rest)
    requires After(s, EntryTokens(prefix, nodes, i)) == Some(rest)
    ensures ParseTopData(ctx, SkipWs(s)) == ReadOne(nodes, i, rest)
  {
    hide ParseContent, GroupEntry, CleanEntry, CleanInstance, ParseTopData, ParseTopContent, HasContent, After, InstancesTokens, EntryTokens,
      IsDelimited, IsScope, SkipWs, IsValid;
    var t := nodes[i];
    assert IsValid(ctx, t);
    var content := ReadTopMember(ctx, prefix, schemas, nodes, i, s);
    if !t.schema.kind.List? {
      ReadContent(ctx, nodes, i, content, rest);
      TopContentBelow(ctx, t.schema, SkipWs(content));
    } else if HasContent(t) {
      ReadTopList(ctx, nodes, i, content, rest);
    } else {
      ReadNull(ctx, t.schema, content);
      TopContentOfOther(ctx, t.schema, SkipWs(content));
    }
  }

  lemma TopMembersStep(ctx: Context, s: string)
    ensures var d := ParseTopData(ctx, SkipWs(s));
            ParseTopMembers(ctx, s) ==
            if !d.Accepted? || !StartsWith(d.rest, ',') then d
            else
              var more := ParseTopMembers(ctx, d.rest[1..]);
              if more.Accepted? then Accepted(d.got + more.got, d.first, more.rest) else more
  {
    hide ParseTopData;
  }

  lemma VerdictStep(nodes: seq<Tree>, i: nat)
    requires i < |nodes| && !IsSkipped(nodes, i)
    ensures VerdictFrom(nodes, i) == if EntryVerdict(nodes, i).Fits? then VerdictFrom(nodes, NextEntry(nodes, i + 1)) else EntryVerdict(nodes, i)
    ensures VerdictFrom(nodes, |nodes|).Fits?
  {
    hide EntryVerdict, NextEntry;
    VerdictSkips(nodes, i + 1);
  }

  lemma {:induction false} VerdictSkips(nodes: seq<Tree>, i: nat)
    requires i <= |nodes|
    ensures VerdictFrom(nodes, i) == VerdictFrom(nodes, NextEntry(nodes, i))
    decreases |nodes| - i
  {
    hide EntryVerdict;
    if i < |nodes| && IsSkipped(nodes, i) {
      VerdictSkips(nodes, i + 1);
    }
  }

  /** The top-level members from one that is printed to the end. */
  lemma {:induction false} ReadTopMembers(ctx: Context, prefix: string, schemas: seq<Schema>, nodes: seq<Tree>, i: nat, s: string,
                                          rest: string)
    requires i < |nodes| && IsScope(ctx, Top, prefix, schemas) && AreValid(ctx, schemas, nodes)
    requires !IsSkipped(nodes, i) && StartsWith(SkipWs(rest), '}')
    requires After(s, EntryTokens(prefix, nodes, i) + RestTokens(prefix, nodes, i + 1)) == Some(rest)
    ensures ParseTopMembers(ctx, s) == ReadFrom(nodes, i, rest)
    decreases |nodes| - i
  {
    hide ParseTopMembers, ParseTopData, After, EntryTokens, RestTokens, GroupEntry, NextEntry, GroupFrom, EntryVerdict, VerdictFrom, SkipWs,
      IsSkipped, IsDelimited, IsScope, AreValid;
    var m := NextEntry(nodes, i + 1);
    var r, more := SplitEntry(prefix, nodes, i, s, rest);
    ReadTopEntry(ctx, prefix, schemas, nodes, i, s, r);
    SkipToEntry(prefix, nodes, i + 1);
    FromEntry(nodes, i);
    VerdictStep(nodes, i);
    TopMembersStep(ctx, s);
    assert GroupEntry(nodes, i) + [] == GroupEntry(nodes, i);
    if m < |nodes| {
      ReadTopMembers(ctx, prefix, schemas, nodes, m, more, rest);
    }
  }

  /** What becomes of a document, by its tokens alone. */
  function DocumentOutcome(roots: seq<Tree>): Outcome {
    if roots == [] then Rejected
    else match VerdictFrom(roots, 0)
         case Fits => (EntrySchema(roots, 0); Document(GroupFrom(roots, 0), |GroupEntry(roots, 0)| - 1))
         case Fails => Rejected
         case Breaks => Undefined
  }

  /** A text that starts with the tokens of a document, with white space between them or none. */
  lemma ReadDocument(ctx: Context, mod: string, roots: seq<Tree>, s: string)
    requires IsName(mod) && mod in ctx.modules && AreValid(ctx, ctx.modules[mod], roots)
    requires After(s, DocumentTokens(mod, roots)).Some?
    ensures ParseDocument(ctx, s) == DocumentOutcome(roots)
  {
    hide After, EntryTokens, RestTokens, ParseTopMembers, VerdictFrom, GroupFrom, GroupEntry, ParseTopData, SkipWs, AreValid;
    var prefix := mod + ":";
    assert prefix[..|prefix| - 1] == mod;
    var inner := NodesTokens(prefix, roots);
    assert DocumentTokens(mod, roots) == ["{"] + (inner + ["}"]) && ["}"] + [] == ["}"];
    var body := ReadToken(s, '{', inner + ["}"]);
    AfterAppend(body, inner, ["}"]);
    var close := After(body, inner).value;
    var rest := ReadToken(close, '}', []);
    if roots == [] {
      NoTokens(body);
      NoTopMembers(ctx, body);
    } else {
      ReadTopMembers(ctx, prefix, ctx.modules[mod], roots, 0, body, close);
    }
  }

  lemma NoTopMembers(ctx: Context, s: string)
    requires StartsWith(SkipWs(s), '}')
    ensures ParseTopMembers(ctx, s).Refused?
  {
    assert ParseKey(SkipWs(s)).Fail?;
  }

  lemma ValidRoots(ctx: Context, mod: string, roots: seq<Tree>)
    requires mod in ctx.modules && AreValid(ctx, ctx.modules[mod], roots)
    ensures AllValid(ctx, roots)
  {
  }

  /** White space decides nothing: a document's tokens with any spacing are read as the printed text is. */
  lemma SpacingDecidesNothing(ctx: Context, mod: string, roots: seq<Tree>, gaps: seq<string>, rest: string)
    requires IsName(mod) && mod in ctx.modules && AreValid(ctx, ctx.modules[mod], roots)
    requires |gaps| == |DocumentTokens(mod, roots)| && forall i :: 0 <= i < |gaps| ==> IsSpacing(gaps[i])
    ensures ParseDocument(ctx, Lay(DocumentTokens(mod, roots), gaps, rest)) == ParseDocument(ctx, PrintDocument(mod, roots))
  {
    hide After, Lay, DocumentTokens, ParseDocument, PrintDocument, AreValid, AllValid;
    var tokens := DocumentTokens(mod, roots);
    ValidRoots(ctx, mod, roots);
    DocumentIsTokens(ctx, mod, roots);
    LaidAfter(tokens, gaps, rest);
    ReadDocument(ctx, mod, roots, Lay(tokens, gaps, rest));
    DocumentLaid(ctx, mod, roots);
    ReadDocument(ctx, mod, roots, PrintDocument(mod, roots));
  }

  // ----- the conditions on a document --------------------------------------------------------

  /** No top-level list has two instances. */
  predicate HasSingleLists(nodes: seq<Tree>) {
    forall i, j :: 0 <= i < j < |nodes| && nodes[i].schema == nodes[j].schema ==> !nodes[i].schema.kind.List?
  }

  lemma {:induction false} VerdictIsFits(nodes: seq<Tree>, i: nat)
    requires i <= |nodes|
    ensures VerdictFrom(nodes, i).Fits? <==> CleanFrom(nodes, i) && AreLast(nodes, i)
    ensures CleanFrom(nodes, i) ==> !VerdictFrom(nodes, i).Fails?
    ensures VerdictFrom(nodes, i).Breaks? ==> exists m :: i <= m < |nodes| && nodes[m].schema.kind.List? && HasMore(nodes, m)
    decreases |nodes| - i
  {
    hide EntryVerdict, CleanEntry, IsSkipped, HasMore;
    if i < |nodes| {
      VerdictIsFits(nodes, i + 1);
      EntryFits(nodes, i);
    }
  }

  lemma BreaksAtList(nodes: seq<Tree>)
    ensures HasSingleLists(nodes) ==> !VerdictFrom(nodes, 0).Breaks?
  {
    hide VerdictFrom, HasMore, HasSingleLists;
    VerdictIsFits(nodes, 0);
    if m :| 0 <= m < |nodes| && nodes[m].schema.kind.List? && HasMore(nodes, m) {
      if HasSingleLists(nodes) {
        NoneHasMore(nodes, m);
      }
    }
  }

  lemma EntryFits(nodes: seq<Tree>, i: nat)
    requires i < |nodes|
    ensures EntryVerdict(nodes, i).Fits? <==> CleanEntry(nodes, i) && (nodes[i].schema.kind.List? ==> !HasMore(nodes, i))
    ensures CleanEntry(nodes, i) ==> !EntryVerdict(nodes, i).Fails?
    ensures EntryVerdict(nodes, i).Breaks? ==> nodes[i].schema.kind.List? && HasMore(nodes, i)
  {
    hide CleanInstance, HasContent, CleanInstances;
    if nodes[i].schema.kind.List? {
      InstancesClean(nodes, i);
    }
  }

  lemma InstancesClean(nodes: seq<Tree>, i: nat)
    requires i < |nodes|
    ensures CleanInstances(nodes, i) ==> CleanInstance(nodes[i])
    ensures !HasMore(nodes, i) ==> CleanInstances(nodes, i) == CleanInstance(nodes[i])
  {
    hide CleanInstance;
  }

  /** No printed top-level list from `i` on has another instance. */
  predicate AreLast(nodes: seq<Tree>, i: nat) {
    forall m :: i <= m < |nodes| && nodes[m].schema.kind.List? && !IsSkipped(nodes, m) ==> !HasMore(nodes, m)
  }

  lemma SingleListsAreLast(nodes: seq<Tree>)
    ensures HasSingleLists(nodes) <==> AreLast(nodes, 0)
  {
    if HasSingleLists(nodes) {
      forall m | 0 <= m < |nodes| && nodes[m].schema.kind.List? ensures !HasMore(nodes, m) {
        NoneHasMore(nodes, m);
      }
      assert AreLast(nodes, 0);
    }
    if AreLast(nodes, 0) {
      forall i, j | 0 <= i < j < |nodes| && nodes[i].schema == nodes[j].schema ensures !nodes[i].schema.kind.List? {
        var f := FirstInstance(nodes, i);
        assert !IsSkipped(nodes, f) && HasMore(nodes, f);
      }
      assert HasSingleLists(nodes);
    }
  }

  lemma NoneHasMore(nodes: seq<Tree>, m: nat)
    requires HasSingleLists(nodes) && m < |nodes| && nodes[m].schema.kind.List?
    ensures !HasMore(nodes, m)
  {
    var k := NextInstance(nodes, nodes[m].schema, m + 1);
  }

  /** The node that is returned: the last one of the first member. */
  function RootIndex(roots: seq<Tree>): nat
    requires roots != []
  {
    if roots[0].schema.kind.LeafList? then |Instances(roots, roots[0].schema, 0)| - 1 else 0
  }

  // ----- the main results --------------------------------------------------------------------

  /** Printing and parsing a valid document. A readable one comes back grouped if no top-level list has two
      instances; if one has, the parser leaves its own sibling list. Any other document is not read. */
  lemma PrintThenParse(ctx: Context, mod: string, roots: seq<Tree>)
    requires IsName(mod) && mod in ctx.modules && AreValid(ctx, ctx.modules[mod], roots)
    ensures var d := ParseDocument(ctx, PrintDocument(mod, roots));
            if roots == [] then d == Rejected
            else if AreReadable(roots) then d == if HasSingleLists(roots) then Document(GroupFrom(roots, 0), RootIndex(roots)) else Undefined
            else !d.Document? && (HasSingleLists(roots) ==> d == Rejected)
  {
    hide ParseDocument, PrintDocument, GroupFrom, GroupEntry, AreReadable, CleanFrom, VerdictFrom, HasSingleLists, IsSkipped, HasMore;
    ValidRoots(ctx, mod, roots);
    DocumentLaid(ctx, mod, roots);
    ReadDocument(ctx, mod, roots, PrintDocument(mod, roots));
    if roots != [] {
      ReadableNodes(roots);
      VerdictIsFits(roots, 0);
      SingleListsAreLast(roots);
      BreaksAtList(roots);
      if VerdictFrom(roots, 0).Fits? {
        ReturnedRoot(roots);
      }
    }
  }

  lemma ReturnedRoot(roots: seq<Tree>)
    requires roots != [] && HasSingleLists(roots)
    ensures |GroupEntry(roots, 0)| - 1 == RootIndex(roots)
  {
    hide GroupEach;
    if IsMulti(roots[0].schema) {
      EntryInstances(roots, 0);
      if roots[0].schema.kind.List? {
        NoneHasMore(roots, 0);
      }
    }
  }

  /** The documents that survive printing and parsing unchanged, with their first node returned. */
  lemma PrintThenParseIdentity(ctx: Context, mod: string, roots: seq<Tree>)
    requires IsName(mod) && mod in ctx.modules && AreValid(ctx, ctx.modules[mod], roots)
    ensures ParseDocument(ctx, PrintDocument(mod, roots)) == Document(roots, 0)
       <==> && roots != [] && AreReadable(roots) && AreGrouped(roots) && HasSingleLists(roots)
            && (roots[0].schema.kind.LeafList? ==> forall i :: 0 < i < |roots| ==> roots[i].schema != roots[0].schema)
  {
    hide ParseDocument, PrintDocument, AreReadable, HasSingleLists, Instances, GroupFrom;
    PrintThenParse(ctx, mod, roots);
    if roots != [] {
      GroupedRoots(roots);
      OnlyInstance(roots);
    }
  }

  lemma GroupedRoots(roots: seq<Tree>)
    ensures GroupFrom(roots, 0) == roots <==> AreGrouped(roots)
  {
    GroupIdentity(Inner(Schema("", Container, []), roots));
  }

  lemma OnlyInstance(roots: seq<Tree>)
    requires roots != []
    ensures RootIndex(roots) == 0
       <==> roots[0].schema.kind.LeafList? ==> forall i :: 0 < i < |roots| ==> roots[i].schema != roots[0].schema
  {
    var own := roots[0].schema;
    assert Instances(roots, own, 0) == [roots[0]] + Instances(roots, own, 1);
    if Instances(roots, own, 1) != [] {
      var i := InstanceThere(roots, own, 1);
    }
    forall i | 0 < i < |roots| && roots[i].schema == own ensures Instances(roots, own, 1) != [] {
      InstancesPresent(roots, i, 1);
    }
  }

  lemma {:induction false} InstanceThere(nodes: seq<Tree>, schema: Schema, i: nat) returns (j: nat)
    requires i <= |nodes| && Instances(nodes, schema, i) != []
    ensures i <= j < |nodes| && nodes[j].schema == schema
    decreases |nodes| - i
  {
    if nodes[i].schema == schema {
      j := i;
    } else {
      j := InstanceThere(nodes, schema, i + 1);
    }
  }

  /** A top-level leaf-list with several values is read whole, but its last instance is returned, from
      which nothing is printed: an earlier instance is found first. */
  lemma TopLeafListReturnsLast(ctx: Context, mod: string, roots: seq<Tree>)
    requires IsName(mod) && mod in ctx.modules && AreValid(ctx, ctx.modules[mod], roots)
    requires |roots| > 1 && roots[0].schema.kind.LeafList? && forall i :: 0 <= i < |roots| ==> roots[i].schema == roots[0].schema
    requires AreReadable(roots)
    ensures ParseDocument(ctx, PrintDocument(mod, roots)) == Document(roots, |roots| - 1)
    ensures IsSkipped(roots, |roots| - 1)
  {
    hide ParseDocument, PrintDocument, AreReadable, Instances, GroupFrom;
    PrintThenParse(ctx, mod, roots);
    assert AreGrouped(roots) by {
      forall i | 0 <= i < |roots| ensures IsGrouped(roots[i]) {
        assert IsValid(ctx, roots[i]);
      }
    }
    GroupedRoots(roots);
    InstancesUniform(roots, roots[0].schema, roots[0].schema, 0);
    assert roots[0..] == roots;
    assert HasEarlier(roots, |roots| - 1);
  }

  /** Such leaf-lists are readable. */
  lemma TopLeafListExample(ctx: Context, mod: string, schema: Schema)
    requires IsName(mod) && mod in ctx.modules && DistinctNames(ctx.modules[mod]) && schema in ctx.modules[mod]
    requires schema.kind.LeafList? && ctx.types(schema, Some("true")) == Some(Bare)
    ensures var t := Term(schema, Some("true"), Bare);
            ParseDocument(ctx, PrintDocument(mod, [t, t])) == Document([t, t], 1)
  {
    hide ParseDocument, PrintDocument, DistinctNames;
    TopLeafListReturnsLast(ctx, mod, [Term(schema, Some("true"), Bare), Term(schema, Some("true"), Bare)]);
  }

  /** Two instances of a top-level list leave the parser's sibling list broken. */
  lemma TopListExample(ctx: Context, mod: string, list: Schema, leaf: Schema)
    requires IsName(mod) && mod in ctx.modules && DistinctNames(ctx.modules[mod]) && list in ctx.modules[mod]
    requires list.kind.List? && DistinctNames(list.children) && leaf in list.children
    requires leaf.kind.Leaf? && ctx.types(leaf, Some("true")) == Some(Bare)
    ensures var t := Inner(list, [Term(leaf, Some("true"), Bare)]);
            ParseDocument(ctx, PrintDocument(mod, [t, t])) == Undefined
  {
    hide ParseDocument, PrintDocument, DistinctNames;
    var t := Inner(list, [Term(leaf, Some("true"), Bare)]);
    var roots := [t, t];
    assert forall i :: 0 <= i < |t.children| ==> IsValid(ctx, t.children[i]) && IsReadable(t.children[i]);
    assert IsValid(ctx, t) && IsReadable(t);
    PrintThenParse(ctx, mod, roots);
    assert roots[0].schema == roots[1].schema;
  }
}

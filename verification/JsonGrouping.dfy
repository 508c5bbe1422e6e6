/** What printing does to the order of siblings, and which documents are read back unchanged. */
module JsonGrouping {
  import opened CStrings
  import opened JsonTree
  import opened JsonRoundTrip

  /** The instances of one schema node from position `i` on, in order. */
  function Instances(nodes: seq<Tree>, schema: Schema, i: nat): (r: seq<Tree>)
    requires i <= |nodes|
    ensures forall k :: 0 <= k < |r| ==> r[k].schema == schema
    decreases |nodes| - i
  {
    if i == |nodes| then []
    else if nodes[i].schema == schema then [nodes[i]] + Instances(nodes, schema, i + 1)
    else Instances(nodes, schema, i + 1)
  }

  function GroupEach(nodes: seq<Tree>): (r: seq<Tree>)
    ensures |r| == |nodes| && forall i :: 0 <= i < |nodes| ==> r[i] == GroupTree(nodes[i])
  {
    seq(|nodes|, i requires 0 <= i < |nodes| => GroupTree(nodes[i]))
  }

  /** All instances of a list or leaf-list stand together. */
  predicate IsContiguous(nodes: seq<Tree>) {
    forall i, j, k :: 0 <= i < j < k < |nodes| && IsMulti(nodes[i].schema) && nodes[i].schema == nodes[k].schema
      ==> nodes[j].schema == nodes[i].schema
  }

  predicate IsGrouped(t: Tree)
    decreases t
  {
    t.Inner? ==> IsContiguous(t.children) && forall i :: 0 <= i < |t.children| ==> IsGrouped(t.children[i])
  }

  predicate AreGrouped(nodes: seq<Tree>) {
    IsContiguous(nodes) && forall i :: 0 <= i < |nodes| ==> IsGrouped(nodes[i])
  }

  // ----- instances are kept ------------------------------------------------------------------

  lemma {:induction false} InstancesConcat(a: seq<Tree>, b: seq<Tree>, schema: Schema, i: nat)
    requires i <= |a|
    ensures Instances(a + b, schema, i) == Instances(a, schema, i) + Instances(b, schema, 0)
    decreases |a| - i
  {
    if i < |a| {
      InstancesConcat(a, b, schema, i + 1);
    } else {
      InstancesShift(a, b, schema, 0);
    }
  }

  lemma {:induction false} InstancesShift(a: seq<Tree>, b: seq<Tree>, schema: Schema, i: nat)
    requires i <= |b|
    ensures Instances(a + b, schema, |a| + i) == Instances(b, schema, i)
    decreases |b| - i
  {
    if i < |b| {
      InstancesShift(a, b, schema, i + 1);
    }
  }

  lemma {:induction false} InstancesUniform(nodes: seq<Tree>, own: Schema, schema: Schema, i: nat)
    requires i <= |nodes| && forall k :: 0 <= k < |nodes| ==> nodes[k].schema == own
    ensures Instances(nodes, schema, i) == if schema == own then nodes[i..] else []
    decreases |nodes| - i
  {
    if i < |nodes| {
      InstancesUniform(nodes, own, schema, i + 1);
    }
  }

  lemma {:induction false} InstancesSkip(nodes: seq<Tree>, schema: Schema, j: nat)
    requires j <= |nodes|
    ensures Instances(nodes, schema, j) == Instances(nodes, schema, NextInstance(nodes, schema, j))
    decreases |nodes| - j
  {
    if j < |nodes| && nodes[j].schema != schema {
      InstancesSkip(nodes, schema, j + 1);
    }
  }

  lemma {:induction false} EntryInstances(nodes: seq<Tree>, j: nat)
    requires j < |nodes|
    ensures GroupInstances(nodes, j) == GroupEach(Instances(nodes, nodes[j].schema, j))
    decreases |nodes| - j
  {
    var k := NextInstance(nodes, nodes[j].schema, j + 1);
    InstancesSkip(nodes, nodes[j].schema, j + 1);
    if k < |nodes| {
      EntryInstances(nodes, k);
    }
  }

  lemma EntrySchema(nodes: seq<Tree>, i: nat)
    requires i < |nodes|
    ensures GroupEntry(nodes, i) != []
    ensures forall k :: 0 <= k < |GroupEntry(nodes, i)| ==> GroupEntry(nodes, i)[k].schema == nodes[i].schema
  {
    if IsMulti(nodes[i].schema) {
      EntryInstances(nodes, i);
    }
  }

  predicate OccursBefore(nodes: seq<Tree>, schema: Schema, i: nat)
    requires i <= |nodes|
  {
    exists k :: 0 <= k < i && nodes[k].schema == schema
  }

  lemma OccursStep(nodes: seq<Tree>, schema: Schema, i: nat)
    requires i < |nodes|
    ensures OccursBefore(nodes, schema, i + 1) == (OccursBefore(nodes, schema, i) || nodes[i].schema == schema)
  {
    if nodes[i].schema == schema {
      assert OccursBefore(nodes, schema, i + 1);
    }
  }

  lemma SkippedMeans(nodes: seq<Tree>, i: nat)
    requires i < |nodes|
    ensures IsSkipped(nodes, i) <==> IsMulti(nodes[i].schema) && OccursBefore(nodes, nodes[i].schema, i)
  {
  }

  lemma GroupEachCons(t: Tree, rest: seq<Tree>)
    ensures GroupEach([t] + rest) == [GroupTree(t)] + GroupEach(rest)
  {
    hide GroupTree;
  }

  /** What is printed for one sibling, seen from a schema node. */
  lemma EntryShare(nodes: seq<Tree>, schema: Schema, i: nat)
    requires i < |nodes|
    ensures Instances(GroupEntry(nodes, i), schema, 0)
         == if nodes[i].schema != schema then []
            else if IsMulti(schema) then GroupEach(Instances(nodes, schema, i)) else [GroupTree(nodes[i])]
  {
    hide GroupTree, GroupEach, GroupInstances, Instances;
    var entry := GroupEntry(nodes, i);
    EntrySchema(nodes, i);
    InstancesUniform(entry, nodes[i].schema, schema, 0);
    EntryInstances(nodes, i);
    assert entry[0..] == entry;
  }

  /** What each schema node contributes to the output from position `i` on. */
  lemma {:induction false} GroupInstancesFrom(nodes: seq<Tree>, schema: Schema, i: nat)
    requires i <= |nodes|
    ensures Instances(GroupFrom(nodes, i), schema, 0)
         == if IsMulti(schema) && OccursBefore(nodes, schema, i) then [] else GroupEach(Instances(nodes, schema, i))
    decreases |nodes| - i
  {
    hide GroupTree, GroupEntry, GroupEach, OccursBefore, IsSkipped;
    if i < |nodes| {
      GroupInstancesFrom(nodes, schema, i + 1);
      OccursStep(nodes, schema, i);
      SkippedMeans(nodes, i);
      GroupEachCons(nodes[i], Instances(nodes, schema, i + 1));
      if !IsSkipped(nodes, i) {
        InstancesConcat(GroupEntry(nodes, i), GroupFrom(nodes, i + 1), schema, 0);
        EntryShare(nodes, schema, i);
      }
    } else {
      NoInstances();
    }
  }

  lemma NoInstances()
    ensures GroupEach([]) == []
  {
  }

  /** Grouping neither loses, adds nor reorders the instances of any schema node. */
  lemma GroupKeepsInstances(nodes: seq<Tree>, schema: Schema)
    ensures Instances(GroupFrom(nodes, 0), schema, 0) == GroupEach(Instances(nodes, schema, 0))
  {
    GroupInstancesFrom(nodes, schema, 0);
  }

  // ----- instances stand together ------------------------------------------------------------

  lemma {:induction false} InstancesPresent(nodes: seq<Tree>, j: nat, i: nat)
    requires i <= j < |nodes|
    ensures Instances(nodes, nodes[j].schema, i) != []
    decreases j - i
  {
    if i < j {
      InstancesPresent(nodes, j, i + 1);
    }
  }

  lemma {:induction false} GroupContiguous(nodes: seq<Tree>, i: nat)
    requires i <= |nodes|
    ensures IsContiguous(GroupFrom(nodes, i))
    decreases |nodes| - i
  {
    if i < |nodes| {
      GroupContiguous(nodes, i + 1);
      if !IsSkipped(nodes, i) {
        var entry, rest := GroupEntry(nodes, i), GroupFrom(nodes, i + 1);
        EntrySchema(nodes, i);
        if IsMulti(nodes[i].schema) {
          GroupInstancesFrom(nodes, nodes[i].schema, i + 1);
          forall j | 0 <= j < |rest| ensures rest[j].schema != nodes[i].schema {
            InstancesPresent(rest, j, 0);
          }
        }
        ContiguousConcat(entry, rest, nodes[i].schema);
      }
    }
  }

  lemma ContiguousConcat(a: seq<Tree>, b: seq<Tree>, schema: Schema)
    requires forall k :: 0 <= k < |a| ==> a[k].schema == schema
    requires IsMulti(schema) ==> forall k :: 0 <= k < |b| ==> b[k].schema != schema
    requires IsContiguous(b)
    ensures IsContiguous(a + b)
  {
    var c := a + b;
    forall i, j, k | 0 <= i < j < k < |c| && IsMulti(c[i].schema) && c[i].schema == c[k].schema
      ensures c[j].schema == c[i].schema
    {
      if |a| <= i {
        assert b[j - |a|].schema == b[i - |a|].schema;
      }
    }
  }

  /** Every node of the output is a grouped node of the input. */
  lemma {:induction false} GroupMembers(nodes: seq<Tree>, i: nat)
    requires i <= |nodes|
    ensures forall g :: g in GroupFrom(nodes, i) ==> exists k :: 0 <= k < |nodes| && g == GroupTree(nodes[k])
    decreases |nodes| - i
  {
    hide GroupTree;
    if i < |nodes| {
      GroupMembers(nodes, i + 1);
      if !IsSkipped(nodes, i) {
        EntryMembers(nodes, i);
      }
    }
  }

  lemma EntryMembers(nodes: seq<Tree>, i: nat)
    requires i < |nodes|
    ensures forall g :: g in GroupEntry(nodes, i) ==> exists k :: 0 <= k < |nodes| && g == GroupTree(nodes[k])
  {
    hide GroupTree;
    if IsMulti(nodes[i].schema) {
      var own := Instances(nodes, nodes[i].schema, i);
      EntryInstances(nodes, i);
      InstancesMembers(nodes, nodes[i].schema, i);
      forall g | g in GroupEntry(nodes, i) ensures exists k :: 0 <= k < |nodes| && g == GroupTree(nodes[k]) {
        var m :| 0 <= m < |own| && g == GroupTree(own[m]);
        assert own[m] in nodes;
      }
    }
  }

  lemma {:induction false} InstancesMembers(nodes: seq<Tree>, schema: Schema, i: nat)
    requires i <= |nodes|
    ensures forall t :: t in Instances(nodes, schema, i) ==> t in nodes
    decreases |nodes| - i
  {
    if i < |nodes| {
      InstancesMembers(nodes, schema, i + 1);
    }
  }

  /** Grouping groups, all the way down. */
  lemma {:induction false} GroupTreeGrouped(t: Tree)
    ensures IsGrouped(GroupTree(t))
    decreases t
  {
    if t.Inner? {
      GroupContiguous(t.children, 0);
      GroupMembers(t.children, 0);
      var out := GroupFrom(t.children, 0);
      forall i | 0 <= i < |out| ensures IsGrouped(out[i]) {
        assert out[i] in out;
        var k :| 0 <= k < |t.children| && out[i] == GroupTree(t.children[k]);
        GroupTreeGrouped(t.children[k]);
      }
    }
  }

  // ----- documents that stay as they are -----------------------------------------------------

  lemma RunOfInstances(nodes: seq<Tree>, i: nat)
    requires i < |nodes| && IsContiguous(nodes) && IsMulti(nodes[i].schema)
    requires forall k :: 0 <= k < |nodes| ==> GroupTree(nodes[k]) == nodes[k]
    ensures GroupInstances(nodes, i) + GroupFrom(nodes, i + 1) == nodes[i..i + 1] + GroupOrRun(nodes, i + 1)
  {
    hide GroupTree, IsContiguous, GroupInstances, GroupFrom, NextInstance, IsSkipped;
    NextInRun(nodes, i);
    InstancesFrom(nodes, i);
    if i + 1 < |nodes| && nodes[i + 1].schema == nodes[i].schema {
      SkippedInRun(nodes, i);
      var own, rest := GroupInstances(nodes, i + 1), GroupFrom(nodes, i + 2);
      assert nodes[i..i + 1] + own + rest == nodes[i..i + 1] + (own + rest);
    } else if i + 1 < |nodes| {
      NoLaterInstance(nodes, i);
    }
  }

  lemma InstancesFrom(nodes: seq<Tree>, i: nat)
    requires i < |nodes| && GroupTree(nodes[i]) == nodes[i]
    ensures var k := NextInstance(nodes, nodes[i].schema, i + 1);
            GroupInstances(nodes, i) == nodes[i..i + 1] + if k < |nodes| then GroupInstances(nodes, k) else []
  {
    hide GroupTree, NextInstance;
  }

  lemma SkippedInRun(nodes: seq<Tree>, i: nat)
    requires i + 1 < |nodes| && IsMulti(nodes[i].schema) && nodes[i + 1].schema == nodes[i].schema
    ensures GroupFrom(nodes, i + 1) == GroupFrom(nodes, i + 2)
  {
    hide GroupEntry;
    assert HasEarlier(nodes, i + 1);
  }

  lemma NextInRun(nodes: seq<Tree>, i: nat)
    requires i < |nodes| && IsContiguous(nodes) && IsMulti(nodes[i].schema)
    ensures NextInstance(nodes, nodes[i].schema, i + 1)
         == if i + 1 < |nodes| && nodes[i + 1].schema == nodes[i].schema then i + 1 else |nodes|
  {
    forall k | i + 1 < k < |nodes| && nodes[i + 1].schema != nodes[i].schema ensures nodes[k].schema != nodes[i].schema {
    }
  }

  /** The output from `i` on, when the instances before `i` already took the run that reaches `i`. */
  function GroupOrRun(nodes: seq<Tree>, i: nat): seq<Tree>
    requires i <= |nodes|
  {
    if i < |nodes| && IsMulti(nodes[i].schema) then GroupInstances(nodes, i) + GroupFrom(nodes, i + 1)
    else GroupFrom(nodes, i)
  }

  lemma NoLaterInstance(nodes: seq<Tree>, i: nat)
    requires i + 1 < |nodes| && IsContiguous(nodes) && IsMulti(nodes[i].schema)
    requires nodes[i + 1].schema != nodes[i].schema
    ensures GroupFrom(nodes, i + 1) == GroupOrRun(nodes, i + 1)
  {
    if IsMulti(nodes[i + 1].schema) {
      assert !HasEarlier(nodes, i + 1);
    }
  }

  lemma {:induction false} GroupedRun(nodes: seq<Tree>, i: nat)
    requires i <= |nodes| && IsContiguous(nodes)
    requires forall k :: 0 <= k < |nodes| ==> GroupTree(nodes[k]) == nodes[k]
    ensures GroupOrRun(nodes, i) == nodes[i..]
    decreases |nodes| - i
  {
    hide GroupTree, GroupInstances;
    if i < |nodes| {
      GroupedRun(nodes, i + 1);
      assert nodes[i..] == nodes[i..i + 1] + nodes[i + 1..];
      if IsMulti(nodes[i].schema) {
        RunOfInstances(nodes, i);
      } else {
        FirstOfRun(nodes, i + 1);
        assert GroupFrom(nodes, i) == [nodes[i]] + GroupFrom(nodes, i + 1);
      }
    }
  }

  lemma FirstOfRun(nodes: seq<Tree>, i: nat)
    requires i <= |nodes| && IsContiguous(nodes)
    requires 0 < i && !IsMulti(nodes[i - 1].schema)
    ensures GroupFrom(nodes, i) == GroupOrRun(nodes, i)
  {
    if i < |nodes| && IsMulti(nodes[i].schema) {
      var last := nodes[i - 1].schema;
      assert forall k :: 0 <= k < i - 1 && nodes[k].schema == nodes[i].schema ==> last == nodes[k].schema;
    }
  }

  lemma {:induction false} GroupedTreeUnchanged(t: Tree)
    requires IsGrouped(t)
    ensures GroupTree(t) == t
    decreases t
  {
    if t.Inner? {
      forall k | 0 <= k < |t.children| ensures GroupTree(t.children[k]) == t.children[k] {
        GroupedTreeUnchanged(t.children[k]);
      }
      GroupedRun(t.children, 0);
      assert t.children != [] ==> !HasEarlier(t.children, 0);
      assert GroupFrom(t.children, 0) == GroupOrRun(t.children, 0);
    }
  }

  /** Grouping changes a tree exactly when some instances were apart, at any depth. */
  lemma GroupIdentity(t: Tree)
    ensures GroupTree(t) == t <==> IsGrouped(t)
  {
    GroupTreeGrouped(t);
    if IsGrouped(t) {
      GroupedTreeUnchanged(t);
    }
  }

  // ----- documents that can be read back -----------------------------------------------------

  predicate IsFirstDigit(v: string, i: nat)
    requires i < |v|
  {
    IsDigit(v[i]) && forall k :: 0 <= k < i ==> !IsDigit(v[k])
  }

  /** Digits and minus signs; unless a digit was `seen` before, the first one is no 0 in front of another. */
  predicate IsNumberText(v: string, seen: bool) {
    && (forall i :: 0 <= i < |v| ==> IsDigit(v[i]) || v[i] == '-')
    && (!seen ==> forall i :: 0 <= i < |v| - 1 && IsFirstDigit(v, i) && v[i] == '0' ==> !IsDigit(v[i + 1]))
  }

  /** A bare value that is read back. */
  predicate IsReadableText(v: string) {
    v == "true" || v == "false" || (v != "" && IsNumberText(v, false))
  }

  lemma {:induction false} NumberTextStep(v: string, seen: bool)
    requires v != ""
    ensures IsNumberText(v, seen)
       <==> && (IsDigit(v[0]) || v[0] == '-') && !(v[0] == '0' && !seen && |v| > 1 && IsDigit(v[1]))
            && IsNumberText(v[1..], seen || v[0] != '-')
  {
    var t := v[1..];
    assert forall i :: 0 <= i < |t| ==> t[i] == v[i + 1];
    if IsDigit(v[0]) {
      assert IsFirstDigit(v, 0) && forall i :: 0 < i < |v| ==> !IsFirstDigit(v, i);
    } else {
      assert forall i :: 0 <= i < |t| ==> IsFirstDigit(t, i) == IsFirstDigit(v, i + 1);
    }
    if IsNumberText(v, seen) && v[0] == '-' && !seen {
      forall i | 0 <= i < |t| - 1 && IsFirstDigit(t, i) && t[i] == '0' ensures !IsDigit(t[i + 1]) {
        assert IsFirstDigit(v, i + 1) && v[i + 2] == t[i + 1];
      }
    }
    if v[0] == '-' && IsNumberText(t, seen) && !seen {
      forall i | 0 <= i < |v| - 1 && IsFirstDigit(v, i) && v[i] == '0' ensures !IsDigit(v[i + 1]) {
        assert IsFirstDigit(t, i - 1) && t[i] == v[i + 1];
      }
    }
  }

  /** The number scanner takes a text as a whole exactly when it has this form. */
  lemma {:induction false} NumberScanned(v: string, seen: bool)
    ensures NumberLength(v, seen) == Some(|v|) <==> IsNumberText(v, seen)
    decreases |v|
  {
    hide IsNumberText;
    if v != "" {
      NumberTextStep(v, seen);
      NumberScanned(v[1..], seen || v[0] != '-');
    } else {
      NoNumberText(seen);
    }
  }

  lemma NoNumberText(seen: bool)
    ensures IsNumberText("", seen)
  {
  }

  /** The bare values that are read back are the two literals and the texts of this form. */
  lemma BareIsReadable(v: string)
    ensures IsBareReadable(v) <==> IsReadableText(v)
  {
    hide NumberLength;
    NumberScanned(v, false);
    if v != "" && IsNumberText(v, false) {
      assert IsDigit(v[0]) || v[0] == '-';
    }
  }

  /** An integer as JSON writes it: an optional minus sign and digits, no 0 in front of another digit. */
  predicate IsJsonInteger(v: string) {
    var digits := Unsigned(v);
    digits != "" && (forall i :: 0 <= i < |digits| ==> IsDigit(digits[i])) && (digits[0] == '0' ==> |digits| == 1)
  }

  function Unsigned(v: string): string {
    if v != "" && v[0] == '-' then v[1..] else v
  }

  /** Every canonical integer is read back; what else is has a minus sign behind its first character, or
      no digit. */
  lemma IntegersAreReadable(v: string)
    ensures IsJsonInteger(v) <==> v != "" && IsNumberText(v, false) && v != "-" && forall i :: 0 < i < |v| ==> v[i] != '-'
  {
    var digits := Unsigned(v);
    var s := |v| - |digits|;
    assert forall i :: 0 <= i < |digits| ==> digits[i] == v[i + s];
    assert forall i :: s <= i < |v| ==> v[i] == digits[i - s];
    if IsJsonInteger(v) {
      assert IsDigit(digits[0]) && IsDigit(v[s]);
      assert forall i :: s < i < |v| ==> !IsFirstDigit(v, i);
    }
    if v != "" && IsNumberText(v, false) && v != "-" && forall i :: 0 < i < |v| ==> v[i] != '-' {
      assert forall i :: s <= i < |v| ==> IsDigit(v[i]);
      assert digits != "" && digits[0] == v[s] && IsFirstDigit(v, s);
      assert |digits| > 1 ==> IsDigit(v[s + 1]);
    }
  }

  /** Texts that are no JSON numbers and are read back all the same. */
  lemma OtherNumbers()
    ensures IsReadableText("1-2") && !IsJsonInteger("1-2") && IsReadableText("-") && !IsJsonInteger("-")
  {
    var v := "1-2";
    assert v[0] == '1' && v[1] == '-' && v[2] == '2' && IsFirstDigit(v, 0);
    assert forall i :: 0 < i < 3 ==> !IsFirstDigit(v, i);
    assert Unsigned(v) == v && !IsDigit(v[1]);
    assert "-"[0] == '-' && Unsigned("-") == "";
  }

  /** A tree all of whose bare values are readable texts, whose list instances have children, and whose
      leaf-lists start with an instance that has a value. */
  predicate IsReadable(t: Tree)
    decreases t
  {
    match t
    case Term(_, value, printed) => printed.Bare? && value.Some? ==> IsReadableText(value.value)
    case Inner(_, children) =>
      forall i :: 0 <= i < |children| ==> IsReadable(children[i]) && IsReadableHere(children, i)
  }

  predicate IsReadableHere(nodes: seq<Tree>, i: nat)
    requires i < |nodes|
  {
    IsMulti(nodes[i].schema) ==>
      (nodes[i].Inner? ==> nodes[i].children != []) && (!HasEarlier(nodes, i) ==> HasContent(nodes[i]))
  }

  predicate AreReadable(nodes: seq<Tree>) {
    forall i :: 0 <= i < |nodes| ==> IsReadable(nodes[i]) && IsReadableHere(nodes, i)
  }

  lemma {:induction false} CleanInstancesAll(nodes: seq<Tree>, j: nat)
    requires j < |nodes|
    ensures CleanInstances(nodes, j)
        <==> forall m :: j <= m < |nodes| && nodes[m].schema == nodes[j].schema ==> CleanInstance(nodes[m])
    decreases |nodes| - j
  {
    hide CleanInstance;
    var k := NextInstance(nodes, nodes[j].schema, j + 1);
    if k < |nodes| {
      CleanInstancesAll(nodes, k);
    }
  }

  lemma {:induction false} CleanFromAll(nodes: seq<Tree>, i: nat)
    requires i <= |nodes|
    ensures CleanFrom(nodes, i) <==> forall m :: i <= m < |nodes| ==> IsSkipped(nodes, m) || CleanEntry(nodes, m)
    decreases |nodes| - i
  {
    hide CleanEntry;
    if i < |nodes| {
      CleanFromAll(nodes, i + 1);
    }
  }

  lemma {:induction false} FirstInstance(nodes: seq<Tree>, m: nat) returns (f: nat)
    requires m < |nodes|
    ensures f <= m && nodes[f].schema == nodes[m].schema && !HasEarlier(nodes, f)
    decreases m
  {
    f := m;
    if HasEarlier(nodes, m) {
      var k :| 0 <= k < m && nodes[k].schema == nodes[m].schema;
      f := FirstInstance(nodes, k);
    }
  }

  lemma CleanIsReadable(nodes: seq<Tree>)
    requires CleanFrom(nodes, 0)
    ensures forall m :: 0 <= m < |nodes| ==> IsClean(nodes[m]) && IsReadableHere(nodes, m)
  {
    hide IsClean;
    CleanFromAll(nodes, 0);
    forall m | 0 <= m < |nodes| ensures IsClean(nodes[m]) && IsReadableHere(nodes, m) {
      if IsMulti(nodes[m].schema) {
        var f := FirstInstance(nodes, m);
        assert CleanEntry(nodes, f);
        CleanInstancesAll(nodes, f);
        assert CleanInstance(nodes[m]);
        assert !HasEarlier(nodes, m) ==> CleanEntry(nodes, m);
      } else {
        assert CleanEntry(nodes, m);
      }
    }
  }

  lemma ReadableIsClean(nodes: seq<Tree>)
    requires forall m :: 0 <= m < |nodes| ==> IsClean(nodes[m]) && IsReadableHere(nodes, m)
    ensures CleanFrom(nodes, 0)
  {
    hide IsClean;
    CleanFromAll(nodes, 0);
    forall m | 0 <= m < |nodes| && !IsSkipped(nodes, m) ensures CleanEntry(nodes, m) {
      if IsMulti(nodes[m].schema) {
        CleanInstancesAll(nodes, m);
      }
    }
  }

  lemma {:induction false} ReadableTree(t: Tree)
    ensures IsClean(t) == IsReadable(t)
    decreases t
  {
    hide IsReadableText, IsBareReadable;
    if t.Inner? {
      ReadableNodes(t.children);
    } else if t.value.Some? {
      BareIsReadable(t.value.value);
    }
  }

  /** The printer's and parser's own notion of readable is the plain one. */
  lemma {:induction false} ReadableNodes(nodes: seq<Tree>)
    ensures CleanFrom(nodes, 0) == AreReadable(nodes)
    decreases nodes
  {
    forall m | 0 <= m < |nodes| ensures IsClean(nodes[m]) == IsReadable(nodes[m]) {
      ReadableTree(nodes[m]);
    }
    if CleanFrom(nodes, 0) {
      CleanIsReadable(nodes);
    } else if AreReadable(nodes) {
      ReadableIsClean(nodes);
    }
  }

  // ----- values that cannot be read back ------------------------------------------------------

  /** A decimal64 value with a decimal point is printed bare and never read back. */
  lemma DecimalNotReadable(v: string)
    requires IsBareText(v) && '.' in v
    ensures !IsBareReadable(v)
  {
    if v != "true" && v != "false" {
      var i :| 0 <= i < |v| && v[i] == '.';
      NumberStops(v, i, false);
    }
  }

  lemma {:induction false} NumberStops(v: string, i: nat, seen: bool)
    requires i < |v| && v[i] == '.'
    ensures NumberLength(v, seen) != Some(|v|)
    decreases i
  {
    if i > 0 {
      NumberStops(v[1..], i - 1, seen || v[0] != '-');
    }
  }
}

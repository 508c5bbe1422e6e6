/** The printer of src/printer_json.c on the linked data tree, proved against the functions of JsonTree. */
module JsonPrinter {
  import opened JsonText
  import T = JsonTree
  import opened JsonNodes

  /** All quoted values can be printed: json_print_string has no argument for its escape of other bytes. */
  predicate IsPlainTree(t: T.Tree)
    decreases t
  {
    match t
    case Term(_, value, printed) => printed.Quoted? && value.Some? ==> IsPlainText(value.value)
    case Inner(_, children) => forall i :: 0 <= i < |children| ==> IsPlainTree(children[i])
  }

  /** The siblings `ks` below `p` are finished, and denote `ts`, which can be printed. */
  ghost predicate Printable(ks: seq<Node>, p: Node?, ts: seq<T.Tree>)
    reads ks, set k, n | k in ks && n in k.below :: n
  {
    Forest(ks, p) && |ts| == |ks| && forall i :: 0 <= i < |ks| ==> ks[i].tree == ts[i] && IsPlainTree(ts[i])
  }

  /** The children of a finished node. */
  lemma PrintableKids(ks: seq<Node>, p: Node?, ts: seq<T.Tree>, i: nat)
    requires Printable(ks, p, ts) && i < |ks| && ts[i].Inner?
    ensures Printable(ks[i].kids, ks[i], ts[i].children) && ks[i].child == First(ks[i].kids)
    ensures ts[i].schema == ks[i].schema
  {
    var n := ks[i];
    assert n.Whole() && n.Ready();
    assert forall k, m :: k in n.kids && m in k.below ==> m in n.below;
  }

  lemma PrintableNode(ks: seq<Node>, p: Node?, ts: seq<T.Tree>, i: nat)
    requires Printable(ks, p, ts) && i < |ks|
    ensures |ts| == |ks| && ks[i].parent == p && ks[i].schema == ts[i].schema
    ensures ts[i].Term? == !IsInner(ks[i].schema)
    ensures ts[i].Term? ==> ts[i] == T.Term(ks[i].schema, ks[i].value, ks[i].printed)
    ensures ts[i].Term? && ks[i].printed.Quoted? && ks[i].value.Some? ==> IsPlainText(ks[i].value.value)
    ensures ts[i].Inner? ==> (ks[i].child != null <==> ts[i].children != [])
  {
    assert ks[i].Whole() && ks[i].Ready();
  }

  lemma SameLength(ks: seq<Node>, p: Node?, ts: seq<T.Tree>)
    requires Printable(ks, p, ts)
    ensures |ts| == |ks|
  {
  }

  // ----- the walks over siblings -------------------------------------------------------------

  /** The backward walk that looks for an earlier instance of the same list or leaf-list. */
  method HasEarlierInstance(node: Node, ghost ks: seq<Node>, ghost p: Node?, ghost ts: seq<T.Tree>, ghost i: nat)
    returns (earlier: bool)
    requires Printable(ks, p, ts) && i < |ks| && node == ks[i]
    ensures earlier == T.HasEarlier(ts, i)
  {
    hide Node.Whole, Node.Ready, IsPlainTree;
    SchemasAgree(ks, p, ts);
    var iter := node.prev;
    ghost var k: int := i - 1;
    while iter.next != null
      invariant -1 <= k < i && iter == if k >= 0 then ks[k] else ks[|ks| - 1]
      invariant k >= 0 ==> iter.next == ks[k + 1]
      invariant forall m :: k < m < i ==> ts[m].schema != ts[i].schema
      decreases k
    {
      if iter.schema == node.schema {
        return true;
      }
      iter := iter.prev;
      k := k - 1;
    }
    return false;
  }

  lemma SchemasAgree(ks: seq<Node>, p: Node?, ts: seq<T.Tree>)
    requires Printable(ks, p, ts)
    ensures forall i :: 0 <= i < |ks| ==> ks[i].schema == ts[i].schema
  {
    forall i | 0 <= i < |ks| ensures ks[i].schema == ts[i].schema {
      PrintableNode(ks, p, ts, i);
    }
  }

  /** The forward walk to the next instance. */
  method NextInstance(list: Node, node: Node, ghost ks: seq<Node>, ghost p: Node?, ghost ts: seq<T.Tree>, ghost j: nat)
    returns (next: Node?, ghost k: nat)
    requires Printable(ks, p, ts) && j < |ks| && list == ks[j] && node.schema == ts[j].schema
    ensures k == T.NextInstance(ts, ts[j].schema, j + 1)
    ensures next == if k < |ks| then ks[k] else null
  {
    hide Node.Whole, Node.Ready, IsPlainTree;
    SchemasAgree(ks, p, ts);
    k := j + 1;
    next := list.next;
    assert k < |ks| ==> ks[k] == ks[k];
    while next != null && next.schema != node.schema
      invariant j < k <= |ks| && next == if k < |ks| then ks[k] else null
      invariant T.NextInstance(ts, ts[j].schema, j + 1) == T.NextInstance(ts, ts[j].schema, k)
      decreases |ks| - k
    {
      assert k + 1 < |ks| ==> ks[k + 1] == ks[k + 1];
      next := next.next;
      k := k + 1;
    }
  }

  // ----- printing ----------------------------------------------------------------------------

  /** A module prefix is printed for nodes without a parent. */
  function Prefix(mod: string, p: Node?): string {
    if p == null then mod + ":" else ""
  }

  method PrintKey(out: Output, mod: string, node: Node)
    modifies out
    ensures out.text == old(out.text) + T.Key(Prefix(mod, node.parent), node.schema)
  {
    if node.parent == null {
      out.Print("\"" + (mod + ":") + node.schema.name + "\":");
    } else {
      out.Print("\"" + "" + node.schema.name + "\":");
    }
  }

  /** The value switch of json_print_leaf. */
  method PrintValue(out: Output, leaf: Node)
    requires leaf.printed.Quoted? && leaf.value.Some? ==> IsPlainText(leaf.value.value)
    modifies out
    ensures out.text == old(out.text) + T.PrintValue(T.Term(leaf.schema, leaf.value, leaf.printed))
  {
    match leaf.printed {
      case Quoted =>
        var n := PrintString(out, if leaf.value.Some? then leaf.value.value else "");
      case Bare => out.Print(if leaf.value.Some? then leaf.value.value else "null");
      case Empty => out.Print("[null]");
    }
  }

  /** The object of a container or list instance; `inside` is the level of its members. */
  method PrintObject(out: Output, level: nat, mod: string, node: Node, ghost t: T.Tree)
    requires t.Inner? && Printable(node.kids, node, t.children) && node.child == First(node.kids)
    modifies out
    ensures out.text == old(out.text) + ("{\n" + T.PrintNodes(level + 1, "", t.children) + (T.Indent(level) + "}"))
    decreases t, 1
  {
    hide Printable, T.PrintNodes, T.Blanks;
    out.Print("{\n");
    PrintNodes(out, level + 1, mod, node.child, node.kids, node, t.children);
    out.Print(T.Indent(level) + "}");
  }

  /** One instance of a list or leaf-list, without its indentation. */
  method PrintInstance(out: Output, level: nat, mod: string, list: Node, ghost ks: seq<Node>, ghost p: Node?,
                       ghost ts: seq<T.Tree>, ghost j: nat)
    requires Printable(ks, p, ts) && j < |ks| && list == ks[j]
    modifies out
    ensures out.text == old(out.text) + T.PrintInstance(level, ts[j])
    decreases ts, 0
  {
    hide T.PrintNodes;
    PrintableNode(ks, p, ts, j);
    if list.schema.kind.List? || list.schema.kind.Container? {
      PrintableKids(ks, p, ts, j);
      PrintObject(out, level, mod, list, ts[j]);
    } else {
      PrintValue(out, list);
    }
  }

  /** json_print_leaf_list from the first instance on, behind the key. */
  method PrintArray(out: Output, level: nat, mod: string, node: Node, ghost ks: seq<Node>, ghost p: Node?,
                    ghost ts: seq<T.Tree>, ghost i: nat)
    requires Printable(ks, p, ts) && i < |ks| && node == ks[i] && T.IsMulti(node.schema)
    modifies out
    ensures out.text == old(out.text) +
            if T.HasContent(ts[i]) then " [\n" + T.PrintInstances(level + 1, ts, i) + ("\n" + T.Indent(level) + "]") else " null"
    decreases ts, 1
  {
    hide T.PrintInstances, T.Blanks, Printable, T.NextInstance;
    PrintableNode(ks, p, ts, i);
    var empty := if node.schema.kind.List? then node.child == null else node.value.None?;
    if empty {
      out.Print(" null");
      return;
    }
    out.Print(" [\n");
    ghost var start := out.text;
    var list: Node? := node;
    ghost var j := i;
    while list != null
      invariant list != null ==> j < |ks| && list == ks[j] && ts[j].schema == ts[i].schema
      invariant out.text + (if list != null then T.PrintInstances(level + 1, ts, j) else "")
             == start + T.PrintInstances(level + 1, ts, i)
      invariant j <= |ks| && (list == null ==> j == |ks|)
      decreases |ks| - j
    {
      ghost var before := out.text;
      out.Print(T.Indent(level + 1));
      PrintInstance(out, level + 1, mod, list, ks, p, ts, j);
      ghost var k;
      list, k := NextInstance(list, node, ks, p, ts, j);
      if list != null {
        out.Print(",\n");
      }
      InstancesStep(level + 1, ts, j, before);
      j := k;
    }
    assert out.text == start + T.PrintInstances(level + 1, ts, i);
    out.Print("\n" + T.Indent(level) + "]");
    ArrayText(old(out.text), T.PrintInstances(level + 1, ts, i), "\n" + T.Indent(level) + "]");
  }

  lemma ArrayText(before: string, items: string, end: string)
    ensures before + " [\n" + items + end == before + (" [\n" + items + end)
  {
  }

  lemma InstancesStep(level: nat, ts: seq<T.Tree>, j: nat, before: string)
    requires j < |ts|
    ensures var k := T.NextInstance(ts, ts[j].schema, j + 1);
            before + T.PrintInstances(level, ts, j) ==
            if k < |ts| then before + T.Indent(level) + T.PrintInstance(level, ts[j]) + ",\n" + T.PrintInstances(level, ts, k)
            else before + T.Indent(level) + T.PrintInstance(level, ts[j])
  {
    hide T.Blanks;
  }

  /** One member: its key and its value, object or array. */
  method PrintEntry(out: Output, level: nat, mod: string, node: Node, ghost ks: seq<Node>, ghost p: Node?,
                    ghost ts: seq<T.Tree>, ghost i: nat)
    requires Printable(ks, p, ts) && i < |ks| && node == ks[i]
    modifies out
    ensures out.text == old(out.text) + T.PrintEntry(level, Prefix(mod, p), ts, i)
    decreases ts, 2, 0
  {
    hide T.PrintInstances, T.PrintNodes, T.Blanks, Printable, T.PrintEntry, T.PrintValue, T.Key, T.HasContent;
    PrintableNode(ks, p, ts, i);
    ghost var before := out.text;
    PrintKey(out, mod, node);
    EntryText(level, Prefix(mod, p), ts, i, before);
    match node.schema.kind {
      case Container =>
        PrintableKids(ks, p, ts, i);
        out.Print(" ");
        PrintObject(out, level, mod, node, ts[i]);
      case Leaf =>
        out.Print(" ");
        PrintValue(out, node);
      case _ =>
        PrintArray(out, level, mod, node, ks, p, ts, i);
    }
  }

  lemma EntryText(level: nat, prefix: string, ts: seq<T.Tree>, i: nat, before: string)
    requires i < |ts|
    ensures var t := ts[i];
            before + T.PrintEntry(level, prefix, ts, i) == before + T.Key(prefix, t.schema) +
            if T.IsMulti(t.schema) then
              if T.HasContent(t) then " [\n" + T.PrintInstances(level + 1, ts, i) + ("\n" + T.Indent(level) + "]") else " null"
            else if t.Inner? then " " + ("{\n" + T.PrintNodes(level + 1, "", t.children) + (T.Indent(level) + "}"))
            else " " + T.PrintValue(t)
  {
    hide T.PrintInstances, T.PrintNodes, T.Blanks, T.PrintValue, T.Key;
    var t := ts[i];
    assert " " + ("{\n" + T.PrintNodes(level + 1, "", if t.Inner? then t.children else []) + (T.Indent(level) + "}"))
        == " {\n" + T.PrintNodes(level + 1, "", if t.Inner? then t.children else []) + (T.Indent(level) + "}");
  }

  /** json_print_nodes with all siblings. */
  method PrintNodes(out: Output, level: nat, mod: string, root: Node?, ghost ks: seq<Node>, ghost p: Node?, ghost ts: seq<T.Tree>)
    requires Printable(ks, p, ts) && root == First(ks)
    modifies out
    ensures out.text == old(out.text) + T.PrintNodes(level, Prefix(mod, p), ts)
    decreases ts, 3
  {
    hide T.PrintNodes, T.PrintRest, T.PrintEntry, Printable, T.Blanks, T.IsSkipped;
    SameLength(ks, p, ts);
    var node := root;
    ghost var i := 0;
    while node != null
      invariant i <= |ks| == |ts| && node == if i < |ks| then ks[i] else null
      invariant out.text + Remaining(level, Prefix(mod, p), ts, i) == old(out.text) + T.PrintNodes(level, Prefix(mod, p), ts)
      decreases |ks| - i
    {
      PrintOne(out, level, mod, node, ks, p, ts, i);
      NextSibling(ks, p, ts, i);
      node := node.next;
      i := i + 1;
    }
    NothingRemains(level, Prefix(mod, p), ts);
    out.Print("\n");
  }

  /** The body of the loop over siblings: a member with its separator, unless it was printed before. */
  method PrintOne(out: Output, level: nat, mod: string, node: Node, ghost ks: seq<Node>, ghost p: Node?,
                  ghost ts: seq<T.Tree>, ghost i: nat)
    requires Printable(ks, p, ts) && i < |ks| && node == ks[i]
    modifies out
    ensures out.text + Remaining(level, Prefix(mod, p), ts, i + 1) == old(out.text) + Remaining(level, Prefix(mod, p), ts, i)
    decreases ts, 2, 1
  {
    hide T.PrintEntry, Remaining, Printable, T.Blanks, T.HasEarlier, Linked, Forest;
    SameLength(ks, p, ts);
    RemainingStep(level, Prefix(mod, p), ts, i);
    SchemasAgree(ks, p, ts);
    NextSibling(ks, p, ts, i);
    var skip := false;
    if node.schema.kind.LeafList? || node.schema.kind.List? {
      skip := HasEarlierInstance(node, ks, p, ts, i);
    }
    if !skip {
      if node.prev.next != null {
        out.Print(",\n");
      }
      ghost var before := out.text;
      out.Print(T.Indent(level));
      PrintEntry(out, level, mod, node, ks, p, ts, i);
      assert out.text == before + T.Indent(level) + T.PrintEntry(level, Prefix(mod, p), ts, i);
    }
  }

  lemma RemainingStep(level: nat, prefix: string, ts: seq<T.Tree>, i: nat)
    requires i < |ts|
    ensures forall s: string :: s + Remaining(level, prefix, ts, i) ==
              if T.IsSkipped(ts, i) then s + Remaining(level, prefix, ts, i + 1)
              else s + (if i > 0 then ",\n" else "") + T.Indent(level) + T.PrintEntry(level, prefix, ts, i)
                   + Remaining(level, prefix, ts, i + 1)
  {
    hide T.PrintEntry, T.Blanks;
    assert i == 0 ==> !T.HasEarlier(ts, i);
    forall s: string ensures s + Remaining(level, prefix, ts, i) ==
              if T.IsSkipped(ts, i) then s + Remaining(level, prefix, ts, i + 1)
              else s + (if i > 0 then ",\n" else "") + T.Indent(level) + T.PrintEntry(level, prefix, ts, i)
                   + Remaining(level, prefix, ts, i + 1)
    {
    }
  }

  lemma NextSibling(ks: seq<Node>, p: Node?, ts: seq<T.Tree>, i: nat)
    requires Printable(ks, p, ts) && i < |ks|
    ensures |ts| == |ks| && ks[i].next == if i + 1 < |ks| then ks[i + 1] else null
    ensures ks[i].prev != null && (ks[i].prev.next != null <==> i > 0)
  {
    hide Node.Whole, Node.Ready;
    if i > 0 {
      assert ks[i].prev == ks[i - 1];
    }
    if i + 1 < |ks| {
      assert ks[i].next == ks[i + 1];
    }
  }

  /** What is still to be printed before sibling `i`. */
  function Remaining(level: nat, prefix: string, ts: seq<T.Tree>, i: nat): string
    requires i <= |ts|
  {
    if i == 0 then T.PrintNodes(level, prefix, ts) else T.PrintRest(level, prefix, ts, i)
  }

  lemma NothingRemains(level: nat, prefix: string, ts: seq<T.Tree>)
    ensures Remaining(level, prefix, ts, |ts|) == "\n"
  {
  }

  /** json_print_data with all top-level siblings. */
  method PrintDocument(out: Output, mod: string, root: Node?, ghost ks: seq<Node>, ghost ts: seq<T.Tree>)
    requires Printable(ks, null, ts) && root == First(ks)
    modifies out
    ensures out.text == old(out.text) + T.PrintDocument(mod, ts)
  {
    hide T.PrintNodes, Printable;
    out.Print("{\n");
    PrintNodes(out, 1, mod, root, ks, null, ts);
    out.Print("}\n");
  }
}

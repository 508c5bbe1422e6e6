/** The data tree as struct lyd_node links it (src/tree_data.h): siblings in a list whose first `prev`
    points to the last node, every sibling pointing to its parent. */
module JsonNodes {
  import opened CStrings
  import opened JsonTree

  class Node {
    var schema: Schema
    var value: Option<string>
    var printed: Printed
    var next: Node?
    var prev: Node?
    var parent: Node?
    var child: Node?

    ghost var kids: seq<Node>  // the children, in order
    ghost var below: set<Node>  // all nodes below this one
    ghost var tree: Tree  // the data tree this node is the root of

    /** calloc and the schema assignment of json_parse_data; a new node is not linked yet. */
    constructor (schema: Schema)
      ensures this.schema == schema && value == None && child == null && next == null
      ensures kids == [] && below == {}
      ensures tree == if IsInner(schema) then Inner(schema, []) else Term(schema, None, printed)
      ensures Whole()
    {
      this.schema := schema;
      value, printed := None, Quoted;
      next, prev, parent, child := null, null, null, null;
      kids, below := [], {};
      tree := if IsInner(schema) then Inner(schema, []) else Term(schema, None, Quoted);
    }

    /** A finished node: its subtree is well linked and denotes `tree`. Its own place among its
        siblings is not part of it. */
    ghost predicate Whole()
      reads this`schema, this`value, this`printed, this`child, this`kids, this`below, this`tree, below
      decreases tree, 1
    {
      Ready() && Linked(kids, this) && child == First(kids)
    }

    /** Everything Whole says except for how the children are linked. */
    ghost predicate Ready()
      reads this`schema, this`value, this`printed, this`kids, this`below, this`tree, below
      decreases tree, 0
    {
      && this !in below
      && (forall i :: 0 <= i < |kids| ==> kids[i] in below && kids[i].below <= below)
      && (forall i, j :: 0 <= i < j < |kids| ==> Apart(kids[i], kids[j]))
      && (if tree.Term? then !IsInner(schema) && kids == [] && tree == Term(schema, value, printed)
          else IsInner(schema) && tree.schema == schema && |tree.children| == |kids|)
      && (forall i :: 0 <= i < |kids| ==> kids[i].tree == tree.children[i])
      && (forall i :: 0 <= i < |kids| ==> kids[i].Whole())
    }
  }

  predicate IsInner(s: Schema) {
    s.kind.Container? || s.kind.List?
  }

  function First(ks: seq<Node>): Node? {
    if ks == [] then null else ks[0]
  }

  function Last(ks: seq<Node>): Node? {
    if ks == [] then null else ks[|ks| - 1]
  }

  /** The sibling list invariant. */
  ghost predicate Linked(ks: seq<Node>, p: Node?)
    reads ks`next, ks`prev, ks`parent
  {
    && (forall i, j :: 0 <= i < j < |ks| ==> ks[i] != ks[j])
    && (forall i :: 0 <= i < |ks| ==> ks[i].parent == p)
    && (forall i, j {:trigger ks[i].next, ks[j]} :: 0 <= i && j == i + 1 && j < |ks| ==> ks[i].next == ks[j])
    && (forall i, j {:trigger ks[i], ks[j].prev} :: 0 <= i && j == i + 1 && j < |ks| ==> ks[j].prev == ks[i])
    && (ks != [] ==> ks[0].prev == ks[|ks| - 1] && ks[|ks| - 1].next == null)
  }

  /** Two subtrees that share no node. */
  ghost predicate Apart(a: Node, b: Node)
    reads a`below, b`below
  {
    a != b && a !in b.below && b !in a.below && a.below !! b.below
  }

  ghost function Trees(ks: seq<Node>): (ts: seq<Tree>)
    reads ks`tree
    ensures |ts| == |ks| && forall i :: 0 <= i < |ks| ==> ts[i] == ks[i].tree
    decreases |ks|
  {
    if ks == [] then [] else [ks[0].tree] + Trees(ks[1..])
  }

  /** While the content of a new node is parsed: `node` is linked behind the children of `p`, which does
      not count it as its own yet. */
  ghost predicate Open(p: Node, node: Node)
    reads p, p.below, node`next, node`prev, node`parent
  {
    && p.Ready() && p.tree.Inner?
    && node != p && node !in p.below
    && Linked(p.kids + [node], p) && p.child == (p.kids + [node])[0]
  }

  /** Changing how children are linked leaves everything below them finished. */
  twostate lemma RelinkKeepsReady(p: Node)
    requires old(p.Ready())
    requires unchanged(p`schema, p`value, p`printed, p`kids, p`below, p`tree)
    requires forall n :: n in p.below && n !in p.kids ==> unchanged(n)
    requires forall n :: n in p.kids ==> unchanged(n`schema, n`value, n`printed, n`child, n`kids, n`below, n`tree)
    ensures p.Ready()
  {
    forall i | 0 <= i < |p.kids| ensures p.kids[i].Whole() {
      var k := p.kids[i];
      assert k in p.kids && old(k.Whole()) && old(k.Ready()) && k.below == old(k.below) <= p.below;
      forall n, j | n in k.below && 0 <= j < |p.kids| ensures n != p.kids[j] {
        if i < j {
          assert old(Apart(p.kids[i], p.kids[j]));
        } else if j < i {
          assert old(Apart(p.kids[j], p.kids[i]));
        }
      }
    }
    forall i, j | 0 <= i < j < |p.kids| ensures Apart(p.kids[i], p.kids[j]) {
      assert old(Apart(p.kids[i], p.kids[j]));
      assert p.kids[i] in p.kids && p.kids[j] in p.kids;
    }
  }

  /** The pointers a newly linked last child needs; everything else stays as it was. */
  twostate predicate IsAppended(p: Node, new node: Node)
    reads p, p.below, node
  {
    && unchanged(p`schema, p`value, p`printed, p`kids, p`below, p`tree)
    && node.parent == p && node.next == null
    && node.prev == (if p.kids == [] then node else p.kids[|p.kids| - 1])
    && p.child == (if p.kids == [] then node else p.kids[0])
    && (forall n :: n in p.below && n !in p.kids ==> unchanged(n))
    && (forall n :: n in p.kids && n in p.below ==>
          unchanged(n`schema, n`value, n`printed, n`parent, n`child, n`kids, n`below, n`tree))
    && (forall i :: 0 <= i < |p.kids| && p.kids[i] in p.below ==>
          && p.kids[i].next == (if i == |p.kids| - 1 then node else old(p.kids[i].next))
          && p.kids[i].prev == (if i == 0 then node else old(p.kids[i].prev)))
  }

  twostate lemma AppendedIsLinked(p: Node, new node: Node)
    requires old(Linked(p.kids, p)) && node !in p.kids
    requires forall i :: 0 <= i < |p.kids| ==> p.kids[i] in p.below
    requires IsAppended(p, node)
    ensures Linked(p.kids + [node], p)
  {
    var ks := p.kids + [node];
    assert forall i :: 0 <= i < |p.kids| ==> ks[i] == p.kids[i] && p.kids[i] in p.kids;
  }

  twostate lemma AppendedIsOpen(p: Node, new node: Node)
    requires old(p.Ready()) && old(Linked(p.kids, p)) && p.tree.Inner?
    requires forall i :: 0 <= i < |p.kids| ==> p.kids[i] in p.below
    requires node != p && node !in p.below
    requires IsAppended(p, node)
    ensures Open(p, node)
  {
    hide Node.Ready, Node.Whole;
    RelinkKeepsReady(p);
    AppendedIsLinked(p, node);
  }

  // ----- the three places that link a node behind its siblings -------------------------------

  /** json_parse_data: a new node behind `prev`, the last child of `p` if there is one. */
  method LinkNode(p: Node, prev: Node?, node: Node)
    requires p.Whole() && p.tree.Inner? && prev == Last(p.kids)
    requires node != p && node !in p.below
    modifies p`child, p.below`next, p.below`prev, node`next, node`prev, node`parent
    requires node.next == null
    ensures Open(p, node)
  {
    node.parent := p;
    if p.child == null {
      p.child := node;
    }
    if prev != null {
      node.prev := prev;
      prev.next := node;
      p.child.prev := node;
    } else {
      node.prev := node;
    }
    AppendedIsOpen(p, node);
  }

  /** json_parse_data: another instance of a list, behind the instance just parsed. */
  method LinkInstance(p: Node, list: Node, node: Node)
    requires p.Whole() && p.tree.Inner? && list == Last(p.kids)
    requires node != p && node !in p.below
    modifies p.below`next, p.below`prev, node`next, node`prev, node`parent
    requires node.next == null
    ensures Open(p, node)
  {
    node.parent := list.parent;
    node.prev := list;
    list.next := node;
    var diter := p.child;
    diter.prev := node;
    AppendedIsOpen(p, node);
  }

  /** json_get_value: another leaf-list instance; the first sibling is found by walking backwards. */
  method LinkValue(p: Node, leaf: Node, node: Node)
    requires p.Whole() && p.tree.Inner? && leaf == Last(p.kids)
    requires node != p && node !in p.below
    modifies p.below`next, p.below`prev, node`next, node`prev, node`parent
    requires node.next == null
    ensures Open(p, node)
  {
    node.parent := leaf.parent;
    node.prev := leaf;
    leaf.next := node;
    var diter := leaf;
    ghost var i := |p.kids| - 1;
    while diter.prev != leaf
      invariant 0 <= i < |p.kids| && diter == p.kids[i]
      invariant i > 0 ==> diter.prev == p.kids[i - 1]
      decreases i
    {
      diter := diter.prev;
      i := i - 1;
    }
    diter.prev := node;
    AppendedIsOpen(p, node);
  }

  /** The new node is finished and becomes a child. */
  ghost method Adopt(p: Node, node: Node)
    requires Open(p, node) && node.Whole()
    requires p !in node.below && node.below !! p.below
    modifies p`kids, p`below, p`tree
    ensures p.Whole() && p.kids == old(p.kids) + [node]
    ensures p.tree == Inner(p.schema, old(p.tree.children) + [node.tree])
    ensures p.below == old(p.below) + {node} + node.below
  {
    p.below := p.below + {node} + node.below;
    p.tree := Inner(p.schema, p.tree.children + [node.tree]);
    p.kids := p.kids + [node];
  }

  // ----- top-level nodes ---------------------------------------------------------------------

  /** Finished siblings that share no node. */
  ghost predicate AllWhole(ks: seq<Node>)
    reads ks, set k, n | k in ks && n in k.below :: n
  {
    && (forall i :: 0 <= i < |ks| ==> ks[i].Whole())
    && (forall i, j :: 0 <= i < j < |ks| ==> Apart(ks[i], ks[j]))
  }

  /** A list of finished siblings. */
  ghost predicate Forest(ks: seq<Node>, p: Node?)
    reads ks, set k, n | k in ks && n in k.below :: n
  {
    AllWhole(ks) && Linked(ks, p)
  }

  lemma NoForest()
    ensures Forest([], null)
  {
  }

  twostate lemma RelinkKeepsWhole(ks: seq<Node>)
    requires old(AllWhole(ks))
    requires forall n :: n in ks ==> unchanged(n`schema, n`value, n`printed, n`child, n`kids, n`below, n`tree)
    requires forall k, n :: k in ks && n in old(k.below) && n !in ks ==> unchanged(n)
    ensures AllWhole(ks)
  {
    forall i | 0 <= i < |ks| ensures ks[i].Whole() {
      var k := ks[i];
      assert k in ks && old(k.Whole()) && old(k.Ready()) && k.below == old(k.below);
      forall n, j | n in k.below && 0 <= j < |ks| ensures n != ks[j] {
        if i < j {
          assert old(Apart(ks[i], ks[j]));
        } else if j < i {
          assert old(Apart(ks[j], ks[i]));
        }
      }
      assert forall n :: n in old(k.below) ==> n !in ks;
      assert forall n :: n in old(k.below) ==> unchanged(n);
    }
    forall i, j | 0 <= i < j < |ks| ensures Apart(ks[i], ks[j]) {
      assert old(Apart(ks[i], ks[j]));
      assert ks[i] in ks && ks[j] in ks;
    }
  }

  /** json_parse_data without a parent: the first sibling is found by walking backwards. */
  method LinkRoot(prev: Node?, node: Node, ghost ks: seq<Node>)
    requires Forest(ks, null) && prev == Last(ks)
    requires node !in ks && node.next == null
    requires forall k :: k in ks ==> node !in k.below
    modifies ks`next, ks`prev, node`next, node`prev, node`parent
    ensures AllWhole(ks) && Linked(ks + [node], null)
    ensures forall k :: k in ks ==> unchanged(k`tree, k`below)
  {
    hide Node.Whole, Node.Ready;
    node.parent := null;
    if prev != null {
      node.prev := prev;
      prev.next := node;
      var diter := prev;
      ghost var i := |ks| - 1;
      while diter.prev != prev
        invariant 0 <= i < |ks| && diter == ks[i]
        invariant i > 0 ==> diter.prev == ks[i - 1]
        decreases i
      {
        diter := diter.prev;
        i := i - 1;
      }
      diter.prev := node;
    } else {
      node.prev := node;
    }
    assert forall i, j :: 0 <= i < j < |ks| ==> old(Apart(ks[i], ks[j]));
    RelinkKeepsWhole(ks);
  }

  /** A linked top-level node that is finished joins its siblings. */
  lemma FinishRoot(ks: seq<Node>, node: Node)
    requires AllWhole(ks) && Linked(ks + [node], null) && node.Whole()
    requires forall k :: k in ks ==> Apart(k, node)
    ensures Forest(ks + [node], null)
  {
    assert forall i :: 0 <= i < |ks| ==> ks[i] in ks;
  }

  /** A new node linked behind finished siblings without a parent; its own content is still to come. */
  ghost predicate OpenRoot(ks: seq<Node>, node: Node)
    reads ks, node, node.below, set k, n | k in ks && n in k.below :: n
  {
    && AllWhole(ks) && Linked(ks + [node], null)
    && node.Whole() && node.kids == [] && node.below == {}
    && forall k :: k in ks ==> Apart(k, node)
  }

  /** json_parse_data without a parent, when another instance of a list follows: the walk that looks for
      the first sibling ends at the list itself, for `prev` is not the last node any more. The first
      sibling goes on pointing to `list`, and no later walk from `prev` comes to an end. */
  method LinkRootInstance(prev: Node, list: Node, node: Node, ghost ks: seq<Node>)
    requires ks != [] && Linked(ks + [list], null) && prev == Last(ks)
    requires node !in ks && node != list && node.next == null
    modifies ks`prev, list`next, list`prev, node`prev, node`parent
    ensures list.next == node && node.next == null && node.prev == list
    ensures ks[0].prev == list && list.prev == node && !Linked(ks + [list, node], null)
    ensures forall x :: x in ks + [list, node] ==> x.prev in ks + [list, node] && x.prev != prev
  {
    ghost var all := ks + [list];
    assert forall i :: 0 <= i < |ks| ==> all[i] == ks[i];
    assert all[|ks|] == list && list.prev == ks[|ks| - 1] && ks[0].prev == list;
    node.parent := list.parent;
    node.prev := list;
    list.next := node;
    var diter := prev;
    ghost var i := |ks| - 1;
    while diter.prev != prev
      invariant -1 <= i < |ks| && diter == if i >= 0 then ks[i] else list
      decreases i
    {
      assert i > 0 ==> all[i].prev == all[i - 1];
      diter := diter.prev;
      i := i - 1;
    }
    diter.prev := node;
    ghost var more := ks + [list, node];
    assert more[0] == ks[0] && more[|more| - 1] == node;
    assert forall j :: 0 <= j < |ks| ==> all[j] != list && all[j] != node;
    assert more[|ks|] == list && forall j :: 0 <= j < |ks| ==> more[j] == ks[j];
    forall x | x in more ensures x.prev in more && x.prev != prev {
      var j :| 0 <= j < |more| && more[j] == x;
      if 0 < j < |ks| {
        assert all[j].prev == all[j - 1] == more[j - 1] && all[j - 1] != all[|ks| - 1];
      }
    }
  }
}

/** The parser of src/parser_json.c on the linked data tree, proved against the functions of JsonTree. */
module JsonParser {
  import opened CStrings
  import opened JsonText
  import T = JsonTree
  import opened JsonNodes

  type Context = T.Context

  /** A parsing function returned `r`: zero for an error, else the number of bytes it consumed. */
  ghost predicate Consumed<A>(data: string, at: nat, r: nat, spec: T.Read<A>) {
    if spec.Fail? then r == 0 else 0 < r && at + r <= |data| && data[at + r..] == spec.rest
  }

  lemma Suffix(data: string, at: nat, n: nat)
    requires at + n <= |data|
    ensures data[at..][n..] == data[at + n..]
  {
  }

  // ----- scanning ----------------------------------------------------------------------------

  method SkipWs(data: string, at: nat) returns (len: nat)
    requires at <= |data|
    ensures at + len <= |data|
    ensures data[at + len..] == T.SkipWs(data[at..])
  {
    len := 0;
    while at + len < |data| && T.IsWs(data[at + len])
      invariant at + len <= |data|
      invariant T.SkipWs(data[at..]) == T.SkipWs(data[at + len..])
      decreases |data| - at - len
    {
      Suffix(data, at + len, 1);
      len := len + 1;
    }
  }

  method ParseNumber(data: string, at: nat) returns (len: nat)
    requires at <= |data|
    ensures var n := T.NumberLength(data[at..], false); len == if n.Some? then n.value else 0
  {
    hide T.IsEnd, T.NumberLength;
    len := 0;
    var seen := false;
    while at + len < |data| && !T.IsEnd(data[at + len])
      invariant at + len <= |data|
      invariant T.NumberLength(data[at..], false) == AddLength(len, T.NumberLength(data[at + len..], seen))
      decreases |data| - at - len
    {
      var c := data[at + len];
      NumberStep(data, at + len, seen);
      if c == '0' && !seen && at + len + 1 < |data| && IsDigit(data[at + len + 1]) {
        return 0;
      } else if IsDigit(c) {
        seen := true;
      } else if c != '-' {
        return 0;
      }
      len := len + 1;
    }
    NumberEnd(data, at + len, seen);
  }

  lemma NumberEnd(data: string, at: nat, seen: bool)
    requires at <= |data| && (at < |data| ==> T.IsEnd(data[at]))
    ensures T.NumberLength(data[at..], seen) == Some(0)
  {
  }

  lemma NumberStep(data: string, at: nat, seen: bool)
    requires at < |data| && !T.IsEnd(data[at])
    ensures T.NumberLength(data[at..], seen) ==
            if data[at] == '0' && !seen && at + 1 < |data| && IsDigit(data[at + 1]) then None
            else if IsDigit(data[at]) || data[at] == '-' then AddLength(1, T.NumberLength(data[at + 1..], seen || data[at] != '-'))
            else None
  {
    assert at + 1 < |data| ==> data[at..][1] == data[at + 1];
    Suffix(data, at, 1);
  }

  function AddLength(len: nat, n: Option<nat>): Option<nat> {
    if n.None? then None else Some(len + n.value)
  }

  method ParseBoolean(data: string, at: nat) returns (len: nat)
    requires at <= |data|
    ensures len == T.BooleanLength(data[at..])
  {
    var s := data[at..];
    len := if "false" <= s then 5 else if "true" <= s then 4 else 0;
    if at + len < |data| && !T.IsEnd(data[at + len]) {
      assert s[len] == data[at + len];
      return 0;
    }
  }

  /** A string in its quotation marks; `r` is the length between them. */
  method ParseQuoted(data: string, at: nat) returns (str: Option<string>, r: nat)
    requires at < |data| && data[at] == '"'
    ensures var b := Unescape(data[at..][1..]);
            if b.Body? && b.used < |data| - at - 1 then
              str == Some(b.text) && r == b.used && at + r + 2 <= |data| && data[at + r + 2..] == data[at..][b.used + 2..]
            else str.None?
  {
    hide Unescape;
    Suffix(data, at, 1);
    ghost var inside;
    str, r, inside := ParseText(data[at + 1..]);
    if str.Some? && (at + 1 + r == |data| || data[at + 1 + r] != '"') {
      str := None;
    }
    if str.Some? {
      Suffix(data, at, r + 2);
    }
  }

  /** The part of json_get_value that finds the value text. */
  method ParseScalar(data: string, at: nat) returns (value: Option<string>, len: nat)
    requires at <= |data|
    ensures Consumed(data, at, len, T.ParseScalar(data[at..]))
    ensures len > 0 ==> value == T.ParseScalar(data[at..]).got
  {
    hide Unescape, CStr, T.NumberLength, T.BooleanLength;
    ghost var s := data[at..];
    value, len := None, 0;
    if at == |data| {
      return;
    }
    assert s[0] == data[at];
    if data[at] == '"' {
      var str, r := ParseQuoted(data, at);
      if str.Some? {
        return Some(CStr(str.value)), r + 2;
      }
    } else if data[at] == '-' || IsDigit(data[at]) {
      var r := ParseNumber(data, at);
      if r > 0 {
        Suffix(data, at, r);
        return Some(data[at..][..r]), r;
      }
    } else if data[at] == 'f' || data[at] == 't' {
      var r := ParseBoolean(data, at);
      if r > 0 {
        Suffix(data, at, r);
        return Some(data[at..][..r]), r;
      }
    } else if "[null]" <= data[at..] {
      Suffix(data, at, 6);
      return None, 6;
    }
  }

  /** json_get_value for one value: its text, and the type lyp_parse_value finds for it. */
  method GetValue(ctx: Context, data: string, at: nat, leaf: Node) returns (len: nat)
    requires at <= |data|
    requires leaf.Whole() && leaf.tree.Term?
    modifies leaf`value, leaf`printed, leaf`tree
    ensures Consumed(data, at, len, T.ParseValue(ctx, leaf.schema, data[at..]))
    ensures len > 0 ==> leaf.Whole() && leaf.tree == T.ParseValue(ctx, leaf.schema, data[at..]).got
  {
    var value;
    value, len := ParseScalar(data, at);
    if len > 0 {
      var printed := ctx.types(leaf.schema, value);
      if printed.None? {
        return 0;
      }
      leaf.value, leaf.printed := value, printed.value;
      leaf.tree := T.Term(leaf.schema, value, printed.value);
    }
  }

  /** The node identifier of a member, up to the content behind the name separator. */
  method ParseKey(data: string, at: nat) returns (id: string, len: nat)
    requires at <= |data|
    ensures Consumed(data, at, len, T.ParseKey(data[at..]))
    ensures len > 0 ==> id == T.ParseKey(data[at..]).got
  {
    hide Unescape, T.SkipWs, CStr;
    id, len := [], 0;
    if at == |data| || data[at] != '"' {
      return;
    }
    var str, r := ParseQuoted(data, at);
    if str.None? || r == 0 {
      return;
    }
    len := r + 2;
    var blanks := SkipWs(data, at + len);
    len := len + blanks;
    if at + len == |data| || data[at + len] != ':' {
      return [], 0;
    }
    Suffix(data, at + len, 1);
    len := len + 1;
    blanks := SkipWs(data, at + len);
    return CStr(str.value), len + blanks;
  }

  // ----- nodes -------------------------------------------------------------------------------

  function Prepend<A>(acc: seq<A>, r: T.Read<seq<A>>): T.Read<seq<A>> {
    if r.Fail? then T.Fail else T.Read(acc + r.got, r.rest)
  }

  lemma PrependMore<A>(acc: seq<A>, more: seq<A>, r: T.Read<seq<A>>)
    ensures Prepend(acc, Prepend(more, r)) == Prepend(acc + more, r)
  {
    if r.Read? {
      assert acc + (more + r.got) == acc + more + r.got;
    }
  }

  /** One more element of an array or object was read behind `acc`. */
  lemma ElementRead<A>(spec: T.Read<seq<A>>, acc: seq<A>, t: A, here: T.Read<seq<A>>, more: bool, behind: T.Read<seq<A>>, rest: string)
    requires spec == Prepend(acc, here) && here == if more then Prepend([t], behind) else T.Read([t], rest)
    ensures if more then spec == Prepend(acc + [t], behind) else spec == T.Read(acc + [t], rest)
  {
    PrependMore(acc, [t], behind);
  }

  lemma NothingRead<A>(acc: seq<A>, here: T.Read<seq<A>>)
    requires here.Fail?
    ensures Prepend(acc, here).Fail?
  {
  }

  /** `p` was extended by children that denote `more`. */
  twostate predicate Grown(p: Node, more: seq<T.Tree>)
    requires old(p.tree.Inner?)
    reads p, p.below
  {
    p.Whole() && p.tree == T.Inner(p.schema, old(p.tree.children) + more) && old(p.below) <= p.below
  }

  method IsAt(data: string, at: nat, c: char) returns (b: bool)
    requires at <= |data|
    ensures b == T.StartsWith(data[at..], c)
    ensures b ==> at < |data| && data[at] == c && data[at + 1..] == data[at..][1..]
  {
    b := at < |data| && data[at] == c;
  }

  lemma PrependNothing<A>(r: T.Read<seq<A>>)
    ensures Prepend([], r) == r
  {
    if r.Read? {
      assert [] + r.got == r.got;
    }
  }

  lemma InnerTree(p: Node, node: Node)
    requires Open(p, node)
    ensures p.tree.Inner? && p.tree == T.Inner(p.schema, p.tree.children)
    ensures node.Whole() && node.tree.Term? ==> !IsInner(node.schema)
  {
    assert node.Whole() ==> node.Ready();
  }

  /** What one turn of the leaf-list loop does to the text. */
  lemma ValuesStep(ctx: Context, schema: T.Schema, data: string, at: nat)
    requires at <= |data|
    ensures var v := T.ParseValue(ctx, schema, T.SkipWs(data[at..]));
            T.ParseValues(ctx, schema, data[at..]) ==
            if v.Fail? then T.Fail
            else
              var s := T.SkipWs(v.rest);
              if T.StartsWith(s, ',') then Prepend([v.got], T.ParseValues(ctx, schema, s[1..]))
              else if T.StartsWith(s, ']') then T.Read([v.got], T.SkipWs(s[1..]))
              else T.Fail
  {
    hide T.ParseValue, T.SkipWs;
  }

  /** One value of a leaf-list and the separator behind it; `more` tells that another value follows. */
  method ParseOneValue(ctx: Context, data: string, at: nat, p: Node, leaf: Node) returns (len: nat, more: bool)
    requires at <= |data|
    requires Open(p, leaf) && leaf.Whole() && leaf.tree.Term? && leaf.below == {}
    modifies p`kids, p`below, p`tree, leaf`value, leaf`printed, leaf`tree
    ensures len == 0 ==> T.ParseValues(ctx, leaf.schema, data[at..]).Fail?
    ensures len > 0 ==> at + len <= |data| && p.Whole() && leaf == Last(p.kids)
    ensures len > 0 ==> p.tree == T.Inner(p.schema, old(p.tree.children) + [leaf.tree]) && p.below == old(p.below) + {leaf}
    ensures len > 0 && more ==>
              T.ParseValues(ctx, leaf.schema, data[at..]) == Prepend([leaf.tree], T.ParseValues(ctx, leaf.schema, data[at + len..]))
    ensures len > 0 && !more ==> T.ParseValues(ctx, leaf.schema, data[at..]) == T.Read([leaf.tree], data[at + len..])
  {
    hide Node.Whole, Node.Ready, Linked, Apart, T.ParseValue, T.ParseValues, T.SkipWs, Prepend;
    InnerTree(p, leaf);
    ValuesStep(ctx, leaf.schema, data, at);
    more := false;
    var blanks := SkipWs(data, at);
    len := GetValue(ctx, data, at + blanks, leaf);
    if len == 0 {
      return;
    }
    Adopt(p, leaf);
    var separator;
    separator, more := ParseSeparator(data, at + blanks + len);
    len := if separator > 0 then blanks + len + separator else 0;
  }

  /** What stands behind a value of an array: a value separator, or the end-array and white space. */
  method ParseSeparator(data: string, at: nat) returns (len: nat, more: bool)
    requires at <= |data|
    ensures at + len <= |data|
    ensures var s := T.SkipWs(data[at..]);
            if T.StartsWith(s, ',') then len > 0 && more && s[1..] == data[at + len..]
            else if T.StartsWith(s, ']') then len > 0 && !more && T.SkipWs(s[1..]) == data[at + len..]
            else len == 0 && !more
  {
    hide T.SkipWs;
    len := SkipWs(data, at);
    more := IsAt(data, at + len, ',');
    var end := IsAt(data, at + len, ']');
    if more {
      return len + 1, true;
    }
    if end {
      var blanks := SkipWs(data, at + len + 1);
      return len + 1 + blanks, false;
    }
    return 0, false;
  }

  /** The values of a leaf-list, entered behind the begin-array with the first instance linked. */
  method ParseValues(ctx: Context, data: string, at: nat, p: Node, node: Node) returns (len: nat)
    requires at <= |data|
    requires Open(p, node) && node.Whole() && node.tree.Term? && node.below == {}
    modifies p`kids, p`below, p`tree, p.below`next, p.below`prev, node
    ensures Consumed(data, at, len, T.ParseValues(ctx, old(node.schema), data[at..]))
    ensures len > 0 ==> Grown(p, T.ParseValues(ctx, old(node.schema), data[at..]).got)
    ensures len > 0 ==> fresh(p.below - old(p.below) - {node})
  {
    hide T.ParseValues, Node.Whole, Node.Ready, Linked, Open, Prepend;
    ghost var schema := node.schema;
    ghost var spec := T.ParseValues(ctx, schema, data[at..]);
    ghost var acc: seq<T.Tree> := [];
    var leaf := node;
    len := 0;
    var more := true;
    InnerTree(p, node);
    assert old(p.tree.children) + [] == old(p.tree.children);
    PrependNothing(spec);
    while more
      invariant at + len <= |data|
      invariant p.schema == old(p.schema) && leaf.schema == schema
      invariant leaf == node || fresh(leaf)
      invariant p.tree == T.Inner(p.schema, old(p.tree.children) + acc)
      invariant old(p.below) <= p.below && fresh(p.below - old(p.below) - {node})
      invariant !IsInner(schema)
      invariant more ==> Open(p, leaf) && leaf.Whole() && leaf.tree.Term? && leaf.below == {}
      invariant more ==> spec == Prepend(acc, T.ParseValues(ctx, schema, data[at + len..]))
      invariant !more ==> len > 0 && p.Whole() && spec == T.Read(acc, data[at + len..])
      decreases |data| - at - len, more
    {
      ghost var here := T.ParseValues(ctx, schema, data[at + len..]);
      var r;
      r, more := ParseOneValue(ctx, data, at + len, p, leaf);
      if r == 0 {
        NothingRead(acc, here);
        return 0;
      }
      len := len + r;
      ElementRead(spec, acc, leaf.tree, here, more, T.ParseValues(ctx, schema, data[at + len..]), data[at + len..]);
      acc := acc + [leaf.tree];
      if more {
        var instance := new Node(leaf.schema);
        LinkValue(p, leaf, instance);
        leaf := instance;
      }
    }
  }

  // ----- members, objects and arrays ---------------------------------------------------------

  /** json_parse_data below a parent: a member's nodes become the last children of `p`. */
  method ParseData(ctx: Context, data: string, at: nat, p: Node, prev: Node?) returns (len: nat)
    requires at <= |data|
    requires p.Whole() && p.tree.Inner? && prev == Last(p.kids)
    modifies p`child, p`kids, p`below, p`tree, p.below`next, p.below`prev
    ensures Consumed(data, at, len, T.ParseData(ctx, T.Below(p.schema.children), data[at..]))
    ensures len > 0 ==> Grown(p, T.ParseData(ctx, T.Below(p.schema.children), data[at..]).got)
    ensures len > 0 ==> fresh(p.below - old(p.below))
    decreases |data| - at, 0
  {
    hide Node.Whole, Node.Ready, Linked, Open, T.ParseKey, T.ParseContent, T.FindSchema;
    var id;
    id, len := ParseKey(data, at);
    if len == 0 || T.StartsWith(id, '@') {
      return 0;
    }
    var schema := T.FindSchema(ctx, T.Below(p.schema.children), id);
    if schema.None? {
      return 0;
    }
    var node := new Node(schema.value);
    LinkNode(p, prev, node);
    var r := ParseContent(ctx, data, at + len, p, node);
    return if r == 0 then 0 else len + r;
  }

  /** The part of json_parse_data behind the linking of the new node, by its schema node. */
  method ParseContent(ctx: Context, data: string, at: nat, p: Node, node: Node) returns (len: nat)
    requires at <= |data|
    requires Open(p, node) && node.Whole() && node.kids == [] && node.below == {}
    modifies p`kids, p`below, p`tree, p.below`next, p.below`prev, node
    ensures Consumed(data, at, len, T.ParseContent(ctx, old(node.schema), data[at..]))
    ensures len > 0 ==> Grown(p, T.ParseContent(ctx, old(node.schema), data[at..]).got)
    ensures len > 0 ==> fresh(p.below - old(p.below) - {node})
    decreases |data| - at, 2
  {
    hide Node.Whole, Node.Ready, Linked, Open, T.ParseValue, T.ParseValues, T.ParseInstances;
    EmptyTree(node);
    match node.schema.kind {
      case Leaf => len := ParseLeaf(ctx, data, at, p, node);
      case LeafList =>
        var begin := IsAt(data, at, '[');
        if !begin {
          return 0;
        }
        len := ParseValues(ctx, data, at + 1, p, node);
        len := if len == 0 then 0 else len + 1;
      case Container => len := ParseContainer(ctx, data, at, p, node);
      case List => len := ParseList(ctx, data, at, p, node);
    }
  }

  method ParseLeaf(ctx: Context, data: string, at: nat, p: Node, node: Node) returns (len: nat)
    requires at <= |data| && node.schema.kind.Leaf?
    requires Open(p, node) && node.Whole() && node.kids == [] && node.below == {}
    modifies p`kids, p`below, p`tree, p.below`next, p.below`prev, node
    ensures Consumed(data, at, len, T.ParseContent(ctx, old(node.schema), data[at..]))
    ensures len > 0 ==> Grown(p, T.ParseContent(ctx, old(node.schema), data[at..]).got)
    ensures len > 0 ==> fresh(p.below - old(p.below) - {node})
  {
    hide Node.Whole, Node.Ready, Linked, T.ParseValue, T.SkipWs;
    InnerTree(p, node);
    EmptyTree(node);
    len := GetValue(ctx, data, at, node);
    if len == 0 {
      return 0;
    }
    Adopt(p, node);
    var blanks := SkipWs(data, at + len);
    return len + blanks;
  }

  method ParseContainer(ctx: Context, data: string, at: nat, p: Node, node: Node) returns (len: nat)
    requires at <= |data| && node.schema.kind.Container?
    requires Open(p, node) && node.Whole() && node.kids == [] && node.below == {}
    modifies p`kids, p`below, p`tree, p.below`next, p.below`prev, node
    ensures Consumed(data, at, len, T.ParseContent(ctx, old(node.schema), data[at..]))
    ensures len > 0 ==> Grown(p, T.ParseContent(ctx, old(node.schema), data[at..]).got)
    ensures len > 0 ==> fresh(p.below - old(p.below) - {node})
    decreases |data| - at, 1
  {
    hide Node.Whole, Node.Ready, Linked, T.ParseContent;
    InnerTree(p, node);
    len := ParseObject(ctx, data, at, node);
    if len > 0 {
      Adopt(p, node);
    }
  }

  function InnerMembers(ctx: Context, schema: T.Schema, s: string): T.Read<seq<T.Tree>> {
    if T.StartsWith(T.SkipWs(s), '}') then T.Read([], T.SkipWs(s)) else T.ParseMembers(ctx, T.Below(schema.children), s)
  }

  lemma ObjectText(ctx: Context, schema: T.Schema, s: string)
    requires schema.kind.Container?
    ensures T.ParseContent(ctx, schema, s) ==
            if !T.StartsWith(s, '{') then T.Fail
            else
              var c := InnerMembers(ctx, schema, s[1..]);
              if c.Read? && T.StartsWith(c.rest, '}') then T.Read([T.Inner(schema, c.got)], T.SkipWs(c.rest[1..])) else T.Fail
  {
    hide T.ParseMembers, T.SkipWs;
  }

  /** A container's object: the braces, the members between them, and the white space behind. */
  method ParseObject(ctx: Context, data: string, at: nat, node: Node) returns (len: nat)
    requires at <= |data| && node.schema.kind.Container?
    requires node.Whole() && node.kids == [] && node.below == {}
    modifies node`child, node`kids, node`below, node`tree
    ensures Consumed(data, at, len, T.ParseContent(ctx, node.schema, data[at..]))
    ensures len > 0 ==> node.Whole() && T.ParseContent(ctx, node.schema, data[at..]).got == [node.tree]
    ensures len > 0 ==> fresh(node.below)
    decreases |data| - at, 0
  {
    hide Node.Whole, Node.Ready, Linked, T.ParseContent, T.SkipWs, InnerMembers;
    ObjectText(ctx, node.schema, data[at..]);
    var begin := IsAt(data, at, '{');
    if !begin {
      return 0;
    }
    var ok;
    ok, len := ParseInner(ctx, data, at + 1, node);
    if !ok {
      return 0;
    }
    len := len + 1;
    var end := IsAt(data, at + len, '}');
    if !end {
      return 0;
    }
    var blanks := SkipWs(data, at + len + 1);
    return len + 1 + blanks;
  }

  /** What stands between the braces of a container. */
  method ParseInner(ctx: Context, data: string, at: nat, node: Node) returns (ok: bool, len: nat)
    requires at <= |data| && node.schema.kind.Container?
    requires node.Whole() && node.kids == [] && node.below == {}
    modifies node`child, node`kids, node`below, node`tree
    ensures var c := InnerMembers(ctx, node.schema, data[at..]);
            && (ok <==> c.Read?)
            && (ok ==> at + len <= |data| && data[at + len..] == c.rest && node.Whole() && node.tree == T.Inner(node.schema, c.got))
    ensures ok ==> fresh(node.below)
    decreases |data| - at, 3
  {
    hide Node.Whole, Node.Ready, Linked, T.ParseMembers, T.SkipWs;
    EmptyTree(node);
    len := SkipWs(data, at);
    ok := IsAt(data, at + len, '}');
    if !ok {
      len := ParseMembers(ctx, data, at, node);
      ok := len > 0;
    }
  }

  lemma EmptyTree(node: Node)
    requires node.Whole() && node.kids == []
    ensures IsInner(node.schema) ==> node.tree == T.Inner(node.schema, [])
    ensures !IsInner(node.schema) ==> node.tree.Term?
  {
    assert node.Ready();
  }

  lemma InnerSchema(node: Node)
    requires node.Whole() && node.tree.Inner?
    ensures node.tree.schema == node.schema
  {
    assert node.Ready();
  }

  /** One member of an object and the separator behind it; `more` tells that another one follows. */
  method ParseOneMember(ctx: Context, data: string, at: nat, node: Node, diter: Node?)
    returns (len: nat, more: bool, last: Node?)
    requires at <= |data|
    requires node.Whole() && node.tree.Inner? && diter == Last(node.kids)
    requires diter != null ==> node.tree.children != []
    modifies node`child, node`kids, node`below, node`tree, node.below`next, node.below`prev
    ensures len == 0 ==> T.ParseMembers(ctx, T.Below(node.schema.children), data[at..]).Fail?
    ensures len > 0 ==> at + len <= |data| && node.Whole() && last == Last(node.kids)
    ensures len > 0 ==> fresh(node.below - old(node.below)) && OneMember(ctx, data, at, len, more, old(node.tree), node.tree)
    ensures len > 0 && last != null ==> node.tree.children != []
    decreases |data| - at, 1
  {
    hide Node.Whole, Node.Ready, Linked, T.ParseMembers, T.ParseData, T.SkipWs;
    InnerSchema(node);
    more, last := false, null;
    var blanks := SkipWs(data, at);
    var r := ParseData(ctx, data, at + blanks, node, diter);
    MembersStep(ctx, T.Below(node.schema.children), data, at, at + blanks);
    if r == 0 {
      return 0, false, null;
    }
    ghost var got := T.ParseData(ctx, T.Below(node.schema.children), data[at + blanks..]).got;
    assert node.tree == T.Inner(node.schema, old(node.tree.children) + got);
    len := blanks + r;
    last := LastChild(node, diter);
    more := IsAt(data, at + len, ',');
    if more {
      len := len + 1;
    }
    assert T.ParseMembers(ctx, T.Below(node.schema.children), data[at..])
        == if more then Prepend(got, T.ParseMembers(ctx, T.Below(node.schema.children), data[at + len..]))
           else T.Read(got, data[at + len..]);
  }

  /** The effect of one member on the object's tree and on the text still to be read. */
  ghost predicate OneMember(ctx: Context, data: string, at: nat, len: nat, more: bool, was: T.Tree, now: T.Tree)
    requires at + len <= |data| && was.Inner?
  {
    exists got ::
      && now == T.Inner(was.schema, was.children + got)
      && T.ParseMembers(ctx, T.Below(was.schema.children), data[at..])
         == if more then Prepend(got, T.ParseMembers(ctx, T.Below(was.schema.children), data[at + len..]))
            else T.Read(got, data[at + len..])
  }

  /** The loop over the members of an object, entered behind the begin-object. */
  method ParseMembers(ctx: Context, data: string, at: nat, node: Node) returns (len: nat)
    requires at <= |data|
    requires node.Whole() && node.kids == [] && node.below == {} && IsInner(node.schema)
    modifies node`child, node`kids, node`below, node`tree
    ensures Consumed(data, at, len, T.ParseMembers(ctx, T.Below(node.schema.children), data[at..]))
    ensures len > 0 ==> node.Whole()
    ensures len > 0 ==> node.tree == T.Inner(node.schema, T.ParseMembers(ctx, T.Below(node.schema.children), data[at..]).got)
    ensures len > 0 ==> fresh(node.below)
    decreases |data| - at, 2
  {
    hide Node.Whole, Node.Ready, Linked, T.ParseMembers, OneMember;
    EmptyTree(node);
    ghost var scope := T.Below(node.schema.children);
    ghost var spec := T.ParseMembers(ctx, scope, data[at..]);
    PrependNothing(spec);
    len := 0;
    var diter: Node? := null;
    var more := true;
    while more
      invariant at + len <= |data|
      invariant node.Whole() && node.tree.Inner? && node.tree.schema == node.schema
      invariant diter == Last(node.kids) && fresh(node.below)
      invariant diter != null ==> node.tree.children != []
      invariant more ==> spec == Prepend(node.tree.children, T.ParseMembers(ctx, scope, data[at + len..]))
      invariant !more ==> len > 0 && spec == T.Read(node.tree.children, data[at + len..])
      decreases |data| - at - len, more
    {
      ghost var start, was := at + len, node.tree;
      var r;
      r, more, diter := ParseOneMember(ctx, data, at + len, node, diter);
      if r == 0 {
        return 0;
      }
      MemberAdded(ctx, data, start, r, more, was, node.tree, spec);
      len := len + r;
    }
  }

  lemma MemberAdded(ctx: Context, data: string, at: nat, len: nat, more: bool, was: T.Tree, now: T.Tree,
                    spec: T.Read<seq<T.Tree>>)
    requires at + len <= |data| && was.Inner? && OneMember(ctx, data, at, len, more, was, now)
    requires spec == Prepend(was.children, T.ParseMembers(ctx, T.Below(was.schema.children), data[at..]))
    ensures now.Inner? && now.schema == was.schema
    ensures more ==> spec == Prepend(now.children, T.ParseMembers(ctx, T.Below(was.schema.children), data[at + len..]))
    ensures !more ==> spec == T.Read(now.children, data[at + len..])
  {
    hide T.ParseMembers;
    var got :| now == T.Inner(was.schema, was.children + got) &&
               T.ParseMembers(ctx, T.Below(was.schema.children), data[at..])
               == if more then Prepend(got, T.ParseMembers(ctx, T.Below(was.schema.children), data[at + len..]))
                  else T.Read(got, data[at + len..]);
    PrependMore(was.children, got, T.ParseMembers(ctx, T.Below(was.schema.children), data[at + len..]));
  }

  /** The last child, found through the first one; `diter` stays null while there is no child. */
  method LastChild(node: Node, diter: Node?) returns (last: Node?)
    requires node.Whole() && node.tree.Inner?
    requires diter != null ==> node.tree.children != []
    ensures last == Last(node.kids)
    ensures last != null ==> node.tree.children != []
  {
    assert node.Ready() && Linked(node.kids, node);
    last := if node.child != null then node.child.prev else diter;
  }

  /** What one turn of the members loop does to the text. */
  lemma MembersStep(ctx: Context, scope: T.Scope, data: string, start: nat, pos: nat)
    requires start <= pos <= |data| && data[pos..] == T.SkipWs(data[start..])
    ensures var d := T.ParseData(ctx, scope, data[pos..]);
            T.ParseMembers(ctx, scope, data[start..]) ==
            if d.Fail? || !T.StartsWith(d.rest, ',') then d
            else Prepend(d.got, T.ParseMembers(ctx, scope, d.rest[1..]))
  {
    hide T.ParseData;
  }

  /** A list instance: its braces and members, and the white space behind. */
  method ParseInstance(ctx: Context, data: string, at: nat, node: Node) returns (len: nat)
    requires at <= |data|
    requires node.Whole() && node.kids == [] && node.below == {} && IsInner(node.schema)
    modifies node`child, node`kids, node`below, node`tree
    ensures Consumed(data, at, len, T.ParseInstance(ctx, node.schema, data[at..]))
    ensures len > 0 ==> node.Whole() && node.tree == T.ParseInstance(ctx, node.schema, data[at..]).got
    ensures len > 0 ==> fresh(node.below)
    decreases |data| - at, 2
  {
    hide Node.Whole, Node.Ready, Linked, T.ParseMembers, T.SkipWs;
    var blanks := SkipWs(data, at);
    var begin := IsAt(data, at + blanks, '{');
    if !begin {
      return 0;
    }
    len := blanks + 1;
    var r := ParseMembers(ctx, data, at + len, node);
    if r == 0 {
      return 0;
    }
    len := len + r;
    var end := IsAt(data, at + len, '}');
    if !end {
      return 0;
    }
    blanks := SkipWs(data, at + len + 1);
    return len + 1 + blanks;
  }

  /** One list instance becomes a child of `p`; `more` tells that another one follows. */
  method ParseOneInstance(ctx: Context, data: string, at: nat, p: Node, list: Node) returns (len: nat, more: bool)
    requires at <= |data|
    requires Open(p, list) && list.Whole() && list.kids == [] && list.below == {} && IsInner(list.schema)
    modifies p`kids, p`below, p`tree, list`child, list`kids, list`below, list`tree
    ensures len == 0 ==> T.ParseInstances(ctx, list.schema, data[at..]).Fail?
    ensures len > 0 ==> at + len <= |data| && p.Whole() && list == Last(p.kids)
    ensures len > 0 ==> p.tree == T.Inner(p.schema, old(p.tree.children) + [list.tree])
    ensures len > 0 ==> p.below == old(p.below) + {list} + list.below && fresh(list.below)
    ensures len > 0 && more ==>
              T.ParseInstances(ctx, list.schema, data[at..]) == Prepend([list.tree], T.ParseInstances(ctx, list.schema, data[at + len..]))
    ensures len > 0 && !more ==> T.ParseInstances(ctx, list.schema, data[at..]) == T.Read([list.tree], data[at + len..])
    decreases |data| - at, 3
  {
    hide Node.Whole, Node.Ready, Linked, T.ParseInstance;
    InnerTree(p, list);
    more := false;
    len := ParseInstance(ctx, data, at, list);
    if len == 0 {
      return;
    }
    Adopt(p, list);
    more := IsAt(data, at + len, ',');
    if more {
      len := len + 1;
    }
  }

  /** A list's array, entered at the begin-array with the first instance linked. */
  method ParseList(ctx: Context, data: string, at: nat, p: Node, node: Node) returns (len: nat)
    requires at <= |data| && node.schema.kind.List?
    requires Open(p, node) && node.Whole() && node.kids == [] && node.below == {}
    modifies p`kids, p`below, p`tree, p.below`next, p.below`prev, node
    ensures Consumed(data, at, len, T.ParseContent(ctx, old(node.schema), data[at..]))
    ensures len > 0 ==> Grown(p, T.ParseContent(ctx, old(node.schema), data[at..]).got)
    ensures len > 0 ==> fresh(p.below - old(p.below) - {node})
    decreases |data| - at, 1
  {
    hide Node.Whole, Node.Ready, Linked, Open, T.ParseInstances, T.SkipWs;
    var begin := IsAt(data, at, '[');
    if !begin {
      return 0;
    }
    len := ParseInstances(ctx, data, at + 1, p, node);
    if len == 0 {
      return 0;
    }
    var end := IsAt(data, at + 1 + len, ']');
    if !end {
      return 0;
    }
    var blanks := SkipWs(data, at + len + 2);
    return len + 2 + blanks;
  }

  method ParseInstances(ctx: Context, data: string, at: nat, p: Node, node: Node) returns (len: nat)
    requires at <= |data| && node.schema.kind.List?
    requires Open(p, node) && node.Whole() && node.kids == [] && node.below == {}
    modifies p`kids, p`below, p`tree, p.below`next, p.below`prev, node
    ensures Consumed(data, at, len, T.ParseInstances(ctx, old(node.schema), data[at..]))
    ensures len > 0 ==> Grown(p, T.ParseInstances(ctx, old(node.schema), data[at..]).got)
    ensures len > 0 ==> fresh(p.below - old(p.below) - {node})
    decreases |data| - at, 4
  {
    hide T.ParseInstances, Node.Whole, Node.Ready, Linked, Open, Prepend;
    ghost var schema := node.schema;
    ghost var spec := T.ParseInstances(ctx, schema, data[at..]);
    ghost var acc: seq<T.Tree> := [];
    var list := node;
    len := 0;
    var more := true;
    InnerTree(p, node);
    assert old(p.tree.children) + [] == old(p.tree.children);
    PrependNothing(spec);
    while more
      invariant at + len <= |data|
      invariant p.schema == old(p.schema) && list.schema == schema
      invariant list == node || fresh(list)
      invariant p.tree == T.Inner(p.schema, old(p.tree.children) + acc)
      invariant old(p.below) <= p.below && fresh(p.below - old(p.below) - {node})
      invariant more ==> Open(p, list) && list.Whole() && list.kids == [] && list.below == {}
      invariant more ==> spec == Prepend(acc, T.ParseInstances(ctx, schema, data[at + len..]))
      invariant !more ==> len > 0 && p.Whole() && spec == T.Read(acc, data[at + len..])
      decreases |data| - at - len, more
    {
      ghost var here := T.ParseInstances(ctx, schema, data[at + len..]);
      var r;
      r, more := ParseOneInstance(ctx, data, at + len, p, list);
      if r == 0 {
        NothingRead(acc, here);
        return 0;
      }
      len := len + r;
      ElementRead(spec, acc, list.tree, here, more, T.ParseInstances(ctx, schema, data[at + len..]), data[at + len..]);
      acc := acc + [list.tree];
      if more {
        var instance := new Node(list.schema);
        LinkInstance(p, list, instance);
        list := instance;
      }
    }
  }

  // ----- documents ---------------------------------------------------------------------------

  /** A top-level member was read as the specification reads it, into nodes that denote `ts`. */
  ghost predicate TopConsumed(data: string, at: nat, len: nat, broken: bool, top: T.TopRead, ts: seq<T.Tree>) {
    match top
    case Refused => len == 0 && !broken
    case Broken => len == 0 && broken
    case Accepted(got, _, rest) => 0 < len && !broken && at + len <= |data| && data[at + len..] == rest && ts == got
  }

  lemma OneTree(node: Node)
    ensures Trees([node]) == [node.tree]
  {
  }

  lemma TreesConcat(a: seq<Node>, b: seq<Node>)
    ensures Trees(a + b) == Trees(a) + Trees(b)
  {
    assert forall i :: 0 <= i < |a| ==> (a + b)[i] == a[i];
    assert forall i :: 0 <= i < |b| ==> (a + b)[|a| + i] == b[i];
  }

  /** json_parse_data without a parent, for a leaf. */
  method ParseRootLeaf(ctx: Context, data: string, at: nat, node: Node, ghost ks: seq<Node>) returns (len: nat)
    requires at <= |data| && node.schema.kind.Leaf? && OpenRoot(ks, node)
    modifies node`value, node`printed, node`tree
    ensures TopConsumed(data, at, len, false, T.ParseTopContent(ctx, node.schema, data[at..]), [node.tree])
    ensures len > 0 ==> Forest(ks + [node], null)
  {
    hide Node.Whole, Node.Ready, Linked, T.ParseValue, T.SkipWs, T.ParseTopContent;
    EmptyTree(node);
    T.TopContentBelow(ctx, node.schema, data[at..]);
    len := GetValue(ctx, data, at, node);
    if len > 0 {
      FinishRoot(ks, node);
      var blanks := SkipWs(data, at + len);
      len := len + blanks;
    }
  }

  /** json_parse_data without a parent, for a container. */
  method ParseRootContainer(ctx: Context, data: string, at: nat, node: Node, ghost ks: seq<Node>) returns (len: nat)
    requires at <= |data| && node.schema.kind.Container? && OpenRoot(ks, node)
    modifies node`child, node`kids, node`below, node`tree
    ensures TopConsumed(data, at, len, false, T.ParseTopContent(ctx, node.schema, data[at..]), [node.tree])
    ensures len > 0 ==> Forest(ks + [node], null) && fresh(node.below)
  {
    hide Node.Whole, Node.Ready, Linked, T.ParseContent, T.ParseTopContent;
    T.TopContentBelow(ctx, node.schema, data[at..]);
    len := ParseObject(ctx, data, at, node);
    if len > 0 {
      FinishRoot(ks, node);
    }
  }

  /** json_parse_data without a parent, for a list. At a second instance the parser breaks its sibling list:
      with no node before the list it follows a null pointer, else it links the instance, and the first
      node goes on pointing back to the list. */
  method ParseRootList(ctx: Context, data: string, at: nat, node: Node, prev: Node?, ghost ks: seq<Node>)
    returns (len: nat, broken: bool, instance: Node?)
    requires at <= |data| && node.schema.kind.List? && OpenRoot(ks, node) && prev == Last(ks)
    modifies node, ks`prev
    ensures TopConsumed(data, at, len, broken, T.ParseTopContent(ctx, old(node.schema), data[at..]), [node.tree])
    ensures len > 0 ==> Forest(ks + [node], null) && fresh(node.below)
    ensures broken && prev != null ==>
              && instance != null && node.next == instance && instance.next == null && instance.prev == node
              && ks[0].prev == node && node.prev == instance && !Linked(ks + [node, instance], null)
  {
    hide Node.Whole, Node.Ready, Linked, T.ParseTopContent;
    len, broken := ParseRootInstance(ctx, data, at, node, ks);
    instance := null;
    if broken && prev != null {
      instance := new Node(node.schema);
      LinkRootInstance(prev, node, instance, ks);
    }
  }

  /** The first instance of a top-level list, and what stands behind it. */
  method ParseRootInstance(ctx: Context, data: string, at: nat, node: Node, ghost ks: seq<Node>) returns (len: nat, broken: bool)
    requires at <= |data| && node.schema.kind.List? && OpenRoot(ks, node)
    modifies node`child, node`kids, node`below, node`tree
    ensures TopConsumed(data, at, len, broken, T.ParseTopContent(ctx, node.schema, data[at..]), [node.tree])
    ensures len > 0 ==> Forest(ks + [node], null) && fresh(node.below)
    ensures Linked(ks + [node], null)
  {
    hide Node.Whole, Node.Ready, Linked, T.ParseInstance, T.SkipWs, T.ParseTopContent;
    TopListText(ctx, node.schema, data[at..]);
    len, broken := 0, false;
    var begin := IsAt(data, at, '[');
    if !begin {
      return;
    }
    var r := ParseInstance(ctx, data, at + 1, node);
    if r == 0 {
      return;
    }
    FinishRoot(ks, node);
    len, broken := ParseRootEnd(data, at + 1 + r);
    len := if len == 0 then 0 else 1 + r + len;
  }

  lemma TopListText(ctx: Context, schema: T.Schema, s: string)
    requires schema.kind.List?
    ensures T.ParseTopContent(ctx, schema, s) ==
            if !T.StartsWith(s, '[') then T.Refused
            else
              var c := T.ParseInstance(ctx, schema, s[1..]);
              if c.Fail? then T.Refused
              else if T.StartsWith(c.rest, ',') then T.Broken
              else if T.StartsWith(c.rest, ']') then T.Accepted([c.got], 1, T.SkipWs(c.rest[1..]))
              else T.Refused
  {
    hide T.ParseInstance;
  }

  method ParseRootEnd(data: string, at: nat) returns (len: nat, broken: bool)
    requires at <= |data|
    ensures broken == T.StartsWith(data[at..], ',')
    ensures if T.StartsWith(data[at..], ']') then 0 < len && at + len <= |data| && data[at + len..] == T.SkipWs(data[at..][1..]) else len == 0
  {
    hide T.SkipWs;
    len := 0;
    broken := IsAt(data, at, ',');
    var end := IsAt(data, at, ']');
    if end {
      var blanks := SkipWs(data, at + 1);
      len := 1 + blanks;
    }
  }

  /** One value of a top-level leaf-list and the separator behind it. */
  method ParseOneRootValue(ctx: Context, data: string, at: nat, leaf: Node, ghost ks: seq<Node>) returns (len: nat, more: bool)
    requires at <= |data| && !IsInner(leaf.schema) && OpenRoot(ks, leaf)
    modifies leaf`value, leaf`printed, leaf`tree
    ensures len == 0 ==> T.ParseValues(ctx, leaf.schema, data[at..]).Fail?
    ensures len > 0 ==> at + len <= |data| && Forest(ks + [leaf], null)
    ensures len > 0 && more ==>
              T.ParseValues(ctx, leaf.schema, data[at..]) == Prepend([leaf.tree], T.ParseValues(ctx, leaf.schema, data[at + len..]))
    ensures len > 0 && !more ==> T.ParseValues(ctx, leaf.schema, data[at..]) == T.Read([leaf.tree], data[at + len..])
  {
    hide Node.Whole, Node.Ready, Linked, T.ParseValue, T.ParseValues, T.SkipWs, Prepend;
    EmptyTree(leaf);
    ValuesStep(ctx, leaf.schema, data, at);
    more := false;
    var blanks := SkipWs(data, at);
    len := GetValue(ctx, data, at + blanks, leaf);
    if len == 0 {
      return;
    }
    FinishRoot(ks, leaf);
    var separator;
    separator, more := ParseSeparator(data, at + blanks + len);
    len := if separator > 0 then blanks + len + separator else 0;
  }

  lemma LastAdded(ks: seq<Node>, added: seq<Node>)
    requires added != []
    ensures Last(ks + added) == Last(added)
  {
  }

  /** A new top-level node is linked behind the ones there are. */
  method NewRoot(schema: T.Schema, prev: Node?, ghost ks: seq<Node>) returns (node: Node)
    requires Forest(ks, null) && prev == Last(ks)
    modifies ks`next, ks`prev
    ensures fresh(node) && node.schema == schema && OpenRoot(ks, node)
    ensures forall k: Node :: k in ks ==> unchanged(k`tree, k`below)
  {
    hide Node.Whole, Node.Ready, Linked;
    node := new Node(schema);
    LinkRoot(prev, node, ks);
  }

  /** Another value of a top-level leaf-list is linked behind the one just read. */
  method NextRootValue(leaf: Node, ghost ks: seq<Node>, ghost added: seq<Node>) returns (node: Node)
    requires added != [] && Forest(ks + added, null) && leaf == Last(added)
    modifies ks`next, ks`prev, added`next, added`prev
    ensures fresh(node) && node.schema == old(leaf.schema) && OpenRoot(ks + added, node)
    ensures forall k: Node :: k in ks ==> unchanged(k`tree, k`below)
    ensures forall i :: 0 <= i < |added| ==> added[i].tree == old(added[i].tree) && added[i].below == old(added[i].below)
  {
    hide OpenRoot, Forest;
    LastAdded(ks, added);
    node := NewRoot(leaf.schema, leaf, ks + added);
    assert forall i :: 0 <= i < |added| ==> added[i] == (ks + added)[|ks| + i];
  }

  lemma NotYetAdded(ks: seq<Node>, added: seq<Node>, node: Node)
    requires OpenRoot(ks + added, node)
    ensures forall i :: 0 <= i < |added| ==> added[i] != node && node !in added[i].below
  {
    forall i | 0 <= i < |added| ensures Apart(added[i], node) {
      assert (ks + added)[|ks| + i] == added[i];
      assert added[i] in ks + added;
    }
  }

  /** The values of a top-level leaf-list, entered behind the begin-array with the first instance linked. */
  method ParseRootValues(ctx: Context, data: string, at: nat, node: Node, ghost ks: seq<Node>)
    returns (len: nat, last: Node, ghost added: seq<Node>)
    requires at <= |data| && !IsInner(node.schema) && OpenRoot(ks, node)
    modifies ks`next, ks`prev, node
    ensures Consumed(data, at, len, T.ParseValues(ctx, old(node.schema), data[at..]))
    ensures len > 0 ==> Trees(added) == T.ParseValues(ctx, old(node.schema), data[at..]).got
    ensures len > 0 ==> added != [] && Forest(ks + added, null) && last == Last(added)
    ensures forall i :: 0 <= i < |added| ==> (added[i] == node || fresh(added[i])) && added[i].below == {}
    ensures forall k :: k in ks ==> unchanged(k`tree, k`below)
  {
    hide T.ParseValues, Node.Whole, Node.Ready, Linked, AllWhole, Forest, Trees, Prepend;
    ghost var schema := node.schema;
    ghost var spec, acc: seq<T.Tree> := T.ParseValues(ctx, schema, data[at..]), [];
    last, added, len := node, [], 0;
    var more := true;
    PrependNothing(spec);
    assert ks + [] == ks;
    while more
      invariant at + len <= |data| && last.schema == schema
      invariant last == node || fresh(last)
      invariant forall i :: 0 <= i < |added| ==> (added[i] == node || fresh(added[i])) && added[i].below == {}
      invariant |acc| == |added| && forall i :: 0 <= i < |added| ==> added[i].tree == acc[i]
      invariant forall k :: k in ks ==> unchanged(k`tree, k`below)
      invariant more ==> OpenRoot(ks + added, last) && spec == Prepend(acc, T.ParseValues(ctx, schema, data[at + len..]))
      invariant !more ==> len > 0 && added != [] && Forest(ks + added, null) && last == Last(added) && spec == T.Read(acc, data[at + len..])
      decreases |data| - at - len, more
    {
      ghost var done, here := added, T.ParseValues(ctx, schema, data[at + len..]);
      NotYetAdded(ks, done, last);
      var r;
      r, more := ParseOneRootValue(ctx, data, at + len, last, ks + added);
      if r == 0 {
        NothingRead(acc, here);
        return 0, last, [];
      }
      len := len + r;
      ElementRead(spec, acc, last.tree, here, more, T.ParseValues(ctx, schema, data[at + len..]), data[at + len..]);
      assert ks + done + [last] == ks + (done + [last]);
      acc, added := acc + [last.tree], done + [last];
      if more {
        last := NextRootValue(last, ks, added);
      }
    }
    TreesSame(added, acc);
  }

  lemma TreesSame(ks: seq<Node>, ts: seq<T.Tree>)
    requires |ts| == |ks| && forall i :: 0 <= i < |ks| ==> ks[i].tree == ts[i]
    ensures Trees(ks) == ts
  {
  }

  /** The part of json_parse_data behind the linking of a top-level node, by its schema node. */
  method ParseRootContent(ctx: Context, data: string, at: nat, node: Node, prev: Node?, ghost ks: seq<Node>)
    returns (len: nat, broken: bool, last: Node, ghost added: seq<Node>)
    requires at <= |data| && OpenRoot(ks, node) && prev == Last(ks)
    modifies ks`next, ks`prev, node
    ensures TopConsumed(data, at, len, broken, T.ParseTopContent(ctx, old(node.schema), data[at..]), Trees(added))
    ensures len > 0 ==> added != [] && Forest(ks + added, null) && last == Last(added)
    ensures forall i :: 0 <= i < |added| ==> (added[i] == node || fresh(added[i])) && fresh(added[i].below)
    ensures forall k :: k in ks ==> unchanged(k`tree, k`below)
  {
    hide Node.Whole, Node.Ready, Linked, AllWhole, T.ParseTopContent, T.ParseValues, T.ParseContent;
    len, broken, last, added := 0, false, node, [];
    OneTree(node);
    match node.schema.kind {
      case Leaf =>
        len := ParseRootLeaf(ctx, data, at, node, ks);
      case LeafList =>
        TopValues(ctx, node.schema, data[at..]);
        var begin := IsAt(data, at, '[');
        if begin {
          len, last, added := ParseRootValues(ctx, data, at + 1, node, ks);
          len := if len == 0 then 0 else len + 1;
        }
        return;
      case Container =>
        len := ParseRootContainer(ctx, data, at, node, ks);
      case List =>
        var instance;
        len, broken, instance := ParseRootList(ctx, data, at, node, prev, ks);
    }
    if len > 0 {
      OneTree(node);
      added := [node];
    }
  }

  lemma TopValues(ctx: Context, schema: T.Schema, s: string)
    requires schema.kind.LeafList?
    ensures T.ParseTopContent(ctx, schema, s) ==
            if !T.StartsWith(s, '[') then T.Refused
            else
              var c := T.ParseValues(ctx, schema, s[1..]);
              if c.Fail? then T.Refused else T.Accepted(c.got, |c.got|, c.rest)
  {
    hide T.ParseValues;
  }

  /** json_parse_data without a parent: a member's nodes join the top-level nodes. */
  method ParseRoot(ctx: Context, data: string, at: nat, prev: Node?, ghost ks: seq<Node>)
    returns (len: nat, broken: bool, last: Node?, ghost added: seq<Node>)
    requires at <= |data| && Forest(ks, null) && prev == Last(ks)
    modifies ks`next, ks`prev
    ensures TopConsumed(data, at, len, broken, T.ParseTopData(ctx, data[at..]), Trees(added))
    ensures len > 0 ==> added != [] && Forest(ks + added, null) && last == Last(added)
    ensures forall i :: 0 <= i < |added| ==> fresh(added[i]) && fresh(added[i].below)
    ensures forall k :: k in ks ==> unchanged(k`tree, k`below)
  {
    hide T.ParseKey, T.ParseTopContent, T.FindSchema, OpenRoot, Forest, Trees;
    broken, last, added := false, null, [];
    var id;
    id, len := ParseKey(data, at);
    if len == 0 || T.StartsWith(id, '@') {
      return 0, false, null, [];
    }
    var schema := T.FindSchema(ctx, T.Top, id);
    if schema.None? {
      return 0, false, null, [];
    }
    var node := NewRoot(schema.value, prev, ks);
    var r;
    r, broken, last, added := ParseRootContent(ctx, data, at + len, node, prev, ks);
    len := if r == 0 then 0 else len + r;
  }

  function PrependTop(acc: seq<T.Tree>, first: nat, r: T.TopRead): T.TopRead {
    if r.Accepted? then T.Accepted(acc + r.got, if first > 0 then first else r.first, r.rest) else r
  }

  lemma PrependTopMore(acc: seq<T.Tree>, first: nat, more: seq<T.Tree>, n: nat, r: T.TopRead)
    requires n > 0
    ensures PrependTop(acc, first, PrependTop(more, n, r)) == PrependTop(acc + more, if first > 0 then first else n, r)
  {
    assert r.Accepted? ==> acc + (more + r.got) == acc + more + r.got;
  }

  lemma PrependTopNothing(r: T.TopRead)
    ensures PrependTop([], 0, r) == r
  {
    assert r.Accepted? ==> [] + r.got == r.got;
  }

  /** What one turn of the top-level loop does to the text. */
  lemma TopMembersStep(ctx: Context, data: string, start: nat, pos: nat)
    requires start <= pos <= |data| && data[pos..] == T.SkipWs(data[start..])
    ensures var d := T.ParseTopData(ctx, data[pos..]);
            T.ParseTopMembers(ctx, data[start..]) ==
            if !d.Accepted? || !T.StartsWith(d.rest, ',') then d
            else PrependTop(d.got, d.first, T.ParseTopMembers(ctx, d.rest[1..]))
  {
    hide T.ParseTopData;
  }

  /** One top-level member and the separator behind it. */
  method ParseOneRoot(ctx: Context, data: string, at: nat, iter: Node?, ghost ks: seq<Node>)
    returns (len: nat, broken: bool, more: bool, last: Node?, ghost added: seq<Node>)
    requires at <= |data| && Forest(ks, null) && iter == Last(ks)
    modifies ks`next, ks`prev
    ensures len == 0 ==> T.ParseTopMembers(ctx, data[at..]) == if broken then T.Broken else T.Refused
    ensures len > 0 ==> !broken && at + len <= |data| && added != [] && Forest(ks + added, null) && last == Last(added)
    ensures forall i :: 0 <= i < |added| ==> fresh(added[i]) && fresh(added[i].below)
    ensures forall k :: k in ks ==> unchanged(k`tree, k`below)
    ensures len > 0 && more ==>
              T.ParseTopMembers(ctx, data[at..]) == PrependTop(Trees(added), |added|, T.ParseTopMembers(ctx, data[at + len..]))
    ensures len > 0 && !more ==> T.ParseTopMembers(ctx, data[at..]) == T.Accepted(Trees(added), |added|, data[at + len..])
  {
    hide T.ParseTopMembers, T.ParseTopData, Forest, T.SkipWs, Trees;
    more := false;
    var blanks := SkipWs(data, at);
    len, broken, last, added := ParseRoot(ctx, data, at + blanks, iter, ks);
    TopMembersStep(ctx, data, at, at + blanks);
    if len == 0 {
      return;
    }
    len := blanks + len;
    more := IsAt(data, at + len, ',');
    if more {
      len := len + 1;
    }
  }

  /** The loop over the top-level members, entered behind the begin-object; `root` is what the first of
      them returned. */
  method ParseRoots(ctx: Context, data: string, at: nat) returns (len: nat, broken: bool, root: Node?, ghost ks: seq<Node>)
    requires at <= |data|
    ensures TopConsumed(data, at, len, broken, T.ParseTopMembers(ctx, data[at..]), Trees(ks))
    ensures len > 0 ==> Forest(ks, null) && |ks| >= T.ParseTopMembers(ctx, data[at..]).first
    ensures len > 0 ==> root == ks[T.ParseTopMembers(ctx, data[at..]).first - 1]
  {
    hide T.ParseTopMembers, Forest, Trees, PrependTop, Linked;
    len, broken, root, ks := 0, false, null, [];
    NoForest();
    ghost var spec, first: nat := T.ParseTopMembers(ctx, data[at..]), 0;
    PrependTopNothing(spec);
    NoTrees();
    var iter: Node? := null;
    var more := true;
    while more
      invariant at + len <= |data|
      invariant Forest(ks, null) && fresh(ks) && iter == Last(ks) && !broken
      invariant if ks == [] then first == 0 && root == null else 0 < first <= |ks| && root == ks[first - 1]
      invariant more ==> spec == PrependTop(Trees(ks), first, T.ParseTopMembers(ctx, data[at + len..]))
      invariant !more ==> len > 0 && ks != [] && spec == T.Accepted(Trees(ks), first, data[at + len..])
      decreases |data| - at - len, more
    {
      ghost var acc, behind := Trees(ks), T.ParseTopMembers(ctx, data[at + len..]);
      var r, last;
      ghost var added;
      r, broken, more, last, added := ParseOneRoot(ctx, data, at + len, iter, ks);
      if r == 0 {
        RefusedTop(acc, first, behind);
        return 0, broken, null, [];
      }
      TreesSame(ks, acc);
      TreesConcat(ks, added);
      LastAdded(ks, added);
      AddedTop(acc, first, Trees(added), |added|, data[at + len + r..], T.ParseTopMembers(ctx, data[at + len + r..]));
      root := if root == null then last else root;
      first := if first > 0 then first else |added|;
      ks, iter, len := ks + added, last, len + r;
    }
  }

  lemma NoTrees()
    ensures Trees([]) == []
  {
  }

  lemma RefusedTop(acc: seq<T.Tree>, first: nat, r: T.TopRead)
    requires !r.Accepted?
    ensures PrependTop(acc, first, r) == r
  {
  }

  lemma AddedTop(acc: seq<T.Tree>, first: nat, got: seq<T.Tree>, n: nat, rest: string, r: T.TopRead)
    requires n > 0
    ensures PrependTop(acc, first, PrependTop(got, n, r)) == PrependTop(acc + got, if first > 0 then first else n, r)
    ensures PrependTop(acc, first, T.Accepted(got, n, rest)) == T.Accepted(acc + got, if first > 0 then first else n, rest)
  {
    PrependTopMore(acc, first, got, n, r);
  }

  /** lyd_parse_json: the node it returns; where the specification is undefined, the parser has left its
      sibling list, and the model ends. */
  method ParseDocument(ctx: Context, data: string) returns (root: Node?, undefined: bool, ghost ks: seq<Node>)
    ensures match T.ParseDocument(ctx, data)
            case Rejected => root == null && !undefined
            case Undefined => undefined
            case Document(nodes, r) => !undefined && Forest(ks, null) && |ks| == |nodes| && Trees(ks) == nodes && root == ks[r]
  {
    hide T.ParseTopMembers, T.SkipWs, Forest, Trees;
    assert data[0..] == data;
    root, undefined, ks := null, false, [];
    var at := SkipWs(data, 0);
    var begin := IsAt(data, at, '{');
    if !begin {
      return;
    }
    var len;
    len, undefined, root, ks := ParseRoots(ctx, data, at + 1);
    if len == 0 {
      return null, undefined, [];
    }
    var end := IsAt(data, at + 1 + len, '}');
    if !end {
      return null, false, [];
    }
  }
}

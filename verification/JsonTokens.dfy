/** Parsing trees from their tokens: with any white space between them, or none. */
module JsonTokens {
  import opened CStrings
  import opened JsonTree
  import opened JsonRoundTrip

  // ----- texts with spacing ------------------------------------------------------------------

  /** The white space of section 2 of RFC 7159. */
  predicate IsSpacing(s: string) {
    forall i :: 0 <= i < |s| ==> s[i] == ' ' || s[i] == '\t' || s[i] == '\n' || s[i] == '\r'
  }

  /** The tokens in a row, each behind its gap. */
  function Lay(tokens: seq<string>, gaps: seq<string>, rest: string): string
    requires |gaps| == |tokens|
  {
    if tokens == [] then rest else gaps[0] + (tokens[0] + Lay(tokens[1..], gaps[1..], rest))
  }

  /** What stands behind the tokens, if the text starts with them. */
  function After(s: string, tokens: seq<string>): Option<string>
    decreases |tokens|
  {
    if tokens == [] then Some(s)
    else if tokens[0] <= SkipWs(s) then After(SkipWs(s)[|tokens[0]|..], tokens[1..])
    else None
  }

  predicate IsToken(token: string) {
    token != "" && !IsSpacing(token[..1])
  }

  predicate AreTokens(tokens: seq<string>) {
    forall i :: 0 <= i < |tokens| ==> IsToken(tokens[i])
  }

  lemma {:induction false} LaidAfter(tokens: seq<string>, gaps: seq<string>, rest: string)
    requires |gaps| == |tokens| && AreTokens(tokens) && forall i :: 0 <= i < |gaps| ==> IsSpacing(gaps[i])
    ensures After(Lay(tokens, gaps, rest), tokens) == Some(rest)
  {
    if tokens != [] {
      var tail := Lay(tokens[1..], gaps[1..], rest);
      SkipGap(gaps[0], tokens[0], tail);
      assert (tokens[0] + tail)[|tokens[0]|..] == tail;
      LaidAfter(tokens[1..], gaps[1..], rest);
    }
  }

  lemma SkipGap(gap: string, token: string, tail: string)
    requires IsSpacing(gap) && IsToken(token)
    ensures SkipWs(gap + (token + tail)) == token + tail
  {
    SkipBlank(gap, token + tail);
    assert (token + tail)[0] == token[0] == token[..1][0];
  }

  /** What is skipped is all the white space in front, and nothing else. */
  lemma {:induction false} SkippedGap(s: string) returns (gap: string)
    ensures s == gap + SkipWs(s) && IsSpacing(gap)
    ensures SkipWs(s) == "" || !IsSpacing(SkipWs(s)[..1])
  {
    if s != "" && IsWs(s[0]) {
      var more := SkippedGap(s[1..]);
      gap := [s[0]] + more;
    } else {
      gap := "";
      assert s != "" ==> s[..1][0] == s[0];
    }
  }

  /** Only texts with spacing between the tokens start with them. */
  lemma {:induction false} AfterIsLaid(s: string, tokens: seq<string>, rest: string) returns (gaps: seq<string>)
    requires After(s, tokens) == Some(rest)
    ensures |gaps| == |tokens| && (forall i :: 0 <= i < |gaps| ==> IsSpacing(gaps[i])) && s == Lay(tokens, gaps, rest)
    decreases |tokens|
  {
    if tokens == [] {
      gaps := [];
    } else {
      var gap := SkippedGap(s);
      var more := AfterIsLaid(SkipWs(s)[|tokens[0]|..], tokens[1..], rest);
      gaps := [gap] + more;
      assert gaps[1..] == more;
      assert SkipWs(s) == tokens[0] + Lay(tokens[1..], more, rest);
    }
  }

  lemma {:induction false} AfterAppend(s: string, a: seq<string>, b: seq<string>)
    ensures After(s, a + b) == (match After(s, a) case None => None case Some(r) => After(r, b))
    decreases |a|
  {
    if a == [] {
      assert a + b == b;
    } else if a[0] <= SkipWs(s) {
      assert (a + b)[1..] == a[1..] + b;
      AfterAppend(SkipWs(s)[|a[0]|..], a[1..], b);
    }
  }

  /** The first token, and the text behind it. */
  lemma AfterOne(s: string, token: string, tokens: seq<string>) returns (r: string)
    requires After(s, [token] + tokens).Some?
    ensures SkipWs(s) == token + r && After(s, [token] + tokens) == After(r, tokens)
  {
    assert ([token] + tokens)[1..] == tokens;
    r := SkipWs(s)[|token|..];
  }

  lemma NoTokens(s: string)
    ensures After(s, []) == Some(s)
  {
  }

  /** In front of a separator or a closing bracket stands only white space. */
  lemma DelimitedBefore(s: string)
    requires SkipWs(s) != "" && SkipWs(s)[0] in ",]}"
    ensures IsDelimited(s)
  {
  }

  // ----- the tokens of a tree ----------------------------------------------------------------

  function InstanceTokens(t: Tree): seq<string>
    decreases t
  {
    if t.Inner? then ["{"] + NodesTokens("", t.children) + ["}"] else [PrintValue(t)]
  }

  function InstancesTokens(nodes: seq<Tree>, j: nat): seq<string>
    requires j < |nodes|
    decreases nodes, 0, |nodes| - j
  {
    var k := NextInstance(nodes, nodes[j].schema, j + 1);
    InstanceTokens(nodes[j]) + if k < |nodes| then [","] + InstancesTokens(nodes, k) else []
  }

  function ContentTokens(nodes: seq<Tree>, i: nat): seq<string>
    requires i < |nodes|
    decreases nodes, 1, 0
  {
    if !IsMulti(nodes[i].schema) then InstanceTokens(nodes[i])
    else if HasContent(nodes[i]) then ["["] + InstancesTokens(nodes, i) + ["]"]
    else ["null"]
  }

  function EntryTokens(prefix: string, nodes: seq<Tree>, i: nat): seq<string>
    requires i < |nodes|
    decreases nodes, 2, 0
  {
    ["\"" + (prefix + nodes[i].schema.name) + "\"", ":"] + ContentTokens(nodes, i)
  }

  function RestTokens(prefix: string, nodes: seq<Tree>, i: nat): seq<string>
    requires i <= |nodes|
    decreases nodes, 3, |nodes| - i
  {
    if i == |nodes| then []
    else if IsSkipped(nodes, i) then RestTokens(prefix, nodes, i + 1)
    else [","] + EntryTokens(prefix, nodes, i) + RestTokens(prefix, nodes, i + 1)
  }

  function NodesTokens(prefix: string, nodes: seq<Tree>): seq<string>
    decreases nodes, 4, 0
  {
    if nodes == [] then [] else EntryTokens(prefix, nodes, 0) + RestTokens(prefix, nodes, 1)
  }

  function DocumentTokens(mod: string, roots: seq<Tree>): seq<string> {
    ["{"] + NodesTokens(mod + ":", roots) + ["}"]
  }

  // ----- reading -----------------------------------------------------------------------------

  /** A value token: behind it the text goes on at `r`. */
  lemma ReadValueToken(ctx: Context, t: Tree, s: string, tokens: seq<string>) returns (r: string)
    requires t.Term? && IsValid(ctx, t) && After(s, [PrintValue(t)] + tokens).Some?
    ensures After(s, [PrintValue(t)] + tokens) == After(r, tokens)
    ensures IsDelimited(r) ==> ParseValue(ctx, t.schema, SkipWs(s)) == if IsCleanValue(t) then Read(t, r) else Fail
  {
    hide PrintValue, ParseValue;
    r := AfterOne(s, PrintValue(t), tokens);
    if IsDelimited(r) {
      ReadValue(ctx, t, r);
    }
  }

  /** A structural token: the parser finds it behind white space, and goes on at `r`. */
  lemma ReadToken(s: string, c: char, tokens: seq<string>) returns (r: string)
    requires After(s, [[c]] + tokens).Some?
    ensures StartsWith(SkipWs(s), c) && SkipWs(s)[1..] == r && After(s, [[c]] + tokens) == After(r, tokens)
  {
    r := AfterOne(s, [c], tokens);
    assert ([c] + r)[1..] == r && ([c] + r)[0] == c;
  }

  lemma {:induction false} ReadValues(ctx: Context, nodes: seq<Tree>, j: nat, s: string, rest: string)
    requires j < |nodes| && nodes[j].schema.kind.LeafList?
    requires forall i :: 0 <= i < |nodes| ==> IsValid(ctx, nodes[i])
    requires After(s, InstancesTokens(nodes, j) + ["]"]) == Some(rest)
    ensures ParseValues(ctx, nodes[j].schema, s) == if CleanInstances(nodes, j) then Read(GroupInstances(nodes, j), SkipWs(rest)) else Fail
    decreases |nodes| - j
  {
    hide ParseValue, PrintValue, IsDelimited, InstancesTokens, After, IsValid, CleanInstances, GroupInstances, ParseValues, SkipWs;
    var t, k := nodes[j], NextInstance(nodes, nodes[j].schema, j + 1);
    assert IsValid(ctx, t);
    LeafListNode(ctx, t);
    InstancesStep(nodes, j);
    ValuesStep(ctx, t.schema, s);
    CleanStep(nodes, j);
    if k < |nodes| {
      var r := ReadValueToken(ctx, t, s, [","] + (InstancesTokens(nodes, k) + ["]"]));
      var r1 := ReadToken(r, ',', InstancesTokens(nodes, k) + ["]"]);
      DelimitedBefore(r);
      ReadValues(ctx, nodes, k, r1, rest);
    } else {
      var r := ReadValueToken(ctx, t, s, ["]"] + []);
      var r1 := ReadToken(r, ']', []);
      DelimitedBefore(r);
      NoTokens(r1);
      assert [t] + [] == [t];
    }
  }

  lemma LeafListNode(ctx: Context, t: Tree)
    requires IsValid(ctx, t) && t.schema.kind.LeafList?
    ensures t.Term? && InstanceTokens(t) == [PrintValue(t)] && GroupTree(t) == t
    ensures CleanInstance(t) == IsCleanValue(t)
  {
  }

  lemma InstancesStep(nodes: seq<Tree>, j: nat)
    requires j < |nodes|
    ensures var k := NextInstance(nodes, nodes[j].schema, j + 1);
            InstancesTokens(nodes, j) + ["]"]
            == InstanceTokens(nodes[j]) + if k < |nodes| then [","] + (InstancesTokens(nodes, k) + ["]"]) else ["]"] + []
  {
    hide InstanceTokens, NextInstance;
  }

  lemma CleanStep(nodes: seq<Tree>, j: nat)
    requires j < |nodes|
    ensures var k := NextInstance(nodes, nodes[j].schema, j + 1);
            && CleanInstances(nodes, j) == (CleanInstance(nodes[j]) && (k < |nodes| ==> CleanInstances(nodes, k)))
            && GroupInstances(nodes, j) == [GroupTree(nodes[j])] + if k < |nodes| then GroupInstances(nodes, k) else []
  {
    hide CleanInstance, GroupTree, NextInstance;
  }

  lemma ValuesStep(ctx: Context, schema: Schema, s: string)
    ensures var v := ParseValue(ctx, schema, SkipWs(s));
            ParseValues(ctx, schema, s) ==
            if v.Fail? then Fail
            else
              var r := SkipWs(v.rest);
              if StartsWith(r, ',') then
                var more := ParseValues(ctx, schema, r[1..]);
                if more.Fail? then Fail else Read([v.got] + more.got, more.rest)
              else if StartsWith(r, ']') then Read([v.got], SkipWs(r[1..]))
              else Fail
  {
    hide ParseValue, SkipWs;
  }

  /** A list instance, or the braces of a container. */
  lemma {:induction false} ReadBraces(ctx: Context, t: Tree, s: string, tokens: seq<string>) returns (body: string, close: string, rest: string)
    requires t.Inner? && IsValid(ctx, t) && After(s, InstanceTokens(t) + tokens).Some?
    ensures StartsWith(SkipWs(s), '{') && SkipWs(s)[1..] == body
    ensures ParseMembers(ctx, Below(t.schema.children), body)
         == if t.children != [] && CleanFrom(t.children, 0) then Read(GroupFrom(t.children, 0), SkipWs(close)) else Fail
    ensures if t.children == [] then body == close else StartsWith(SkipWs(body), '"')
    ensures StartsWith(SkipWs(close), '}') && SkipWs(close)[1..] == rest && After(s, InstanceTokens(t) + tokens) == After(rest, tokens)
    decreases t, 0
  {
    hide After, ParseMembers, CleanFrom, GroupFrom, SkipWs, NodesTokens, IsValid;
    var inner := NodesTokens("", t.children);
    BracesTokens(t, tokens);
    body := ReadToken(s, '{', inner + (["}"] + tokens));
    AfterAppend(body, inner, ["}"] + tokens);
    close := After(body, inner).value;
    rest := ReadToken(close, '}', tokens);
    ValidChildren(ctx, t);
    ReadNodes(ctx, Below(t.schema.children), "", t.schema.children, t.children, body, close);
  }

  lemma BracesTokens(t: Tree, tokens: seq<string>)
    requires t.Inner?
    ensures InstanceTokens(t) + tokens == ["{"] + (NodesTokens("", t.children) + (["}"] + tokens))
  {
    hide NodesTokens;
  }

  lemma ValidChildren(ctx: Context, t: Tree)
    requires t.Inner? && IsValid(ctx, t)
    ensures AreValid(ctx, t.schema.children, t.children)
  {
  }

  lemma {:induction false} ReadInstances(ctx: Context, nodes: seq<Tree>, j: nat, s: string, rest: string)
    requires j < |nodes| && nodes[j].schema.kind.List?
    requires forall i :: 0 <= i < |nodes| ==> IsValid(ctx, nodes[i])
    requires After(s, InstancesTokens(nodes, j) + ["]"]) == Some(rest)
    ensures ParseInstances(ctx, nodes[j].schema, s) == if CleanInstances(nodes, j) then Read(GroupInstances(nodes, j), "]" + rest) else Fail
    decreases nodes, 0, |nodes| - j
  {
    hide ParseInstance, InstancesTokens, InstanceTokens, After, IsValid, CleanInstances, CleanInstance, GroupInstances, GroupTree, ParseInstances, SkipWs;
    var t, k := nodes[j], NextInstance(nodes, nodes[j].schema, j + 1);
    assert IsValid(ctx, t);
    InnerNode(ctx, t);
    InstancesStep(nodes, j);
    ParseInstancesStep(ctx, t.schema, s);
    CleanStep(nodes, j);
    var one: seq<Tree> := [GroupTree(t)];
    assert one + [] == one;
    if k < |nodes| {
      var r := ReadInstance(ctx, t, s, [","] + (InstancesTokens(nodes, k) + ["]"]));
      var r1 := ReadToken(r, ',', InstancesTokens(nodes, k) + ["]"]);
      ReadInstances(ctx, nodes, k, r1, rest);
    } else {
      var r := ReadInstance(ctx, t, s, ["]"] + []);
      var r1 := ReadToken(r, ']', []);
      NoTokens(r1);
      assert SkipWs(r) == "]" + r1;
    }
  }

  lemma InnerNode(ctx: Context, t: Tree)
    requires IsValid(ctx, t)
    ensures t.Inner? <==> t.schema.kind.List? || t.schema.kind.Container?
  {
  }

  lemma ParseInstancesStep(ctx: Context, schema: Schema, s: string)
    ensures var c := ParseInstance(ctx, schema, s);
            ParseInstances(ctx, schema, s) ==
            if c.Fail? then Fail
            else if StartsWith(c.rest, ',') then
              var more := ParseInstances(ctx, schema, c.rest[1..]);
              if more.Fail? then Fail else Read([c.got] + more.got, more.rest)
            else Read([c.got], c.rest)
  {
    hide ParseInstance;
  }

  lemma {:induction false} ReadInstance(ctx: Context, t: Tree, s: string, tokens: seq<string>) returns (r: string)
    requires t.Inner? && t.schema.kind.List? && IsValid(ctx, t) && After(s, InstanceTokens(t) + tokens).Some?
    ensures After(s, InstanceTokens(t) + tokens) == After(r, tokens)
    ensures ParseInstance(ctx, t.schema, s) == if CleanInstance(t) then Read(GroupTree(t), SkipWs(r)) else Fail
    decreases t, 1
  {
    hide After, ParseMembers, CleanFrom, GroupFrom, SkipWs, InstanceTokens, IsValid;
    var body, close;
    body, close, r := ReadBraces(ctx, t, s, tokens);
  }

  lemma ReadContainer(ctx: Context, t: Tree, s: string, tokens: seq<string>) returns (r: string)
    requires t.Inner? && t.schema.kind.Container? && IsValid(ctx, t) && After(s, InstanceTokens(t) + tokens).Some?
    ensures After(s, InstanceTokens(t) + tokens) == After(r, tokens)
    ensures ParseContent(ctx, t.schema, SkipWs(s)) == if IsClean(t) then Read([GroupTree(t)], SkipWs(r)) else Fail
    decreases t, 1
  {
    hide After, ParseMembers, CleanFrom, GroupFrom, SkipWs, InstanceTokens, IsValid, ParseContent;
    var body, close;
    body, close, r := ReadBraces(ctx, t, s, tokens);
    ContainerText(ctx, t.schema, SkipWs(s));
    EmptyNodes();
  }

  lemma EmptyNodes()
    ensures CleanFrom([], 0) && GroupFrom([], 0) == []
  {
  }

  lemma ContainerText(ctx: Context, schema: Schema, s: string)
    requires schema.kind.Container?
    ensures ParseContent(ctx, schema, s) ==
            if !StartsWith(s, '{') then Fail
            else
              var c := if StartsWith(SkipWs(s[1..]), '}') then Read([], SkipWs(s[1..])) else ParseMembers(ctx, Below(schema.children), s[1..]);
              if c.Read? && StartsWith(c.rest, '}') then Read([Inner(schema, c.got)], SkipWs(c.rest[1..])) else Fail
  {
    hide ParseMembers, SkipWs;
  }

  /** The array of all instances of a list or leaf-list. */
  lemma ReadArray(ctx: Context, nodes: seq<Tree>, i: nat, s: string, rest: string)
    requires i < |nodes| && IsMulti(nodes[i].schema)
    requires forall k :: 0 <= k < |nodes| ==> IsValid(ctx, nodes[k])
    requires After(s, ["["] + InstancesTokens(nodes, i) + ["]"]) == Some(rest)
    ensures ParseContent(ctx, nodes[i].schema, SkipWs(s)) == if CleanInstances(nodes, i) then Read(GroupInstances(nodes, i), SkipWs(rest)) else Fail
    decreases nodes, 1, 0
  {
    hide After, InstancesTokens, GroupInstances, CleanInstances, ParseInstances, ParseValues, SkipWs, IsValid;
    assert ["["] + InstancesTokens(nodes, i) + ["]"] == ["["] + (InstancesTokens(nodes, i) + ["]"]);
    var r := ReadToken(s, '[', InstancesTokens(nodes, i) + ["]"]);
    if nodes[i].schema.kind.List? {
      ReadInstances(ctx, nodes, i, r, rest);
      assert ("]" + rest)[1..] == rest && ("]" + rest)[0] == ']';
    } else {
      ReadValues(ctx, nodes, i, r, rest);
    }
  }

  lemma ReadLeaf(ctx: Context, t: Tree, s: string, rest: string)
    requires t.Term? && t.schema.kind.Leaf? && IsValid(ctx, t) && After(s, [PrintValue(t)]) == Some(rest) && IsDelimited(rest)
    ensures ParseContent(ctx, t.schema, SkipWs(s)) == if IsCleanValue(t) then Read([t], SkipWs(rest)) else Fail
  {
    hide After, PrintValue, ParseValue, SkipWs, IsDelimited;
    assert [PrintValue(t)] + [] == [PrintValue(t)];
    var r := ReadValueToken(ctx, t, s, []);
    NoTokens(r);
  }

  lemma ReadNull(ctx: Context, schema: Schema, s: string)
    requires IsMulti(schema) && After(s, ["null"]).Some?
    ensures ParseContent(ctx, schema, SkipWs(s)).Fail? && !StartsWith(SkipWs(s), '[')
  {
    hide ParseInstances, ParseValues;
    assert ["null"] + [] == ["null"];
    var r := AfterOne(s, "null", []);
    assert SkipWs(s)[0] == 'n';
  }

  /** What stands behind a member's key. */
  lemma ReadContent(ctx: Context, nodes: seq<Tree>, i: nat, s: string, rest: string)
    requires i < |nodes| && (forall k :: 0 <= k < |nodes| ==> IsValid(ctx, nodes[k])) && IsDelimited(rest)
    requires After(s, ContentTokens(nodes, i)) == Some(rest)
    ensures ParseContent(ctx, nodes[i].schema, SkipWs(s)) == if CleanEntry(nodes, i) then Read(GroupEntry(nodes, i), SkipWs(rest)) else Fail
    decreases nodes, 2, 0
  {
    hide After, InstancesTokens, GroupInstances, CleanInstances, ParseContent, SkipWs, IsValid, IsDelimited, PrintValue, HasContent;
    var t := nodes[i];
    assert IsValid(ctx, t);
    InnerNode(ctx, t);
    if IsMulti(t.schema) {
      if HasContent(t) {
        ReadArray(ctx, nodes, i, s, rest);
      } else {
        ReadNull(ctx, t.schema, s);
      }
    } else if t.Inner? {
      assert InstanceTokens(t) + [] == InstanceTokens(t);
      var r := ReadContainer(ctx, t, s, []);
      NoTokens(r);
    } else {
      ReadLeaf(ctx, t, s, rest);
    }
  }

  /** One member: its key, and then its content. */
  lemma ReadEntry(ctx: Context, scope: Scope, prefix: string, schemas: seq<Schema>, nodes: seq<Tree>, i: nat, s: string, rest: string)
    requires i < |nodes| && IsScope(ctx, scope, prefix, schemas) && AreValid(ctx, schemas, nodes) && IsDelimited(rest)
    requires After(s, EntryTokens(prefix, nodes, i)) == Some(rest)
    ensures ParseData(ctx, scope, SkipWs(s)) == if CleanEntry(nodes, i) then Read(GroupEntry(nodes, i), SkipWs(rest)) else Fail
    decreases nodes, 3, 0
  {
    hide After, ContentTokens, GroupEntry, CleanEntry, ParseContent, SkipWs, IsValid, IsDelimited, ParseKey, FindSchema, IsScope;
    var content := ReadEntryKey(ctx, scope, prefix, schemas, nodes, i, s);
    ReadContent(ctx, nodes, i, content, rest);
  }

  lemma ReadEntryKey(ctx: Context, scope: Scope, prefix: string, schemas: seq<Schema>, nodes: seq<Tree>, i: nat, s: string) returns (content: string)
    requires i < |nodes| && IsScope(ctx, scope, prefix, schemas) && AreValid(ctx, schemas, nodes)
    requires After(s, EntryTokens(prefix, nodes, i)).Some?
    ensures After(s, EntryTokens(prefix, nodes, i)) == After(content, ContentTokens(nodes, i))
    ensures var key := ParseKey(SkipWs(s));
            && key.Read? && !StartsWith(key.got, '@') && key.rest == SkipWs(content)
            && FindSchema(ctx, scope, key.got) == Some(nodes[i].schema)
  {
    hide After, ContentTokens, SkipWs, IsValid, ParseKey, FindSchema, IsScope;
    var id := prefix + nodes[i].schema.name;
    var key := "\"" + id + "\"";
    assert EntryTokens(prefix, nodes, i) == [key] + ([":"] + ContentTokens(nodes, i));
    var r := AfterOne(s, key, [":"] + ContentTokens(nodes, i));
    content := AfterOne(r, ":", ContentTokens(nodes, i));
    ReadName(ctx, scope, prefix, schemas, nodes[i].schema, r, content);
    assert key + r == "\"" + id + "\"" + r;
  }

  // ----- the members of an object ------------------------------------------------------------

  /** The next sibling that is printed as a member. */
  function NextEntry(nodes: seq<Tree>, i: nat): (m: nat)
    requires i <= |nodes|
    ensures i <= m <= |nodes|
    ensures m < |nodes| ==> !IsSkipped(nodes, m)
    decreases |nodes| - i
  {
    if i == |nodes| || !IsSkipped(nodes, i) then i else NextEntry(nodes, i + 1)
  }

  lemma {:induction false} SkipToEntry(prefix: string, nodes: seq<Tree>, i: nat)
    requires i <= |nodes|
    ensures var m := NextEntry(nodes, i);
            RestTokens(prefix, nodes, i) == if m == |nodes| then [] else [","] + (EntryTokens(prefix, nodes, m) + RestTokens(prefix, nodes, m + 1))
    ensures GroupFrom(nodes, i) == GroupFrom(nodes, NextEntry(nodes, i))
    ensures CleanFrom(nodes, i) == CleanFrom(nodes, NextEntry(nodes, i))
    decreases |nodes| - i
  {
    hide EntryTokens, GroupEntry, CleanEntry;
    if i < |nodes| && IsSkipped(nodes, i) {
      SkipToEntry(prefix, nodes, i + 1);
    }
  }

  lemma FromEntry(nodes: seq<Tree>, i: nat)
    requires i < |nodes| && !IsSkipped(nodes, i)
    ensures GroupFrom(nodes, i) == GroupEntry(nodes, i) + GroupFrom(nodes, i + 1)
    ensures CleanFrom(nodes, i) == (CleanEntry(nodes, i) && CleanFrom(nodes, i + 1))
    ensures GroupFrom(nodes, |nodes|) == [] && CleanFrom(nodes, |nodes|)
  {
    hide GroupEntry, CleanEntry;
  }

  lemma MembersStep(ctx: Context, scope: Scope, s: string)
    ensures var d := ParseData(ctx, scope, SkipWs(s));
            ParseMembers(ctx, scope, s) ==
            if d.Fail? || !StartsWith(d.rest, ',') then d
            else
              var more := ParseMembers(ctx, scope, d.rest[1..]);
              if more.Fail? then Fail else Read(d.got + more.got, more.rest)
  {
    hide ParseData, SkipWs;
  }

  /** A member and what is printed behind it: the text in between ends it. */
  lemma SplitEntry(prefix: string, nodes: seq<Tree>, i: nat, s: string, rest: string) returns (r: string, more: string)
    requires i < |nodes| && After(s, EntryTokens(prefix, nodes, i) + RestTokens(prefix, nodes, i + 1)) == Some(rest)
    requires StartsWith(SkipWs(rest), '}')
    ensures After(s, EntryTokens(prefix, nodes, i)) == Some(r) && IsDelimited(r)
    ensures var m := NextEntry(nodes, i + 1);
            if m == |nodes| then r == rest
            else StartsWith(SkipWs(r), ',') && SkipWs(r)[1..] == more
                 && After(more, EntryTokens(prefix, nodes, m) + RestTokens(prefix, nodes, m + 1)) == Some(rest)
  {
    hide After, EntryTokens, RestTokens, SkipWs, IsDelimited;
    AfterAppend(s, EntryTokens(prefix, nodes, i), RestTokens(prefix, nodes, i + 1));
    r := After(s, EntryTokens(prefix, nodes, i)).value;
    more := "";
    SkipToEntry(prefix, nodes, i + 1);
    var m := NextEntry(nodes, i + 1);
    if m == |nodes| {
      NoTokens(r);
    } else {
      more := ReadToken(r, ',', EntryTokens(prefix, nodes, m) + RestTokens(prefix, nodes, m + 1));
    }
    DelimitedBefore(r);
  }

  lemma {:induction false} ReadMembers(ctx: Context, scope: Scope, prefix: string, schemas: seq<Schema>, nodes: seq<Tree>, i: nat, s: string,
                                       rest: string)
    requires i < |nodes| && IsScope(ctx, scope, prefix, schemas) && AreValid(ctx, schemas, nodes)
    requires !IsSkipped(nodes, i) && StartsWith(SkipWs(rest), '}')
    requires After(s, EntryTokens(prefix, nodes, i) + RestTokens(prefix, nodes, i + 1)) == Some(rest)
    ensures ParseMembers(ctx, scope, s) == if CleanFrom(nodes, i) then Read(GroupFrom(nodes, i), SkipWs(rest)) else Fail
    decreases nodes, 4, |nodes| - i
  {
    hide ParseMembers, ParseData, After, EntryTokens, RestTokens, GroupEntry, CleanEntry, NextEntry, GroupFrom, CleanFrom, SkipWs, IsDelimited,
      IsScope, AreValid, IsSkipped;
    var m := NextEntry(nodes, i + 1);
    var r, more := SplitEntry(prefix, nodes, i, s, rest);
    ReadEntry(ctx, scope, prefix, schemas, nodes, i, s, r);
    SkipToEntry(prefix, nodes, i + 1);
    FromEntry(nodes, i);
    MembersStep(ctx, scope, s);
    assert GroupEntry(nodes, i) + [] == GroupEntry(nodes, i);
    if m < |nodes| {
      ReadMembers(ctx, scope, prefix, schemas, nodes, m, more, rest);
    }
  }

  lemma NoMembers(ctx: Context, scope: Scope, s: string)
    requires StartsWith(SkipWs(s), '}')
    ensures ParseMembers(ctx, scope, s).Fail?
  {
    assert ParseKey(SkipWs(s)).Fail?;
  }

  /** All members of an object, up to its closing bracket. */
  lemma {:induction false} ReadNodes(ctx: Context, scope: Scope, prefix: string, schemas: seq<Schema>, nodes: seq<Tree>, s: string, rest: string)
    requires IsScope(ctx, scope, prefix, schemas) && AreValid(ctx, schemas, nodes)
    requires After(s, NodesTokens(prefix, nodes)) == Some(rest) && StartsWith(SkipWs(rest), '}')
    ensures ParseMembers(ctx, scope, s) == if nodes != [] && CleanFrom(nodes, 0) then Read(GroupFrom(nodes, 0), SkipWs(rest)) else Fail
    ensures if nodes == [] then s == rest else StartsWith(SkipWs(s), '"')
    decreases nodes, 5, 0
  {
    hide ParseMembers, After, EntryTokens, RestTokens, GroupFrom, CleanFrom, SkipWs, IsScope;
    if nodes == [] {
      NoTokens(s);
      NoMembers(ctx, scope, s);
    } else {
      KeyFirst(prefix, nodes, s, RestTokens(prefix, nodes, 1));
      ReadMembers(ctx, scope, prefix, schemas, nodes, 0, s, rest);
    }
  }

  lemma KeyFirst(prefix: string, nodes: seq<Tree>, s: string, tokens: seq<string>)
    requires nodes != [] && After(s, EntryTokens(prefix, nodes, 0) + tokens).Some?
    ensures StartsWith(SkipWs(s), '"')
  {
    hide After, ContentTokens, SkipWs;
    var key := "\"" + (prefix + nodes[0].schema.name) + "\"";
    var more := [":"] + ContentTokens(nodes, 0) + tokens;
    assert EntryTokens(prefix, nodes, 0) + tokens == [key] + more;
    var r := AfterOne(s, key, more);
    assert (key + r)[0] == '"';
  }
}

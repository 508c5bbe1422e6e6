/** The text of the printer is one of the many texts of a tree. */
module JsonLayout {
  import opened CStrings
  import opened JsonTree
  import opened JsonRoundTrip
  import opened JsonTokens

  lemma BlankInFront(blank: string, s: string, tokens: seq<string>)
    requires IsBlank(blank) && tokens != []
    ensures After(blank + s, tokens) == After(s, tokens)
  {
    SkipBlank(blank, s);
  }

  lemma TokenFirst(token: string, s: string, tokens: seq<string>)
    requires token != "" && !IsWs(token[0])
    ensures After(token + s, [token] + tokens) == After(s, tokens)
  {
    assert (token + s)[0] == token[0] && (token + s)[|token|..] == s && token <= token + s;
    assert SkipWs(token + s) == token + s;
    assert ([token] + tokens)[1..] == tokens;
  }

  lemma BlankThenToken(blank: string, token: string, s: string, tokens: seq<string>)
    requires IsBlank(blank) && token != "" && !IsWs(token[0])
    ensures After(blank + (token + s), [token] + tokens) == After(s, tokens)
  {
    hide After;
    BlankInFront(blank, token + s, [token] + tokens);
    TokenFirst(token, s, tokens);
  }

  lemma ValueIsToken(ctx: Context, t: Tree)
    requires t.Term? && IsValid(ctx, t)
    ensures PrintValue(t) != "" && !IsWs(PrintValue(t)[0])
  {
    if t.printed.Bare? {
      assert t.value.value[0] in t.value.value;
    }
  }

  predicate AllValid(ctx: Context, nodes: seq<Tree>) {
    forall i :: 0 <= i < |nodes| ==> IsValid(ctx, nodes[i])
  }

  lemma {:induction false} InstanceLaid(ctx: Context, level: nat, t: Tree, rest: string)
    requires IsValid(ctx, t)
    ensures After(PrintInstance(level, t) + rest, InstanceTokens(t)) == Some(rest)
    decreases t, 0
  {
    hide After, PrintNodes, NodesTokens, PrintValue;
    if t.Term? {
      ValueIsToken(ctx, t);
      assert [PrintValue(t)] + [] == [PrintValue(t)];
      TokenFirst(PrintValue(t), rest, []);
      NoTokens(rest);
    } else {
      assert AllValid(ctx, t.children);
      var inner := NodesTokens("", t.children);
      var nodes := PrintNodes(level + 1, "", t.children);
      var close := Indent(level) + ("}" + rest);
      assert PrintInstance(level, t) + rest == "{" + ("\n" + (nodes + close));
      assert InstanceTokens(t) == ["{"] + (inner + ["}"]);
      TokenFirst("{", "\n" + (nodes + close), inner + ["}"]);
      BlankInFront("\n", nodes + close, inner + ["}"]);
      NodesLaid(ctx, level + 1, "", t.children, close);
      AfterAppend(nodes + close, inner, ["}"]);
      assert "\n" + close == ("\n" + Indent(level)) + ("}" + rest) && ["}"] + [] == ["}"];
      BlankThenToken("\n" + Indent(level), "}", rest, []);
      NoTokens(rest);
    }
  }

  lemma {:induction false} InstancesLaid(ctx: Context, level: nat, nodes: seq<Tree>, j: nat, rest: string)
    requires j < |nodes| && AllValid(ctx, nodes)
    ensures After(PrintInstances(level, nodes, j) + rest, InstancesTokens(nodes, j)) == Some(rest)
    decreases nodes, 0, |nodes| - j
  {
    hide After, PrintInstance, InstanceTokens, NextInstance;
    var k := NextInstance(nodes, nodes[j].schema, j + 1);
    var one := PrintInstance(level, nodes[j]);
    assert IsValid(ctx, nodes[j]);
    InstanceNotEmpty(nodes[j]);
    if k < |nodes| {
      var more := PrintInstances(level, nodes, k) + rest;
      assert PrintInstances(level, nodes, j) + rest == Indent(level) + (one + ("," + ("\n" + more)));
      BlankInFront(Indent(level), one + ("," + ("\n" + more)), InstancesTokens(nodes, j));
      InstanceLaid(ctx, level, nodes[j], "," + ("\n" + more));
      AfterAppend(one + ("," + ("\n" + more)), InstanceTokens(nodes[j]), [","] + InstancesTokens(nodes, k));
      TokenFirst(",", "\n" + more, InstancesTokens(nodes, k));
      InstanceNotEmpty(nodes[k]);
      BlankInFront("\n", more, InstancesTokens(nodes, k));
      InstancesLaid(ctx, level, nodes, k, rest);
    } else {
      assert PrintInstances(level, nodes, j) + rest == Indent(level) + (one + rest);
      assert InstanceTokens(nodes[j]) + [] == InstanceTokens(nodes[j]);
      BlankInFront(Indent(level), one + rest, InstancesTokens(nodes, j));
      InstanceLaid(ctx, level, nodes[j], rest);
    }
  }

  lemma InstanceNotEmpty(t: Tree)
    ensures InstanceTokens(t) != []
  {
  }

  lemma ContentLaid(ctx: Context, level: nat, nodes: seq<Tree>, i: nat, rest: string)
    requires i < |nodes| && AllValid(ctx, nodes)
    ensures After(EntryContent(level, nodes, i) + rest, ContentTokens(nodes, i)) == Some(rest)
    decreases nodes, 1, 0
  {
    hide After, PrintInstances, InstancesTokens, InstanceTokens, PrintInstance, HasContent, EntryContent;
    var t := nodes[i];
    assert IsValid(ctx, t);
    ContentText(level, nodes, i);
    if !IsMulti(t.schema) {
      assert EntryContent(level, nodes, i) + rest == " " + (PrintInstance(level, t) + rest);
      InstanceNotEmpty(t);
      BlankInFront(" ", PrintInstance(level, t) + rest, InstanceTokens(t));
      InstanceLaid(ctx, level, t, rest);
    } else if HasContent(t) {
      ArrayLaid(ctx, level, nodes, i, rest);
    } else {
      NullLaid(rest);
    }
  }

  lemma ContentText(level: nat, nodes: seq<Tree>, i: nat)
    requires i < |nodes|
    ensures EntryContent(level, nodes, i)
         == if !IsMulti(nodes[i].schema) then " " + PrintInstance(level, nodes[i])
            else if HasContent(nodes[i]) then " [\n" + PrintInstances(level + 1, nodes, i) + ("\n" + Indent(level) + "]") else " null"
  {
    hide PrintInstances, HasContent, PrintInstance;
    if !IsMulti(nodes[i].schema) {
      InstanceText(level, nodes, i);
    }
  }

  lemma NullLaid(rest: string)
    ensures After(" null" + rest, ["null"]) == Some(rest)
  {
    hide After;
    assert " null" + rest == " " + ("null" + rest) && ["null"] + [] == ["null"];
    BlankThenToken(" ", "null", rest, []);
    NoTokens(rest);
  }

  lemma ArrayLaid(ctx: Context, level: nat, nodes: seq<Tree>, i: nat, rest: string)
    requires i < |nodes| && AllValid(ctx, nodes)
    ensures After(" [\n" + PrintInstances(level + 1, nodes, i) + ("\n" + Indent(level) + "]") + rest, ["["] + InstancesTokens(nodes, i) + ["]"])
         == Some(rest)
    decreases nodes, 0, |nodes| + 1
  {
    hide After, PrintInstances, InstancesTokens, Blanks;
    var items, inner := PrintInstances(level + 1, nodes, i), InstancesTokens(nodes, i);
    var close := ("\n" + Indent(level)) + ("]" + rest);
    assert " [\n" + items + ("\n" + Indent(level) + "]") + rest == " " + ("[" + ("\n" + (items + close)));
    assert ["["] + inner + ["]"] == ["["] + (inner + ["]"]);
    BlankThenToken(" ", "[", "\n" + (items + close), inner + ["]"]);
    BlankInFront("\n", items + close, inner + ["]"]);
    InstancesLaid(ctx, level + 1, nodes, i, close);
    AfterAppend(items + close, inner, ["]"]);
    assert ["]"] + [] == ["]"];
    BlankThenToken("\n" + Indent(level), "]", rest, []);
    NoTokens(rest);
  }

  /** A printed member behind its key. */
  function EntryContent(level: nat, nodes: seq<Tree>, i: nat): (r: string)
    requires i < |nodes|
    ensures forall prefix :: PrintEntry(level, prefix, nodes, i) == Key(prefix, nodes[i].schema) + r
  {
    var t := nodes[i];
    if IsMulti(t.schema) then
      if HasContent(t) then " [\n" + PrintInstances(level + 1, nodes, i) + ("\n" + Indent(level) + "]") else " null"
    else if t.Inner? then
      " {\n" + PrintNodes(level + 1, "", t.children) + (Indent(level) + "}")
    else
      " " + PrintValue(t)
  }

  lemma InstanceText(level: nat, nodes: seq<Tree>, i: nat)
    requires i < |nodes| && !IsMulti(nodes[i].schema)
    ensures EntryContent(level, nodes, i) == " " + PrintInstance(level, nodes[i])
  {
    hide PrintNodes, PrintValue;
    var t := nodes[i];
    if t.Inner? {
      var inner := PrintNodes(level + 1, "", t.children) + (Indent(level) + "}");
      assert " {\n" + PrintNodes(level + 1, "", t.children) + (Indent(level) + "}") == " " + ("{\n" + inner);
      assert "{\n" + PrintNodes(level + 1, "", t.children) + (Indent(level) + "}") == "{\n" + inner;
    }
  }

  lemma EntryLaid(ctx: Context, level: nat, prefix: string, nodes: seq<Tree>, i: nat, rest: string)
    requires i < |nodes| && AllValid(ctx, nodes)
    ensures After(PrintEntry(level, prefix, nodes, i) + rest, EntryTokens(prefix, nodes, i)) == Some(rest)
    decreases nodes, 2, 0
  {
    hide After, PrintEntry, ContentTokens;
    var content := EntryContent(level, nodes, i);
    var key := "\"" + (prefix + nodes[i].schema.name) + "\"";
    assert PrintEntry(level, prefix, nodes, i) + rest == key + (":" + (content + rest));
    assert EntryTokens(prefix, nodes, i) == [key] + ([":"] + ContentTokens(nodes, i));
    TokenFirst(key, ":" + (content + rest), [":"] + ContentTokens(nodes, i));
    TokenFirst(":", content + rest, ContentTokens(nodes, i));
    ContentLaid(ctx, level, nodes, i, rest);
  }

  lemma {:induction false} RestLaid(ctx: Context, level: nat, prefix: string, nodes: seq<Tree>, i: nat, rest: string)
    requires 0 < i <= |nodes| && AllValid(ctx, nodes)
    ensures After(PrintRest(level, prefix, nodes, i) + rest, RestTokens(prefix, nodes, i)) == Some("\n" + rest)
    decreases nodes, 3, |nodes| - i
  {
    hide After, PrintEntry, EntryTokens;
    if i == |nodes| {
      NoTokens("\n" + rest);
    } else if IsSkipped(nodes, i) {
      RestLaid(ctx, level, prefix, nodes, i + 1, rest);
    } else {
      var more := PrintRest(level, prefix, nodes, i + 1) + rest;
      var entry := PrintEntry(level, prefix, nodes, i) + more;
      assert PrintRest(level, prefix, nodes, i) + rest == "," + (("\n" + Indent(level)) + entry);
      var tokens := EntryTokens(prefix, nodes, i) + RestTokens(prefix, nodes, i + 1);
      assert RestTokens(prefix, nodes, i) == [","] + tokens;
      TokenFirst(",", ("\n" + Indent(level)) + entry, tokens);
      EntryNotEmpty(prefix, nodes, i);
      BlankInFront("\n" + Indent(level), entry, tokens);
      EntryLaid(ctx, level, prefix, nodes, i, more);
      AfterAppend(entry, EntryTokens(prefix, nodes, i), RestTokens(prefix, nodes, i + 1));
      RestLaid(ctx, level, prefix, nodes, i + 1, rest);
    }
  }

  lemma EntryNotEmpty(prefix: string, nodes: seq<Tree>, i: nat)
    requires i < |nodes|
    ensures EntryTokens(prefix, nodes, i) != []
  {
  }

  lemma {:induction false} NodesLaid(ctx: Context, level: nat, prefix: string, nodes: seq<Tree>, rest: string)
    requires AllValid(ctx, nodes)
    ensures After(PrintNodes(level, prefix, nodes) + rest, NodesTokens(prefix, nodes)) == Some("\n" + rest)
    decreases nodes, 4, 0
  {
    hide After, PrintEntry, EntryTokens, PrintRest, RestTokens;
    if nodes == [] {
      NoTokens("\n" + rest);
    } else {
      var more := PrintRest(level, prefix, nodes, 1) + rest;
      var entry := PrintEntry(level, prefix, nodes, 0) + more;
      assert PrintNodes(level, prefix, nodes) + rest == Indent(level) + entry;
      EntryNotEmpty(prefix, nodes, 0);
      BlankInFront(Indent(level), entry, NodesTokens(prefix, nodes));
      EntryLaid(ctx, level, prefix, nodes, 0, more);
      AfterAppend(entry, EntryTokens(prefix, nodes, 0), RestTokens(prefix, nodes, 1));
      RestLaid(ctx, level, prefix, nodes, 1, rest);
    }
  }

  /** A printed document consists of its tokens and white space. */
  lemma DocumentLaid(ctx: Context, mod: string, roots: seq<Tree>)
    requires AllValid(ctx, roots)
    ensures After(PrintDocument(mod, roots), DocumentTokens(mod, roots)) == Some("\n")
  {
    hide After, PrintNodes, NodesTokens;
    var nodes, inner := PrintNodes(1, mod + ":", roots), NodesTokens(mod + ":", roots);
    assert PrintDocument(mod, roots) == "{" + ("\n" + (nodes + "}\n"));
    assert DocumentTokens(mod, roots) == ["{"] + (inner + ["}"]);
    TokenFirst("{", "\n" + (nodes + "}\n"), inner + ["}"]);
    BlankInFront("\n", nodes + "}\n", inner + ["}"]);
    NodesLaid(ctx, 1, mod + ":", roots, "}\n");
    AfterAppend(nodes + "}\n", inner, ["}"]);
    assert "\n" + "}\n" == "\n" + ("}" + "\n") && ["}"] + [] == ["}"];
    BlankThenToken("\n", "}", "\n", []);
    NoTokens("\n");
  }

  // ----- the tokens are tokens ---------------------------------------------------------------

  lemma {:induction false} JoinedTokens(a: seq<string>, b: seq<string>)
    requires AreTokens(a) && AreTokens(b)
    ensures AreTokens(a + b)
  {
  }

  lemma StructuralTokens()
    ensures AreTokens([]) && AreTokens(["{"]) && AreTokens(["}"]) && AreTokens(["["]) && AreTokens(["]"]) && AreTokens([","]) && AreTokens(["null"])
  {
    OneToken("{");
    OneToken("}");
    OneToken("[");
    OneToken("]");
    OneToken(",");
    OneToken("null");
  }

  lemma {:induction false} InstanceIsTokens(ctx: Context, t: Tree)
    requires IsValid(ctx, t)
    ensures AreTokens(InstanceTokens(t))
    decreases t, 0
  {
    hide NodesTokens, AreTokens;
    StructuralTokens();
    if t.Term? {
      ValueIsToken(ctx, t);
      OneToken(PrintValue(t));
    } else {
      assert AllValid(ctx, t.children);
      NodesAreTokens(ctx, "", t.children);
      JoinedTokens(["{"], NodesTokens("", t.children));
      JoinedTokens(["{"] + NodesTokens("", t.children), ["}"]);
    }
  }

  lemma OneToken(token: string)
    requires token != "" && !IsWs(token[0])
    ensures AreTokens([token])
  {
    assert token[..1][0] == token[0];
  }

  lemma {:induction false} InstancesAreTokens(ctx: Context, nodes: seq<Tree>, j: nat)
    requires j < |nodes| && AllValid(ctx, nodes)
    ensures AreTokens(InstancesTokens(nodes, j))
    decreases nodes, 0, |nodes| - j
  {
    hide InstanceTokens, AreTokens, NextInstance;
    StructuralTokens();
    var k := NextInstance(nodes, nodes[j].schema, j + 1);
    assert IsValid(ctx, nodes[j]);
    InstanceIsTokens(ctx, nodes[j]);
    if k < |nodes| {
      InstancesAreTokens(ctx, nodes, k);
      JoinedTokens([","], InstancesTokens(nodes, k));
      JoinedTokens(InstanceTokens(nodes[j]), [","] + InstancesTokens(nodes, k));
    } else {
      JoinedTokens(InstanceTokens(nodes[j]), []);
    }
  }

  lemma EntryIsTokens(ctx: Context, prefix: string, nodes: seq<Tree>, i: nat)
    requires i < |nodes| && AllValid(ctx, nodes)
    ensures AreTokens(EntryTokens(prefix, nodes, i))
    decreases nodes, 1, 0
  {
    hide InstanceTokens, InstancesTokens, AreTokens, HasContent;
    StructuralTokens();
    var key := "\"" + (prefix + nodes[i].schema.name) + "\"";
    OneToken(key);
    OneToken(":");
    JoinedTokens([key], [":"]);
    assert [key] + [":"] == [key, ":"];
    assert IsValid(ctx, nodes[i]);
    if !IsMulti(nodes[i].schema) {
      InstanceIsTokens(ctx, nodes[i]);
    } else if HasContent(nodes[i]) {
      InstancesAreTokens(ctx, nodes, i);
      JoinedTokens(["["], InstancesTokens(nodes, i));
      JoinedTokens(["["] + InstancesTokens(nodes, i), ["]"]);
    }
    JoinedTokens([key, ":"], ContentTokens(nodes, i));
  }

  lemma {:induction false} RestIsTokens(ctx: Context, prefix: string, nodes: seq<Tree>, i: nat)
    requires i <= |nodes| && AllValid(ctx, nodes)
    ensures AreTokens(RestTokens(prefix, nodes, i))
    decreases nodes, 2, |nodes| - i
  {
    hide EntryTokens, AreTokens;
    StructuralTokens();
    if i < |nodes| {
      RestIsTokens(ctx, prefix, nodes, i + 1);
      EntryIsTokens(ctx, prefix, nodes, i);
      JoinedTokens([","], EntryTokens(prefix, nodes, i));
      JoinedTokens([","] + EntryTokens(prefix, nodes, i), RestTokens(prefix, nodes, i + 1));
    }
  }

  lemma {:induction false} NodesAreTokens(ctx: Context, prefix: string, nodes: seq<Tree>)
    requires AllValid(ctx, nodes)
    ensures AreTokens(NodesTokens(prefix, nodes))
    decreases nodes, 3, 0
  {
    hide EntryTokens, RestTokens, AreTokens;
    StructuralTokens();
    if nodes != [] {
      EntryIsTokens(ctx, prefix, nodes, 0);
      RestIsTokens(ctx, prefix, nodes, 1);
      JoinedTokens(EntryTokens(prefix, nodes, 0), RestTokens(prefix, nodes, 1));
    }
  }

  lemma DocumentIsTokens(ctx: Context, mod: string, roots: seq<Tree>)
    requires AllValid(ctx, roots)
    ensures AreTokens(DocumentTokens(mod, roots))
  {
    hide NodesTokens, AreTokens;
    StructuralTokens();
    var inner := NodesTokens(mod + ":", roots);
    NodesAreTokens(ctx, mod + ":", roots);
    JoinedTokens(["{"], inner);
    JoinedTokens(["{"] + inner, ["}"]);
  }
}

/** Two texts in full: what the printer writes for a small document, and the same without white space. */
module JsonExamples {
  import opened CStrings
  import opened JsonText
  import opened JsonTree
  import opened JsonRoundTrip
  import opened JsonTokens
  import opened JsonGrouping
  import opened JsonTopLevel

  const A: Schema := Schema("a", Leaf, [])
  const S: Schema := Schema("s", Leaf, [])
  const N: Schema := Schema("n", LeafList, [])
  const C: Schema := Schema("c", Container, [A, S, N])

  /** A container of a number, a string and two more numbers. */
  function Small(): seq<Tree> {
    [Inner(C, Parts())]
  }

  function Parts(): seq<Tree> {
    [Term(A, Some("1"), Bare), Term(S, Some("x"), Quoted), Term(N, Some("2"), Bare), Term(N, Some("-3"), Bare)]
  }

  // ----- with the printer's white space ------------------------------------------------------

  lemma Indents()
    ensures Indent(1) == "  " && Indent(2) == "    " && Indent(3) == "      "
  {
  }

  lemma Values()
    ensures PrintValue(Parts()[0]) == "1" && PrintValue(Parts()[1]) == "\"x\"" && PrintValue(Parts()[2]) == "2" && PrintValue(Parts()[3]) == "-3"
  {
    assert Escape("") == "" && Escape("x") == "x" by {
      assert "x"[1..] == "";
    }
  }

  lemma Array()
    ensures PrintInstances(3, Parts(), 2) == "      2,\n      -3"
  {
    Indents();
    Values();
    var p := Parts();
    assert NextInstance(p, N, 4) == 4 && NextInstance(p, N, 3) == 3;
    assert PrintInstances(3, p, 3) == "      -3";
  }

  lemma TermEntries()
    ensures PrintEntry(2, "", Parts(), 0) == "\"a\": 1" && PrintEntry(2, "", Parts(), 1) == "\"s\": \"x\""
  {
    hide PrintInstances, PrintValue, Indent;
    Values();
  }

  lemma ArrayEntry()
    ensures PrintEntry(2, "", Parts(), 2) == "\"n\": [\n      2,\n      -3\n    ]"
  {
    hide PrintInstances, PrintValue, Indent;
    Indents();
    var lines := PrintInstances(3, Parts(), 2);
    assert PrintEntry(2, "", Parts(), 2) == "\"n\":" + (" [\n" + lines + ("\n" + "    " + "]")) by {
      assert Parts()[2].schema == N && HasContent(Parts()[2]);
    }
    ArrayText(lines);
  }

  lemma ArrayText(lines: string)
    requires lines == PrintInstances(3, Parts(), 2)
    ensures "\"n\":" + (" [\n" + lines + ("\n" + "    " + "]")) == "\"n\": [\n      2,\n      -3\n    ]"
  {
    hide PrintInstances;
    Array();
  }

  lemma Skipped()
    ensures !IsSkipped(Parts(), 0) && !IsSkipped(Parts(), 1) && !IsSkipped(Parts(), 2) && IsSkipped(Parts(), 3)
  {
    var p := Parts();
    assert p[0].schema == A && p[1].schema == S && p[2].schema == N && p[3].schema == N;
    assert A.name != N.name && S.name != N.name;
    assert !IsMulti(A) && !IsMulti(S) && HasEarlier(p, 3);
  }

  function EntryText(i: nat): string {
    if i == 0 then "\"a\": 1" else if i == 1 then "\"s\": \"x\"" else "\"n\": [\n      2,\n      -3\n    ]"
  }

  function MembersText(): string {
    "    " + EntryText(0) + (",\n" + ("    " + EntryText(1) + (",\n" + ("    " + EntryText(2) + "\n"))))
  }

  lemma Members()
    ensures PrintNodes(2, "", Parts()) == MembersText()
  {
    hide PrintEntry, IsSkipped, Indent, EntryText;
    Indents();
    Texts();
    Skipped();
    var p := Parts();
    assert PrintRest(2, "", p, 4) == "\n";
    assert PrintRest(2, "", p, 3) == "\n";
  }

  lemma Texts()
    ensures forall i :: 0 <= i < 3 ==> PrintEntry(2, "", Parts(), i) == EntryText(i)
  {
    hide PrintEntry;
    TermEntries();
    ArrayEntry();
  }

  lemma OnlyEntry()
    ensures PrintEntry(1, "m:", Small(), 0) == "\"" + "m:" + "c" + "\":" + (" {\n" + MembersText() + ("  " + "}"))
    ensures PrintRest(1, "m:", Small(), 1) == "\n"
  {
    hide Indent, PrintNodes, MembersText;
    Indents();
    Members();
  }

  lemma SmallNodes()
    ensures PrintNodes(1, "m:", Small()) == "  " + ("\"" + "m:" + "c" + "\":" + (" {\n" + MembersText() + ("  " + "}"))) + "\n"
  {
    hide Indent, PrintEntry, PrintRest, MembersText;
    Indents();
    OnlyEntry();
    assert Small() != [];
  }

  /** The printed text, line by line; `MembersText` has the lines of the four members. */
  lemma PrintedText()
    ensures PrintDocument("m", Small()) == "{\n" + ("  " + ("\"" + "m:" + "c" + "\":" + (" {\n" + MembersText() + ("  " + "}"))) + "\n") + "}\n"
  {
    hide Indent, PrintEntry, PrintRest, MembersText, PrintNodes;
    SmallNodes();
    assert "m" + ":" == "m:";
  }

  // ----- without white space -----------------------------------------------------------------

  function Compact(mod: string, c: string, a: string, v: string): string {
    "{\"" + mod + ":" + c + "\":{\"" + a + "\":" + v + "}}"
  }

  function OneLeaf(c: Schema, a: Schema, v: string): seq<Tree> {
    [Inner(c, [Term(a, Some(v), Bare)])]
  }

  /** A number or boolean directly in front of a brace is read: `{"m:c":{"a":1}}`, for all names and values. */
  lemma CompactIsRead(ctx: Context, mod: string, c: Schema, a: Schema, v: string)
    requires IsName(mod) && mod in ctx.modules && AreValid(ctx, ctx.modules[mod], OneLeaf(c, a, v)) && IsReadableText(v)
    requires c.kind.Container? && a.kind.Leaf?
    ensures ParseDocument(ctx, Compact(mod, c.name, a.name, v)) == Document(OneLeaf(c, a, v), 0)
  {
    hide IsReadableText, ParseDocument, PrintDocument, IsName, AreValid, Compact, DocumentTokens, Lay;
    var roots := OneLeaf(c, a, v);
    CompactTokens(mod, c, a, v);
    CompactLaid(mod, c.name, a.name, v);
    CompactText(mod, c.name, a.name, v);
    SpacingDecidesNothing(ctx, mod, roots, NoGaps(Pieces(mod, c.name, a.name, v)), "");
    OneLeafSurvives(c, a, v);
    PrintThenParseIdentity(ctx, mod, roots);
  }

  lemma OneLeafSurvives(c: Schema, a: Schema, v: string)
    requires c.kind.Container? && a.kind.Leaf? && IsReadableText(v)
    ensures var roots := OneLeaf(c, a, v);
            AreReadable(roots) && AreGrouped(roots) && HasSingleLists(roots) && |roots| == 1 && roots[0].schema == c
  {
    hide IsReadableText;
    var leaf := OneLeaf(c, a, v)[0].children;
    assert leaf[0].schema == a && IsReadable(leaf[0]) && IsGrouped(leaf[0]) && IsReadableHere(leaf, 0);
    assert OneLeaf(c, a, v)[0].schema == c && IsReadable(OneLeaf(c, a, v)[0]);
  }

  lemma LeafTokens(c: Schema, a: Schema, v: string)
    requires c.kind.Container? && a.kind.Leaf?
    ensures ContentTokens(OneLeaf(c, a, v), 0) == ["{", "\"" + ("" + a.name) + "\"", ":", v, "}"]
  {
    var roots := OneLeaf(c, a, v);
    var leaf := roots[0].children;
    assert leaf[0].schema == a && InstanceTokens(leaf[0]) == [v];
    assert ContentTokens(leaf, 0) == [v] && RestTokens("", leaf, 1) == [];
    assert EntryTokens("", leaf, 0) == ["\"" + ("" + a.name) + "\"", ":", v];
    assert NodesTokens("", leaf) == ["\"" + ("" + a.name) + "\"", ":", v];
    assert InstanceTokens(roots[0]) == ["{", "\"" + ("" + a.name) + "\"", ":", v, "}"];
    assert roots[0].schema == c;
  }

  lemma CompactTokens(mod: string, c: Schema, a: Schema, v: string)
    requires c.kind.Container? && a.kind.Leaf?
    ensures DocumentTokens(mod, OneLeaf(c, a, v)) == Pieces(mod, c.name, a.name, v)
  {
    hide ContentTokens;
    var roots := OneLeaf(c, a, v);
    LeafTokens(c, a, v);
    assert RestTokens(mod + ":", roots, 1) == [];
    var entry := ["\"" + (mod + ":" + c.name) + "\"", ":"] + ContentTokens(roots, 0);
    assert roots[0].schema == c;
    assert EntryTokens(mod + ":", roots, 0) == entry;
    assert NodesTokens(mod + ":", roots) == entry;
    assert DocumentTokens(mod, roots) == ["{"] + entry + ["}"];
    assert ["{"] + entry + ["}"] == Pieces(mod, c.name, a.name, v);
  }

  function Pieces(mod: string, c: string, a: string, v: string): seq<string> {
    ["{", "\"" + (mod + ":" + c) + "\"", ":", "{", "\"" + ("" + a) + "\"", ":", v, "}", "}"]
  }

  function NoGaps(tokens: seq<string>): (gaps: seq<string>)
    ensures |gaps| == |tokens| && forall i :: 0 <= i < |gaps| ==> gaps[i] == ""
  {
    seq(|tokens|, _ => "")
  }

  lemma LaidOne(token: string, tokens: seq<string>)
    ensures Lay([token] + tokens, NoGaps([token] + tokens), "") == token + Lay(tokens, NoGaps(tokens), "")
  {
    var all := [token] + tokens;
    assert all[0] == token && all[1..] == tokens && NoGaps(all)[1..] == NoGaps(tokens);
    assert Lay(all, NoGaps(all), "") == "" + (token + Lay(tokens, NoGaps(tokens), ""));
  }

  lemma CompactLaid(mod: string, c: string, a: string, v: string)
    ensures var tokens := Pieces(mod, c, a, v);
            Lay(tokens, NoGaps(tokens), "")
            == "{" + ("\"" + (mod + ":" + c) + "\"" + (":" + ("{" + ("\"" + ("" + a) + "\"" + (":" + (v + ("}" + "}")))))))
  {
    hide Lay, NoGaps;
    EmptyLaid();
    LastBrace();
    var key, name := "\"" + (mod + ":" + c) + "\"", "\"" + ("" + a) + "\"";
    var s0: seq<string> := [];
    var s1, s2, s3, s4, s5 := ["}"], ["}", "}"], [v, "}", "}"], [":", v, "}", "}"], [name, ":", v, "}", "}"];
    var s6 := ["{", name, ":", v, "}", "}"];
    var s7 := [":", "{", name, ":", v, "}", "}"];
    var s8 := [key, ":", "{", name, ":", v, "}", "}"];
    LaidOne("}", s0);
    LaidStep("}", s1, s2);
    LaidStep(v, s2, s3);
    LaidStep(":", s3, s4);
    LaidStep(name, s4, s5);
    LaidStep("{", s5, s6);
    LaidStep(":", s6, s7);
    LaidStep(key, s7, s8);
    LaidStep("{", s8, Pieces(mod, c, a, v));
    assert ["}"] + s0 == s1;
  }

  lemma CompactText(mod: string, c: string, a: string, v: string)
    ensures Compact(mod, c, a, v)
         == "{" + ("\"" + (mod + ":" + c) + "\"" + (":" + ("{" + ("\"" + ("" + a) + "\"" + (":" + (v + ("}" + "}")))))))
  {
    assert "}" + "}" == "}}" && "" + a == a;
    var tail := ":" + (v + "}}");
    assert "\"" + tail == "\":" + (v + "}}");
    var back := "{" + ("\"" + a + "\"" + tail);
    assert back == "{\"" + a + "\":" + v + "}}";
    assert "{" + "\"" == "{\"";
    assert "\"" + (":" + back) == "\":{\"" + a + "\":" + v + "}}";
  }

  lemma LaidStep(token: string, tokens: seq<string>, all: seq<string>)
    requires all == [token] + tokens
    ensures Lay(all, NoGaps(all), "") == token + Lay(tokens, NoGaps(tokens), "")
  {
    LaidOne(token, tokens);
  }

  lemma EmptyLaid()
    ensures Lay([], NoGaps([]), "") == ""
  {
  }

  lemma LastBrace()
    ensures "}" + "" == "}"
  {
  }
}

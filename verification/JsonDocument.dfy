/** The printer and the parser together, on linked data trees. */
module JsonDocument {
  import opened JsonText
  import T = JsonTree
  import opened JsonNodes
  import opened JsonRoundTrip
  import opened JsonGrouping
  import opened JsonTopLevel
  import JsonPrinter
  import JsonParser

  lemma {:induction false} ValidIsPlain(ctx: T.Context, t: T.Tree)
    requires IsValid(ctx, t)
    ensures JsonPrinter.IsPlainTree(t)
    decreases t
  {
    if t.Inner? {
      forall i | 0 <= i < |t.children| ensures JsonPrinter.IsPlainTree(t.children[i]) {
        ValidIsPlain(ctx, t.children[i]);
      }
    }
  }

  /** Printing linked top-level nodes and parsing the text. A readable document without repeated top-level
      lists is built again, with the instances of each list and leaf-list moved together; the node returned
      is the last one of the first member. */
  method PrintAndParse(ctx: T.Context, mod: string, root: Node?, ghost ks: seq<Node>, ghost ts: seq<T.Tree>)
    returns (copy: Node?, undefined: bool, ghost cs: seq<Node>)
    requires IsName(mod) && mod in ctx.modules
    requires Forest(ks, null) && root == First(ks) && ts == Trees(ks) && AreValid(ctx, ctx.modules[mod], ts)
    ensures ts != [] && AreReadable(ts) && HasSingleLists(ts) ==>
              && !undefined && Forest(cs, null) && |cs| == |T.GroupFrom(ts, 0)| && Trees(cs) == T.GroupFrom(ts, 0)
              && RootIndex(ts) < |cs| && copy == cs[RootIndex(ts)]
    ensures ts != [] && AreReadable(ts) && !HasSingleLists(ts) ==> undefined
    ensures (ts == [] || !AreReadable(ts)) && !undefined ==> copy == null
    ensures HasSingleLists(ts) ==> !undefined
  {
    hide T.ParseDocument, T.PrintDocument, AreReadable, HasSingleLists, RootIndex;
    forall i | 0 <= i < |ts| ensures JsonPrinter.IsPlainTree(ts[i]) {
      ValidIsPlain(ctx, ts[i]);
    }
    var out := new Output();
    JsonPrinter.PrintDocument(out, mod, root, ks, ts);
    PrintThenParse(ctx, mod, ts);
    assert out.text == T.PrintDocument(mod, ts);
    copy, undefined, cs := JsonParser.ParseDocument(ctx, out.text);
  }
}

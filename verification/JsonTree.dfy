/** Data trees and the JSON texts of src/printer_json.c and src/parser_json.c, as functions: the
    specification of the two programs in JsonPrinter and JsonParser. */
module JsonTree {
  import opened CStrings
  import opened JsonText

  // ----- schema and data ---------------------------------------------------------------------

  datatype Kind = Container | List | Leaf | LeafList

  /** A schema node; `children` are the data nodes lys_getnext enumerates below it. */
  datatype Schema = Schema(name: string, kind: Kind, children: seq<Schema>)

  /** The three ways json_print_leaf writes a value, chosen by the leaf's value type. */
  datatype Printed = Quoted | Bare | Empty

  datatype Tree =
    | Inner(schema: Schema, children: seq<Tree>)
    | Term(schema: Schema, value: Option<string>, printed: Printed)

  /** The top-level data nodes of the loaded modules, and value parsing: the type a leaf's value
      resolves to, or None when lyp_parse_value refuses it. */
  datatype Context = Context(modules: map<string, seq<Schema>>, types: (Schema, Option<string>) -> Option<Printed>)

  predicate IsMulti(s: Schema) {
    s.kind.List? || s.kind.LeafList?
  }

  // ----- grouping ----------------------------------------------------------------------------

  /** The printer's backward walk: an earlier sibling has the same schema node. */
  predicate HasEarlier(nodes: seq<Tree>, i: nat)
    requires i < |nodes|
  {
    exists k :: 0 <= k < i && nodes[k].schema == nodes[i].schema
  }

  predicate IsSkipped(nodes: seq<Tree>, i: nat)
    requires i < |nodes|
  {
    IsMulti(nodes[i].schema) && HasEarlier(nodes, i)
  }

  /** The first sibling at or after `j` with this schema node. */
  function NextInstance(nodes: seq<Tree>, schema: Schema, j: nat): (k: nat)
    requires j <= |nodes|
    ensures j <= k <= |nodes|
    ensures k < |nodes| ==> nodes[k].schema == schema
    ensures forall m :: j <= m < k ==> nodes[m].schema != schema
    decreases |nodes| - j
  {
    if j == |nodes| || nodes[j].schema == schema then j else NextInstance(nodes, schema, j + 1)
  }

  /** A tree with the siblings of every list and leaf-list moved behind their first instance. */
  function GroupTree(t: Tree): (g: Tree)
    ensures g.schema == t.schema
    decreases t
  {
    if t.Term? then t else Inner(t.schema, GroupFrom(t.children, 0))
  }

  function GroupFrom(nodes: seq<Tree>, i: nat): seq<Tree>
    requires i <= |nodes|
    decreases nodes, 2, |nodes| - i
  {
    if i == |nodes| then []
    else if IsSkipped(nodes, i) then GroupFrom(nodes, i + 1)
    else GroupEntry(nodes, i) + GroupFrom(nodes, i + 1)
  }

  function GroupEntry(nodes: seq<Tree>, i: nat): seq<Tree>
    requires i < |nodes|
    decreases nodes, 1, 0
  {
    if IsMulti(nodes[i].schema) then GroupInstances(nodes, i) else [GroupTree(nodes[i])]
  }

  function GroupInstances(nodes: seq<Tree>, j: nat): seq<Tree>
    requires j < |nodes|
    decreases nodes, 0, |nodes| - j
  {
    var k := NextInstance(nodes, nodes[j].schema, j + 1);
    [GroupTree(nodes[j])] + if k < |nodes| then GroupInstances(nodes, k) else []
  }

  // ----- printing ----------------------------------------------------------------------------

  function Blanks(n: nat): (s: string)
    ensures |s| == n && forall i :: 0 <= i < n ==> s[i] == ' '
  {
    seq(n, _ => ' ')
  }

  function Indent(level: nat): string {
    Blanks(2 * level)
  }

  function Key(prefix: string, s: Schema): string {
    "\"" + prefix + s.name + "\":"
  }

  function PrintValue(t: Tree): string
    requires t.Term?
  {
    match t.printed
    case Quoted => "\"" + Escape(if t.value.Some? then t.value.value else "") + "\""
    case Bare => if t.value.Some? then t.value.value else "null"
    case Empty => "[null]"
  }

  /** The test `list->child`, which on a leaf-list instance reads its value pointer. */
  predicate HasContent(t: Tree) {
    if t.Inner? then t.children != [] else t.value.Some?
  }

  /** All siblings from the first on, as json_print_nodes writes them. */
  function PrintNodes(level: nat, prefix: string, nodes: seq<Tree>): string
    decreases nodes, 3, 0
  {
    if nodes == [] then "\n"
    else Indent(level) + PrintEntry(level, prefix, nodes, 0) + PrintRest(level, prefix, nodes, 1)
  }

  function PrintRest(level: nat, prefix: string, nodes: seq<Tree>, i: nat): string
    requires 0 < i <= |nodes|
    decreases nodes, 2, |nodes| - i
  {
    if i == |nodes| then "\n"
    else if IsSkipped(nodes, i) then PrintRest(level, prefix, nodes, i + 1)
    else ",\n" + (Indent(level) + PrintEntry(level, prefix, nodes, i) + PrintRest(level, prefix, nodes, i + 1))
  }

  /** One member of an object, without its indentation. */
  function PrintEntry(level: nat, prefix: string, nodes: seq<Tree>, i: nat): string
    requires i < |nodes|
    decreases nodes, 1, 0
  {
    var t := nodes[i];
    Key(prefix, t.schema) +
    if IsMulti(t.schema) then
      if HasContent(t) then " [\n" + PrintInstances(level + 1, nodes, i) + ("\n" + Indent(level) + "]") else " null"
    else if t.Inner? then
      " {\n" + PrintNodes(level + 1, "", t.children) + (Indent(level) + "}")
    else
      " " + PrintValue(t)
  }

  function PrintInstances(level: nat, nodes: seq<Tree>, j: nat): string
    requires j < |nodes|
    decreases nodes, 0, |nodes| - j
  {
    var k := NextInstance(nodes, nodes[j].schema, j + 1);
    Indent(level) + PrintInstance(level, nodes[j]) +
    if k < |nodes| then ",\n" + PrintInstances(level, nodes, k) else ""
  }

  function PrintInstance(level: nat, t: Tree): string
    decreases t
  {
    if t.Inner? then "{\n" + PrintNodes(level + 1, "", t.children) + (Indent(level) + "}") else PrintValue(t)
  }

  function PrintDocument(mod: string, roots: seq<Tree>): string {
    "{\n" + PrintNodes(1, mod + ":", roots) + "}\n"
  }

  // ----- parsing -----------------------------------------------------------------------------

  /** The outcome of reading from the front of a text: what was read, and the text behind it. */
  datatype Read<+T> = Fail | Read(got: T, rest: string)

  predicate IsWs(c: char) {
    c == ' ' || c == '\t' || c == '\n' || c == '\r'
  }

  function SkipWs(s: string): (r: string)
    ensures |r| <= |s|
    ensures r == [] || !IsWs(r[0])
  {
    if s != [] && IsWs(s[0]) then SkipWs(s[1..]) else s
  }

  predicate StartsWith(s: string, c: char) {
    s != [] && s[0] == c
  }

  /** A byte that ends a number or a literal. */
  predicate IsEnd(c: char) {
    c == ',' || c == ']' || c == '}' || IsWs(c)
  }

  /** The loop of lyjson_parse_number; `seen` tells that a digit was read. */
  function NumberLength(s: string, seen: bool): (n: Option<nat>)
    ensures n.Some? ==> n.value <= |s|
  {
    if s == [] || IsEnd(s[0]) then Some(0)
    else if s[0] == '0' && !seen && |s| > 1 && IsDigit(s[1]) then None
    else if IsDigit(s[0]) || s[0] == '-' then
      var n := NumberLength(s[1..], seen || s[0] != '-');
      if n.Some? then Some(n.value + 1) else None
    else None
  }

  function BooleanLength(s: string): (n: nat)
    ensures n <= |s|
  {
    var n := if "false" <= s then 5 else if "true" <= s then 4 else 0;
    if n < |s| && !IsEnd(s[n]) then 0 else n
  }

  function ParseScalar(s: string): (r: Read<Option<string>>)
    ensures r.Read? ==> |r.rest| < |s|
  {
    if s == [] then Fail
    else if s[0] == '"' then
      var b := Unescape(s[1..]);
      if b.Body? && b.used < |s| - 1 then Read(Some(CStr(b.text)), s[b.used + 2..]) else Fail
    else if s[0] == '-' || IsDigit(s[0]) then
      var n := NumberLength(s, false);
      if n.Some? && n.value > 0 then Read(Some(s[..n.value]), s[n.value..]) else Fail
    else if s[0] == 'f' || s[0] == 't' then
      var n := BooleanLength(s);
      if n > 0 then Read(Some(s[..n]), s[n..]) else Fail
    else if "[null]" <= s then Read(None, s[6..])
    else Fail
  }

  function ParseValue(ctx: Context, schema: Schema, s: string): (r: Read<Tree>)
    ensures r.Read? ==> |r.rest| < |s|
  {
    var v := ParseScalar(s);
    if v.Fail? then Fail
    else
      var printed := ctx.types(schema, v.got);
      if printed.None? then Fail else Read(Term(schema, v.got, printed.value), v.rest)
  }

  /** The values of a leaf-list, entered behind the begin-array or a value separator. */
  function ParseValues(ctx: Context, schema: Schema, s: string): (r: Read<seq<Tree>>)
    ensures r.Read? ==> |r.rest| < |s| && r.got != []
    decreases |s|
  {
    var v := ParseValue(ctx, schema, SkipWs(s));
    if v.Fail? then Fail
    else
      var s' := SkipWs(v.rest);
      if StartsWith(s', ',') then
        var more := ParseValues(ctx, schema, s'[1..]);
        if more.Fail? then Fail else Read([v.got] + more.got, more.rest)
      else if StartsWith(s', ']') then Read([v.got], SkipWs(s'[1..]))
      else Fail
  }

  /** Where a member's schema node is looked up: among a module's data, or below a parent node. */
  datatype Scope = Top | Below(children: seq<Schema>)

  function FindByName(schemas: seq<Schema>, name: string): (r: Option<Schema>)
    ensures r.Some? ==> r.value in schemas && r.value.name == name
  {
    if schemas == [] then None
    else if schemas[0].name == name then Some(schemas[0])
    else FindByName(schemas[1..], name)
  }

  function FindSchema(ctx: Context, scope: Scope, id: string): Option<Schema> {
    var n := ColonIndex(id);
    if n == |id| then
      if scope.Top? then None else FindByName(scope.children, id)
    else if id[..n] !in ctx.modules then None
    else FindByName(if scope.Top? then ctx.modules[id[..n]] else scope.children, id[n + 1..])
  }

  /** The node identifier and the name separator of a member. */
  function ParseKey(s: string): (r: Read<string>)
    ensures r.Read? ==> |r.rest| < |s|
  {
    if !StartsWith(s, '"') then Fail
    else
      var b := Unescape(s[1..]);
      if b.BadBody? || b.used == 0 || b.used >= |s| - 1 then Fail
      else
        var s' := SkipWs(s[b.used + 2..]);
        if StartsWith(s', ':') then Read(CStr(b.text), SkipWs(s'[1..])) else Fail
  }

  /** One member of an object: the nodes it adds to the parent, and the text behind it. */
  function ParseData(ctx: Context, scope: Scope, s: string): (r: Read<seq<Tree>>)
    ensures r.Read? ==> |r.rest| < |s|
    decreases |s|, 0
  {
    var key := ParseKey(s);
    if key.Fail? || StartsWith(key.got, '@') then Fail
    else
      var schema := FindSchema(ctx, scope, key.got);
      if schema.None? then Fail else ParseContent(ctx, schema.value, key.rest)
  }

  function ParseContent(ctx: Context, schema: Schema, s: string): (r: Read<seq<Tree>>)
    ensures r.Read? ==> |r.rest| < |s| && r.got != []
    decreases |s|, 2
  {
    match schema.kind
    case Leaf =>
      var v := ParseValue(ctx, schema, s);
      if v.Fail? then Fail else Read([v.got], SkipWs(v.rest))
    case LeafList =>
      if StartsWith(s, '[') then ParseValues(ctx, schema, s[1..]) else Fail
    case Container =>
      if !StartsWith(s, '{') then Fail
      else
        var c := if StartsWith(SkipWs(s[1..]), '}') then Read([], SkipWs(s[1..]))
                 else ParseMembers(ctx, Below(schema.children), s[1..]);
        if c.Read? && StartsWith(c.rest, '}') then Read([Inner(schema, c.got)], SkipWs(c.rest[1..])) else Fail
    case List =>
      if !StartsWith(s, '[') then Fail
      else
        var c := ParseInstances(ctx, schema, s[1..]);
        if c.Read? && StartsWith(c.rest, ']') then Read(c.got, SkipWs(c.rest[1..])) else Fail
  }

  /** The members of an object, entered behind the begin-object or a value separator. */
  function ParseMembers(ctx: Context, scope: Scope, s: string): (r: Read<seq<Tree>>)
    ensures r.Read? ==> |r.rest| < |s|
    decreases |s|, 1
  {
    var d := ParseData(ctx, scope, SkipWs(s));
    if d.Fail? then Fail
    else if StartsWith(d.rest, ',') then
      var more := ParseMembers(ctx, scope, d.rest[1..]);
      if more.Fail? then Fail else Read(d.got + more.got, more.rest)
    else Read(d.got, d.rest)
  }

  /** One list instance in its braces. */
  function ParseInstance(ctx: Context, schema: Schema, s: string): (r: Read<Tree>)
    ensures r.Read? ==> |r.rest| < |s|
    decreases |s|, 0
  {
    if !StartsWith(SkipWs(s), '{') then Fail
    else
      var c := ParseMembers(ctx, Below(schema.children), SkipWs(s)[1..]);
      if c.Read? && StartsWith(c.rest, '}') then Read(Inner(schema, c.got), SkipWs(c.rest[1..])) else Fail
  }

  /** The instances of a list, entered behind the begin-array or a value separator. */
  function ParseInstances(ctx: Context, schema: Schema, s: string): (r: Read<seq<Tree>>)
    ensures r.Read? ==> |r.rest| < |s| && r.got != []
    decreases |s|, 1
  {
    var c := ParseInstance(ctx, schema, s);
    if c.Fail? then Fail
    else if StartsWith(c.rest, ',') then
      var more := ParseInstances(ctx, schema, c.rest[1..]);
      if more.Fail? then Fail else Read([c.got] + more.got, more.rest)
    else Read([c.got], c.rest)
  }

  // ----- top-level members -------------------------------------------------------------------

  /** The outcome of reading top-level members: `first` of the nodes come from the first member. Broken is
      where the code stops keeping its sibling list: it follows a null pointer or loses the last node. */
  datatype TopRead = Refused | Broken | Accepted(got: seq<Tree>, first: nat, rest: string)

  /** A top-level member behind its key. Another instance of a list cannot be linked without a parent. */
  function ParseTopContent(ctx: Context, schema: Schema, s: string): (r: TopRead)
    ensures r.Accepted? ==> |r.rest| < |s| && r.first == |r.got| > 0
  {
    if schema.kind.List? then
      if !StartsWith(s, '[') then Refused
      else
        var c := ParseInstance(ctx, schema, s[1..]);
        if c.Fail? then Refused
        else if StartsWith(c.rest, ',') then Broken
        else if StartsWith(c.rest, ']') then Accepted([c.got], 1, SkipWs(c.rest[1..]))
        else Refused
    else
      var c := ParseContent(ctx, schema, s);
      if c.Fail? then Refused else Accepted(c.got, |c.got|, c.rest)
  }

  /** Other members than lists are read as below a parent. */
  lemma TopContentBelow(ctx: Context, schema: Schema, s: string)
    requires !schema.kind.List?
    ensures var c := ParseContent(ctx, schema, s);
            ParseTopContent(ctx, schema, s) == if c.Fail? then Refused else Accepted(c.got, |c.got|, c.rest)
  {
    hide ParseContent;
  }

  function ParseTopData(ctx: Context, s: string): (r: TopRead)
    ensures r.Accepted? ==> |r.rest| < |s| && r.first == |r.got| > 0
  {
    var key := ParseKey(s);
    if key.Fail? || StartsWith(key.got, '@') then Refused
    else
      var schema := FindSchema(ctx, Top, key.got);
      if schema.None? then Refused else ParseTopContent(ctx, schema.value, key.rest)
  }

  /** The top-level members, entered behind the begin-object or a value separator. */
  function ParseTopMembers(ctx: Context, s: string): (r: TopRead)
    ensures r.Accepted? ==> |r.rest| < |s| && 0 < r.first <= |r.got|
    decreases |s|
  {
    var d := ParseTopData(ctx, SkipWs(s));
    if !d.Accepted? || !StartsWith(d.rest, ',') then d
    else
      var more := ParseTopMembers(ctx, d.rest[1..]);
      if more.Accepted? then Accepted(d.got + more.got, d.first, more.rest) else more
  }

  /** What lyd_parse_json makes of a text: the top-level nodes, and which of them it returns, the last one
      of the first member. */
  datatype Outcome = Rejected | Undefined | Document(nodes: seq<Tree>, root: nat)

  function ParseDocument(ctx: Context, text: string): (r: Outcome)
    ensures r.Document? ==> r.root < |r.nodes|
  {
    var s := SkipWs(text);
    if !StartsWith(s, '{') then Rejected
    else
      var c := ParseTopMembers(ctx, s[1..]);
      if c.Broken? then Undefined
      else if c.Accepted? && StartsWith(c.rest, '}') then Document(c.got, c.first - 1)
      else Rejected
  }
}

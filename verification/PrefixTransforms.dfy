/** The rewriting loops of src/common.c: buffers that are grown and filled with exact size accounting. */
module PrefixTransforms {
  import opened CStrings
  import opened Prefixes

  /** No colon starts the expression or follows another colon; the backward search would leave the
      string. */
  predicate HasNoBareColon(expr: string) {
    forall i :: 0 <= i < |expr| && expr[i] == ':' ==> i > 0 && expr[i - 1] != ':'
  }

  // ----- searching ---------------------------------------------------------------------------

  /** strchr(&expr[from], ':'), or the end of the string. */
  method FindColon(expr: string, from: nat) returns (col: nat)
    requires from <= |expr|
    ensures col == from + ColonIndex(expr[from..]) && col <= |expr|
  {
    col := from;
    while col < |expr| && expr[col] != ':'
      invariant from <= col <= |expr|
      invariant from + ColonIndex(expr[from..]) == col + ColonIndex(expr[col..])
    {
      assert expr[col..][1..] == expr[col + 1..];
      col := col + 1;
    }
  }

  /** strpbrk_backwards from position `at` over at most `len` characters. */
  method StrpbrkBackwards(s: string, at: nat, len: nat) returns (pos: nat)
    requires len <= at < |s|
    ensures at - len <= pos <= at
    ensures forall k :: pos < k <= at ==> !IsDelimiter(s[k])
    ensures pos > at - len ==> IsDelimiter(s[pos])
  {
    pos := at;
    var left := len;
    while left > 0
      invariant pos - left == at - len && pos <= at
      invariant forall k :: pos < k <= at ==> !IsDelimiter(s[k])
    {
      if IsDelimiter(s[pos]) {
        return;
      }
      pos, left := pos - 1, left - 1;
    }
  }

  /** The start of the identifier in front of the colon at `col`. */
  method FindId(expr: string, from: nat, col: nat) returns (id: nat)
    requires from < col < |expr| && col == from + ColonIndex(expr[from..])
    ensures id == from + IdStart(expr[from..][..col - from]) && from <= id <= col
    ensures ':' !in expr[id..col] && expr[col] == ':'
  {
    id := StrpbrkBackwards(expr, col - 1, col - from - 1);
    if IsDelimiter(expr[id]) {
      id := id + 1;
    }
    var s := expr[from..][..col - from];
    assert forall k :: 0 <= k < |s| ==> s[k] == expr[from + k];
    IdStartUnique(s, id - from);
    assert forall k :: id <= k < col ==> expr[k] == expr[from..][k - from] != ':';
  }

  lemma {:induction false} IdStartUnique(s: string, i: nat)
    requires i <= |s| && (i > 0 ==> IsDelimiter(s[i - 1]))
    requires forall k :: i <= k < |s| ==> !IsDelimiter(s[k])
    ensures IdStart(s) == i
  {
    var j := IdStart(s);
    var a, b := if i > 0 then s[i - 1] else '/', if j > 0 then s[j - 1] else '/';
    assert IsDelimiter(a) && IsDelimiter(b);
  }

  // ----- the buffer --------------------------------------------------------------------------

  /** ly_realloc. */
  method Realloc(buf: array<char>, size: nat) returns (bigger: array<char>)
    ensures fresh(bigger) && bigger.Length == size
    ensures forall k :: 0 <= k < size && k < buf.Length ==> bigger[k] == buf[k]
  {
    bigger := new char[size];
    var k := 0;
    while k < size && k < buf.Length
      invariant k <= size && k <= buf.Length
      invariant forall l :: 0 <= l < k ==> bigger[l] == buf[l]
    {
      bigger[k] := buf[k];
      k := k + 1;
    }
  }

  /** strncpy(&buf[at], s, |s|): `used` bytes were filled before. */
  method Put(buf: array<char>, at: nat, s: string)
    requires at + |s| <= buf.Length
    modifies buf
    ensures buf[..at + |s|] == old(buf[..at]) + s
  {
    var k := 0;
    while k < |s|
      invariant k <= |s|
      invariant buf[..at + k] == old(buf[..at]) + s[..k]
    {
      buf[at + k] := s[k];
      k := k + 1;
    }
  }

  /** The buffer of a rewriting loop: `used` bytes are written, and the size leaves room for exactly
      the rest of the expression and the terminator. */
  ghost predicate HasRoom(out: array<char>, size: nat, used: nat, expr: string, from: nat) {
    from <= |expr| && out.Length == size && used + (|expr| - from) + 1 == size
  }

  /** Text up to the identifier, its replacement, and the colon. */
  method Append(out: array<char>, size: nat, used: nat, expr: string, from: nat, id: nat, col: nat, r: string)
    returns (out': array<char>, size': nat, used': nat)
    requires HasRoom(out, size, used, expr, from) && from <= id <= col < |expr|
    ensures fresh(out') && HasRoom(out', size', used', expr, col + 1)
    ensures out'[..used'] == out[..used] + (expr[from..id] + r + ":")
  {
    size' := size + |r| - (col - id);
    out' := Realloc(out, size');
    used' := used;
    assert out'[..used'] == out[..used];
    Put(out', used', expr[from..id]);
    used' := used' + (id - from);
    Put(out', used', r);
    used' := used' + |r|;
    Put(out', used', ":");
    used' := used' + 1;
  }

  /** The remaining part and the terminator; the size accounting comes out even. */
  method Finish(out: array<char>, size: nat, used: nat, expr: string, from: nat) returns (text: string)
    requires HasRoom(out, size, used, expr, from)
    modifies out
    ensures text == old(out[..used]) + expr[from..]
  {
    Put(out, used, expr[from..]);
    var used' := used + (|expr| - from) + 1;
    out[used' - 1] := NUL;
    assert size == used';
    text := out[..used' - 1];
  }

  function Prepend(done: string, rest: Option<string>): Option<string> {
    if rest.None? then None else Some(done + rest.value)
  }

  /** One turn of a rewriting loop. */
  lemma RewriteStep(expr: string, from: nat, id: nat, col: nat, done: string, f: string -> Option<string>)
    requires from < col < |expr| && col == from + ColonIndex(expr[from..])
    requires id == from + IdStart(expr[from..][..col - from])
    ensures f(expr[id..col]).None? ==> Prepend(done, Rewrite(expr[from..], f)).None?
    ensures f(expr[id..col]).Some? ==>
              Prepend(done, Rewrite(expr[from..], f))
              == Prepend(done + (expr[from..id] + f(expr[id..col]).value + ":"), Rewrite(expr[col + 1..], f))
  {
    var s, n := expr[from..], col - from;
    assert s[..n][..id - from] == expr[from..id] && s[..id - from] == expr[from..id];
    assert s[id - from..n] == expr[id..col];
    assert s[n + 1..] == expr[col + 1..];
    if f(expr[id..col]).Some? && Rewrite(expr[col + 1..], f).Some? {
      var piece, rest := expr[from..id] + f(expr[id..col]).value + ":", Rewrite(expr[col + 1..], f).value;
      assert done + (piece + rest) == done + piece + rest;
    }
  }

  lemma NoColonAtStart(expr: string, from: nat)
    requires HasNoBareColon(expr) && from <= |expr| && (from > 0 ==> expr[from - 1] == ':')
    ensures ColonIndex(expr[from..]) > 0 || from == |expr|
  {
    if from < |expr| {
      assert expr[from..][0] == expr[from];
    }
  }

  // ----- lookups -----------------------------------------------------------------------------

  /** parse_identifier at position `at` of the expression. */
  method ParseIdentifier(expr: string, at: nat) returns (n: nat)
    requires at <= |expr|
    ensures n == IdentifierLength(expr[at..])
  {
    var s := expr[at..];
    if |s| >= 3 && (s[0] == 'x' || s[0] == 'X') && (s[1] == 'm' || s[0] == 'M') && (s[2] == 'l' || s[2] == 'L') {
      return 0;
    }
    if s == [] || !(IsAlpha(s[0]) || s[0] == '_') {
      return 0;
    }
    n := 1;
    while n < |s| && IsIdentifierChar(s[n])
      invariant 1 <= n <= |s|
      invariant 1 + IdentifierRun(s[1..]) == n + IdentifierRun(s[n..])
    {
      assert s[n..][1..] == s[n + 1..];
      n := n + 1;
    }
  }

  /** The syntax check of lyp_check_identifier. */
  method CheckIdentifier(id: string) returns (ok: bool)
    ensures ok == IsIdentifier(id)
  {
    if id == [] || (!('A' <= id[0] <= 'Z') && !('a' <= id[0] <= 'z') && id[0] != '_') {
      return false;
    }
    var i := 1;
    while i < |id|
      invariant 1 <= i <= |id| && forall k :: 0 <= k < i ==> IsIdentifierChar(id[k])
    {
      var c := id[i];
      if !('A' <= c <= 'Z') && !('a' <= c <= 'z') && !('0' <= c <= '9') && c != '_' && c != '-' && c != '.' {
        return false;
      }
      i := i + 1;
    }
    ok := true;
  }

  /** Looking beyond the identifier makes no difference: a colon follows it. */
  lemma IdentifierBeforeColon(id: string, rest: string)
    requires ':' !in id
    ensures IdentifierLength(id + ":" + rest) < |id| <==> IdentifierLength(id) < |id|
  {
    var s := id + ":" + rest;
    if id != [] {
      assert s[0] == id[0] && s[1..] == id[1..] + ":" + rest;
      assert |id| > 1 ==> s[1] == id[1];
      assert |id| > 2 ==> s[2] == id[2];
      assert |id| == 1 ==> s[1] == ':';
      assert |id| == 2 ==> s[2] == ':';
      RunBeforeColon(id[1..], rest);
    }
  }

  lemma {:induction false} RunBeforeColon(id: string, rest: string)
    ensures IdentifierRun(id + ":" + rest) == IdentifierRun(id)
  {
    var s := id + ":" + rest;
    if id != [] {
      assert s[0] == id[0] && s[1..] == id[1..] + ":" + rest;
      RunBeforeColon(id[1..], rest);
    } else {
      assert s[0] == ':';
    }
  }

  /** transform_module_name2import_prefix. */
  method ModuleNameToPrefix(m: Module, name: string) returns (prefix: Option<string>)
    ensures prefix == PrefixOf(m, name)
  {
    if m.name == name {
      return Some(m.prefix);
    }
    var i := 0;
    while i < |m.imports|
      invariant i <= |m.imports|
      invariant FirstByName(m.imports, name) == FirstByName(m.imports[i..], name)
    {
      if m.imports[i].name == name {
        return Some(m.imports[i].prefix);
      }
      assert m.imports[i..][1..] == m.imports[i + 1..];
      i := i + 1;
    }
    return None;
  }

  /** lys_get_import_module by prefix. */
  method GetImportModule(m: Module, prefix: string) returns (name: Option<string>)
    ensures name == NameOf(m, prefix)
  {
    if m.prefix == prefix {
      return Some(m.name);
    }
    var i := 0;
    while i < |m.imports|
      invariant i <= |m.imports|
      invariant FirstByPrefix(m.imports, prefix) == FirstByPrefix(m.imports[i..], prefix)
    {
      if m.imports[i].prefix == prefix {
        return Some(m.imports[i].name);
      }
      assert m.imports[i..][1..] == m.imports[i + 1..];
      i := i + 1;
    }
    return None;
  }

  // ----- the loops ---------------------------------------------------------------------------

  /** transform_schema2json. */
  method TransformSchemaToJson(m: Module, expr: string) returns (text: Option<string>)
    requires IsModule(m) && HasNoBareColon(expr)
    ensures text == Rewrite(expr, id => SchemaName(m, id))
  {
    hide Rewrite, ColonIndex, IdStart, IsModule, SchemaName, Prepend;
    ghost var f := id => SchemaName(m, id);
    ghost var done: string := [];
    var from: nat, size: nat, used: nat := 0, |expr| + 1, 0;
    var out := new char[size];
    assert expr[0..] == expr;
    PrependNothing(Rewrite(expr, f));
    while true
      invariant from <= |expr| && HasRoom(out, size, used, expr, from) && fresh(out)
      invariant from > 0 ==> expr[from - 1] == ':'
      invariant out[..used] == done && Rewrite(expr, f) == Prepend(done, Rewrite(expr[from..], f))
      decreases |expr| - from
    {
      NoColonAtStart(expr, from);
      var col := FindColon(expr, from);
      if col == |expr| {
        NothingToRewrite(expr, from, done, f);
        var whole := Finish(out, size, used, expr, from);
        return Some(whole);
      }
      var id := FindId(expr, from, col);
      RewriteStep(expr, from, id, col, done, f);
      var name := SchemaPrefix(m, expr, id, col);
      if name.None? {
        return None;
      }
      out, size, used := Append(out, size, used, expr, from, id, col, name.value);
      done := done + (expr[from..id] + name.value + ":");
      from := col + 1;
    }
  }

  lemma PrependNothing(r: Option<string>)
    ensures Prepend([], r) == r
  {
    if r.Some? {
      assert [] + r.value == r.value;
    }
  }

  lemma NothingToRewrite(expr: string, from: nat, done: string, f: string -> Option<string>)
    requires from <= |expr| && from + ColonIndex(expr[from..]) == |expr|
    ensures Prepend(done, Rewrite(expr[from..], f)) == Some(done + expr[from..])
  {
  }

  /** The resolution step of transform_schema2json; an empty prefix is looked up with the rest of the
      expression, which no prefix equals. */
  method SchemaPrefix(m: Module, expr: string, id: nat, col: nat) returns (name: Option<string>)
    requires IsModule(m) && id <= col < |expr| && expr[col] == ':' && ':' !in expr[id..col]
    ensures name == SchemaName(m, expr[id..col])
  {
    var rc := ParseIdentifier(expr, id);
    assert expr[id..] == expr[id..col] + ":" + expr[col + 1..];
    IdentifierBeforeColon(expr[id..col], expr[col + 1..]);
    if rc < col - id {
      return None;
    }
    name := GetImportModule(m, if id == col then expr[id..] else expr[id..col]);
    if id == col {
      NoSuchPrefix(m, expr[id..]);
      NoSuchPrefix(m, expr[id..col]);
    }
  }

  lemma NoSuchPrefix(m: Module, prefix: string)
    requires IsModule(m) && !IsIdentifier(prefix)
    ensures NameOf(m, prefix).None?
  {
    assert Entries(m)[0] in Entries(m);
    assert forall e :: e in m.imports ==> e in Entries(m);
    NotFound(m.imports, prefix);
  }

  lemma {:induction false} NotFound(imports: seq<Import>, prefix: string)
    requires forall e :: e in imports ==> e.prefix != prefix
    ensures FirstByPrefix(imports, prefix).None?
  {
    if imports != [] {
      assert imports[0] in imports;
      NotFound(imports[1..], prefix);
    }
  }

  /** transform_json2schema. */
  method TransformJsonToSchema(m: Module, expr: string) returns (text: Option<string>)
    requires HasNoBareColon(expr)
    ensures text == Rewrite(expr, id => PrefixOf(m, id))
  {
    hide Rewrite, ColonIndex, IdStart, PrefixOf, Prepend;
    ghost var f := id => PrefixOf(m, id);
    ghost var done: string := [];
    var from: nat, size: nat, used: nat := 0, |expr| + 1, 0;
    var out := new char[size];
    assert expr[0..] == expr;
    PrependNothing(Rewrite(expr, f));
    while true
      invariant from <= |expr| && HasRoom(out, size, used, expr, from) && fresh(out)
      invariant from > 0 ==> expr[from - 1] == ':'
      invariant out[..used] == done && Rewrite(expr, f) == Prepend(done, Rewrite(expr[from..], f))
      decreases |expr| - from
    {
      NoColonAtStart(expr, from);
      var col := FindColon(expr, from);
      if col == |expr| {
        NothingToRewrite(expr, from, done, f);
        var whole := Finish(out, size, used, expr, from);
        return Some(whole);
      }
      var id := FindId(expr, from, col);
      RewriteStep(expr, from, id, col, done, f);
      var prefix := ModuleNameToPrefix(m, expr[id..col]);
      if prefix.None? {
        return None;
      }
      out, size, used := Append(out, size, used, expr, from, id, col, prefix.value);
      done := done + (expr[from..id] + prefix.value + ":");
      from := col + 1;
    }
  }
}

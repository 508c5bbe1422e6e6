/** The positions of a bits type: the bits case of fill_yin_type in src/parser_yin.c. */
module BitNumbering {
  import Prefixes
  import PrefixTransforms

  const UINT32_MAX: nat := 0xffff_ffff

  /** A substatement of a bit: one outside the YIN namespace, a position with the number strtoll reads,
      or anything else. */
  datatype Sub = Garbage | Position(value: int) | Unknown

  /** A bit statement. */
  datatype Decl = Decl(name: string, subs: seq<Sub>)

  /** An entry of the table; `auto` is the flag LYS_AUTOASSIGNED. */
  datatype Bit = Bit(name: string, pos: int, auto: bool)

  // ----- the positions a declaration list means ----------------------------------------------

  /** The position arguments of a bit, in order. */
  function Positions(subs: seq<Sub>): (r: seq<int>)
    ensures forall v :: v in r <==> Position(v) in subs
  {
    if subs == [] then []
    else
      var last := subs[|subs| - 1];
      var rest := Positions(subs[..|subs| - 1]);
      assert subs == subs[..|subs| - 1] + [last];
      if last.Position? then rest + [last.value] else rest
  }

  /** The least number above `p - 1` and all of `vs`. */
  function Above(p: int, vs: seq<int>): (r: int)
    ensures r >= p && forall v :: v in vs ==> v < r
    ensures r == p || (r - 1) in vs
  {
    if vs == [] then p
    else
      var q := Above(p, vs[..|vs| - 1]);
      assert vs == vs[..|vs| - 1] + [vs[|vs| - 1]];
      if vs[|vs| - 1] >= q then vs[|vs| - 1] + 1 else q
  }

  /** One more than the highest position read or assigned in the first `k` bits; 0 where there is none. */
  function Next(decls: seq<Decl>, k: nat): (p: int)
    requires k <= |decls|
    ensures p >= 0
  {
    if k == 0 then 0
    else
      var vs := Positions(decls[k - 1].subs);
      if vs == [] then Next(decls, k - 1) + 1 else Above(Next(decls, k - 1), vs)
  }

  /** The position of bit `k`: its last position argument, or the next free number. */
  function PositionOf(decls: seq<Decl>, k: nat): int
    requires k < |decls|
  {
    var vs := Positions(decls[k].subs);
    if vs == [] then Next(decls, k) else vs[|vs| - 1]
  }

  predicate AreReadable(subs: seq<Sub>) {
    forall s :: s in subs ==> !s.Unknown? && (s.Position? ==> 0 <= s.value <= UINT32_MAX)
  }

  /** Bit `k` can be added behind the bits before it. */
  predicate IsAddable(decls: seq<Decl>, k: nat)
    requires k < |decls|
  {
    && Prefixes.IsIdentifier(decls[k].name)
    && (forall j :: 0 <= j < k ==> decls[j].name != decls[k].name)
    && AreReadable(decls[k].subs)
    && (forall j :: 0 <= j < k ==> PositionOf(decls, j) !in Positions(decls[k].subs))
    && PositionOf(decls, k) <= UINT32_MAX
  }

  /** What the statements of a bits type have to meet. */
  predicate IsNumberable(decls: seq<Decl>) {
    forall k :: 0 <= k < |decls| ==> IsAddable(decls, k)
  }

  /** The number for automatic assignment is above every position read or assigned before, and is 0 or
      one more than one of them. */
  lemma {:induction false} NextIsOneAboveHighest(decls: seq<Decl>, k: nat)
    requires k <= |decls|
    ensures forall j :: 0 <= j < k ==> PositionOf(decls, j) < Next(decls, k)
    ensures forall j, v :: 0 <= j < k && v in Positions(decls[j].subs) ==> v < Next(decls, k)
    ensures Next(decls, k) == 0
            || exists j :: 0 <= j < k && (PositionOf(decls, j) == Next(decls, k) - 1 || Next(decls, k) - 1 in Positions(decls[j].subs))
  {
    hide Positions, Next, PositionOf, Above;
    if k > 0 {
      NextIsOneAboveHighest(decls, k - 1);
      NextStep(decls, k - 1);
    } else {
      NextStart(decls);
    }
  }

  /** The automatic position is one more than the highest position of the bits before, or 0 (section
      9.7.4.2 of RFC 6020), exactly when no bit before was given a position above all that were kept. */
  lemma NextIsAboveTable(decls: seq<Decl>, k: nat)
    requires k <= |decls| && forall j :: 0 <= j < k ==> AreReadable(decls[j].subs)
    ensures forall j :: 0 <= j < k ==> PositionOf(decls, j) < Next(decls, k)
    ensures (Next(decls, k) == 0 || exists j :: 0 <= j < k && PositionOf(decls, j) == Next(decls, k) - 1)
       <==> (forall j, v :: 0 <= j < k && v in Positions(decls[j].subs) ==> exists i :: 0 <= i < k && v <= PositionOf(decls, i))
  {
    hide Positions, Next, Above, PositionOf;
    NextIsOneAboveHighest(decls, k);
    var p := Next(decls, k);
    if p == 0 || exists j :: 0 <= j < k && PositionOf(decls, j) == p - 1 {
      forall j, v | 0 <= j < k && v in Positions(decls[j].subs) ensures exists i :: 0 <= i < k && v <= PositionOf(decls, i) {
        assert Position(v) in decls[j].subs && 0 <= v < p;
        var i :| 0 <= i < k && PositionOf(decls, i) == p - 1;
      }
    } else {
      var j :| 0 <= j < k && p - 1 in Positions(decls[j].subs);
      assert forall i :: 0 <= i < k ==> PositionOf(decls, i) < p - 1;
    }
  }

  /** A bit with two positions can break this: the overwritten one counts as well. */
  lemma OverwrittenPositionCounts(a: string, b: string, v: nat, w: nat)
    requires Prefixes.IsIdentifier(a) && Prefixes.IsIdentifier(b) && a != b && w < v < UINT32_MAX
    ensures var decls := [Decl(a, [Position(v), Position(w)]), Decl(b, [])];
            IsNumberable(decls) && PositionOf(decls, 0) == w && PositionOf(decls, 1) == v + 1
  {
    hide Positions, Above, Next, Prefixes.IsIdentifier;
    var subs := [Position(v), Position(w)];
    var decls := [Decl(a, subs), Decl(b, [])];
    TwoPositions(v, w);
    NextStart(decls);
    NextOne(decls, 0);
    AboveTwo(v, w);
    assert AreReadable(subs);
    assert IsAddable(decls, 0);
    assert IsAddable(decls, 1);
  }

  lemma TwoPositions(v: int, w: int)
    ensures Positions([Position(v), Position(w)]) == [v, w] && Positions([]) == []
  {
    PositionsStep([Position(v), Position(w)], 0);
    PositionsStep([Position(v), Position(w)], 1);
    assert [Position(v), Position(w)][..2] == [Position(v), Position(w)];
    assert [Position(v), Position(w)][..0] == [];
    assert Positions([]) == [];
  }

  lemma AboveTwo(v: int, w: int)
    requires 0 <= w < v
    ensures Above(0, [v, w]) == v + 1
  {
    hide Above;
    AboveAppend(0, [v], w);
    AboveAppend(0, [], v);
    assert [v] + [w] == [v, w] && [] + [v] == [v];
    AboveNothing(0);
  }

  lemma AboveNothing(p: int)
    ensures Above(p, []) == p
  {
  }

  lemma NextStart(decls: seq<Decl>)
    ensures Next(decls, 0) == 0
  {
  }

  lemma NextStep(decls: seq<Decl>, k: nat)
    requires k < |decls|
    ensures PositionOf(decls, k) < Next(decls, k + 1) && Next(decls, k) <= Next(decls, k + 1)
    ensures forall v :: v in Positions(decls[k].subs) ==> v < Next(decls, k + 1)
    ensures Next(decls, k + 1) == Next(decls, k) || PositionOf(decls, k) == Next(decls, k + 1) - 1
            || Next(decls, k + 1) - 1 in Positions(decls[k].subs)
  {
    hide Positions, Above;
    var vs := Positions(decls[k].subs);
    assert vs != [] ==> vs[|vs| - 1] in vs;
  }

  // ----- the table in order ------------------------------------------------------------------

  predicate IsOrdered(t: seq<Bit>) {
    forall i, j :: 0 <= i < j < |t| ==> t[i].pos < t[j].pos
  }

  /** `t` with `b` sunk from its end below the higher positions. */
  function Sunk(t: seq<Bit>, b: Bit): (r: seq<Bit>)
    ensures |r| == |t| + 1
  {
    if t == [] || t[|t| - 1].pos <= b.pos then t + [b] else Sunk(t[..|t| - 1], b) + [t[|t| - 1]]
  }

  lemma {:induction false} SunkPermutes(t: seq<Bit>, b: Bit)
    ensures multiset(Sunk(t, b)) == multiset(t) + multiset{b}
  {
    if t != [] && t[|t| - 1].pos > b.pos {
      SunkPermutes(t[..|t| - 1], b);
      assert t == t[..|t| - 1] + [t[|t| - 1]];
    }
  }

  function BitOf(decls: seq<Decl>, k: nat): Bit
    requires k < |decls|
  {
    Bit(decls[k].name, PositionOf(decls, k), Positions(decls[k].subs) == [])
  }

  /** The bits of the first `k` declarations, in declaration order. */
  function Declared(decls: seq<Decl>, k: nat): (r: seq<Bit>)
    requires k <= |decls| && forall j :: 0 <= j < k ==> IsAddable(decls, j)
    ensures |r| == k
    ensures forall j :: 0 <= j < k ==> r[j] == BitOf(decls, j)
  {
    if k == 0 then [] else Declared(decls, k - 1) + [BitOf(decls, k - 1)]
  }

  /** The table after the first `k` declarations. */
  function Table(decls: seq<Decl>, k: nat): (t: seq<Bit>)
    requires k <= |decls| && forall j :: 0 <= j < k ==> IsAddable(decls, j)
    ensures |t| == k
  {
    if k == 0 then [] else Sunk(Table(decls, k - 1), BitOf(decls, k - 1))
  }

  lemma {:induction false} SunkKeepsOrder(t: seq<Bit>, b: Bit)
    requires IsOrdered(t) && forall x :: x in t ==> x.pos != b.pos
    ensures IsOrdered(Sunk(t, b))
  {
    if t != [] && t[|t| - 1].pos > b.pos {
      var u, last := t[..|t| - 1], t[|t| - 1];
      assert forall x :: x in u ==> x in t;
      SunkKeepsOrder(u, b);
      assert forall i :: 0 <= i < |u| ==> u[i] == t[i];
      BelowLast(u, b, last);
    } else {
      assert forall i :: 0 <= i < |t| ==> t[i] in t;
    }
  }

  lemma BelowLast(u: seq<Bit>, b: Bit, last: Bit)
    requires b.pos < last.pos && forall i :: 0 <= i < |u| ==> u[i].pos < last.pos
    ensures forall i :: 0 <= i < |u| + 1 ==> Sunk(u, b)[i].pos < last.pos
  {
    hide Sunk;
    SunkPermutes(u, b);
    var r := Sunk(u, b);
    forall i | 0 <= i < |r| ensures r[i].pos < last.pos {
      assert r[i] in multiset(r);
      assert r[i] in multiset(u) || r[i] == b;
    }
  }

  lemma {:induction false} TablePermutes(decls: seq<Decl>, k: nat)
    requires k <= |decls| && forall j :: 0 <= j < k ==> IsAddable(decls, j)
    ensures multiset(Table(decls, k)) == multiset(Declared(decls, k))
  {
    hide Sunk;
    if k > 0 {
      TablePermutes(decls, k - 1);
      SunkPermutes(Table(decls, k - 1), BitOf(decls, k - 1));
    }
  }

  /** An entry of the table comes from a declaration, and each declaration has one. */
  lemma TableMembers(decls: seq<Decl>, k: nat)
    requires k <= |decls| && forall j :: 0 <= j < k ==> IsAddable(decls, j)
    ensures forall b :: b in Table(decls, k) ==> exists j :: 0 <= j < k && b == Declared(decls, k)[j]
    ensures forall j :: 0 <= j < k ==> Declared(decls, k)[j] in Table(decls, k)
  {
    hide Table, Declared;
    TablePermutes(decls, k);
    var t, d := Table(decls, k), Declared(decls, k);
    forall b | b in t ensures exists j :: 0 <= j < k && b == d[j] {
      assert b in multiset(t);
      assert b in d;
    }
    forall j | 0 <= j < k ensures d[j] in t {
      assert d[j] in multiset(d);
      assert d[j] in multiset(t);
    }
  }

  lemma {:induction false} TableOrdered(decls: seq<Decl>, k: nat)
    requires k <= |decls| && forall j :: 0 <= j < k ==> IsAddable(decls, j)
    ensures IsOrdered(Table(decls, k))
  {
    hide Sunk, Declared, PositionOf, IsAddable;
    if k > 0 {
      TableOrdered(decls, k - 1);
      NewEntry(decls, k - 1);
      SunkKeepsOrder(Table(decls, k - 1), BitOf(decls, k - 1));
    }
  }

  lemma NewEntry(decls: seq<Decl>, k: nat)
    requires k < |decls| && forall j :: 0 <= j <= k ==> IsAddable(decls, j)
    ensures forall b :: b in Table(decls, k) ==> b.pos != PositionOf(decls, k)
  {
    hide Table, Declared, Positions, PositionOf;
    TableMembers(decls, k);
    NewPosition(decls, k);
  }

  /** A bit that can be added has a position of its own. */
  lemma NewPosition(decls: seq<Decl>, k: nat)
    requires k < |decls| && IsAddable(decls, k)
    ensures forall j :: 0 <= j < k ==> PositionOf(decls, j) != PositionOf(decls, k)
  {
    hide Positions, Next;
    NextIsOneAboveHighest(decls, k);
    var vs := Positions(decls[k].subs);
    assert vs != [] ==> vs[|vs| - 1] in vs;
  }

  /** What section 9.7.4.2 of RFC 6020 asks of the finished table. */
  lemma NumberedTable(decls: seq<Decl>)
    requires IsNumberable(decls)
    ensures var t := Table(decls, |decls|);
            && IsOrdered(t) && multiset(t) == multiset(Declared(decls, |decls|))
            && (forall i, j :: 0 <= i < j < |t| ==> t[i].name != t[j].name)
            && (forall i :: 0 <= i < |t| ==> Prefixes.IsIdentifier(t[i].name) && 0 <= t[i].pos <= UINT32_MAX)
            && (forall k :: 0 <= k < |decls| && Positions(decls[k].subs) == [] ==> Bit(decls[k].name, Next(decls, k), true) in t)
  {
    hide Table, Declared, PositionOf, Next, Positions;
    var n := |decls|;
    var t, d := Table(decls, n), Declared(decls, n);
    TableOrdered(decls, n);
    TablePermutes(decls, n);
    TableMembers(decls, n);
    AutoPositions(decls);
    forall i, j | 0 <= i < j < |t| ensures t[i].name != t[j].name {
      assert t[i] in t && t[j] in t;
      var a :| 0 <= a < n && t[i] == d[a];
      var b :| 0 <= b < n && t[j] == d[b];
      assert a != b;
      assert IsAddable(decls, a) && IsAddable(decls, b);
    }
    forall i | 0 <= i < |t| ensures Prefixes.IsIdentifier(t[i].name) && 0 <= t[i].pos <= UINT32_MAX {
      assert t[i] in t;
      var a :| 0 <= a < n && t[i] == d[a];
      AddableIsNatural(decls, a);
    }
  }

  lemma AddableIsNatural(decls: seq<Decl>, k: nat)
    requires k < |decls| && IsAddable(decls, k)
    ensures 0 <= PositionOf(decls, k) <= UINT32_MAX && Prefixes.IsIdentifier(decls[k].name)
  {
    var vs := Positions(decls[k].subs);
    assert vs != [] ==> vs[|vs| - 1] in vs;
  }

  lemma AutoPositions(decls: seq<Decl>)
    requires IsNumberable(decls)
    ensures var d := Declared(decls, |decls|);
            forall k :: 0 <= k < |decls| && Positions(decls[k].subs) == [] ==> d[k] == Bit(decls[k].name, Next(decls, k), true)
  {
    hide Declared, Next, Positions;
  }

  /** The conditions of section 9.7.4 of RFC 6020: names and positions are unique and in range. */
  predicate IsUnambiguous(decls: seq<Decl>) {
    && (forall k :: 0 <= k < |decls| ==> Prefixes.IsIdentifier(decls[k].name) && AreReadable(decls[k].subs))
    && (forall j, k :: 0 <= j < k < |decls| ==> decls[j].name != decls[k].name)
    && (forall j, k :: 0 <= j < k < |decls| ==> PositionOf(decls, j) != PositionOf(decls, k))
    && (forall k :: 0 <= k < |decls| ==> PositionOf(decls, k) <= UINT32_MAX)
  }

  /** No position that a later statement of its bit replaces is the position of a bit before. */
  predicate AreReplacedFree(decls: seq<Decl>) {
    forall j, k :: 0 <= j < k < |decls| ==>
      var vs := Positions(decls[k].subs);
      forall i :: 0 <= i < |vs| - 1 ==> vs[i] != PositionOf(decls, j)
  }

  /** Numbering succeeds exactly when the statements are unambiguous and no replaced position was taken;
      where every bit has one position at most, nothing is replaced. */
  lemma NumberableMeansUnambiguous(decls: seq<Decl>)
    ensures IsNumberable(decls) <==> IsUnambiguous(decls) && AreReplacedFree(decls)
    ensures (forall k :: 0 <= k < |decls| ==> |Positions(decls[k].subs)| <= 1) ==> AreReplacedFree(decls)
  {
    hide Positions, Next, AreReadable, Prefixes.IsIdentifier;
    if IsNumberable(decls) {
      forall k | 0 <= k < |decls|
        ensures Prefixes.IsIdentifier(decls[k].name) && AreReadable(decls[k].subs) && PositionOf(decls, k) <= UINT32_MAX
        ensures forall j :: 0 <= j < k ==> decls[j].name != decls[k].name && PositionOf(decls, j) != PositionOf(decls, k)
      {
        assert IsAddable(decls, k);
        NewPosition(decls, k);
      }
      forall j, k | 0 <= j < k < |decls|
        ensures forall i :: 0 <= i < |Positions(decls[k].subs)| - 1 ==> Positions(decls[k].subs)[i] != PositionOf(decls, j)
      {
        assert IsAddable(decls, k);
      }
    }
    if IsUnambiguous(decls) && AreReplacedFree(decls) {
      forall k | 0 <= k < |decls| ensures IsAddable(decls, k) {
        NoneTaken(decls, k);
      }
    }
  }

  lemma NoneTaken(decls: seq<Decl>, k: nat)
    requires k < |decls| && IsUnambiguous(decls) && AreReplacedFree(decls)
    ensures forall j :: 0 <= j < k ==> PositionOf(decls, j) !in Positions(decls[k].subs)
  {
    hide Positions, Next, AreReadable, Prefixes.IsIdentifier;
    var vs := Positions(decls[k].subs);
    forall j | 0 <= j < k ensures PositionOf(decls, j) !in vs {
      assert vs != [] ==> PositionOf(decls, k) == vs[|vs| - 1];
      assert forall i :: 0 <= i < |vs| - 1 ==> vs[i] != PositionOf(decls, j);
      assert PositionOf(decls, j) != PositionOf(decls, k);
      assert forall i :: 0 <= i < |vs| ==> vs[i] != PositionOf(decls, j);
    }
  }

  /** A bit is refused for a position it does not keep. */
  lemma ReplacedPositionRefused(a: string, b: string, v: nat, w: nat)
    requires Prefixes.IsIdentifier(a) && Prefixes.IsIdentifier(b) && a != b && v <= UINT32_MAX && w <= UINT32_MAX && v != w
    ensures var decls := [Decl(a, [Position(v)]), Decl(b, [Position(v), Position(w)])];
            IsUnambiguous(decls) && !IsNumberable(decls)
  {
    hide Positions, Next, Prefixes.IsIdentifier;
    var decls := [Decl(a, [Position(v)]), Decl(b, [Position(v), Position(w)])];
    TwoPositions(v, w);
    OnePosition(v);
    assert PositionOf(decls, 0) == v && PositionOf(decls, 1) == w;
    assert v in Positions(decls[1].subs);
    assert !IsAddable(decls, 1);
  }

  /** The highest position is 2^32 - 1: it can be given and assigned, but nothing beyond it. */
  lemma HighestPosition(a: string, b: string)
    requires Prefixes.IsIdentifier(a) && Prefixes.IsIdentifier(b) && a != b
    ensures var decls := [Decl(a, [Position(4294967294)]), Decl(b, [])];
            IsNumberable(decls) && PositionOf(decls, 1) == 4294967295
    ensures !IsNumberable([Decl(a, [Position(4294967295)]), Decl(b, [])])
    ensures IsNumberable([Decl(a, [Position(4294967295)])]) && !IsNumberable([Decl(a, [Position(4294967296)])])
    ensures !IsNumberable([Decl(a, [Position(-1)])])
  {
    GivenThenAutomatic(a, b, 4294967294);
    GivenThenAutomatic(a, b, 4294967295);
    GivenAlone(a, 4294967295);
    GivenAlone(a, 4294967296);
    GivenAlone(a, -1);
  }

  lemma GivenAlone(a: string, v: int)
    requires Prefixes.IsIdentifier(a)
    ensures IsNumberable([Decl(a, [Position(v)])]) <==> 0 <= v <= UINT32_MAX
  {
    hide Prefixes.IsIdentifier, Positions, Next;
    var decls := [Decl(a, [Position(v)])];
    OnePosition(v);
    assert PositionOf(decls, 0) == v;
    assert Position(v) in decls[0].subs;
    assert IsAddable(decls, 0) <==> 0 <= v <= UINT32_MAX;
  }

  lemma GivenThenAutomatic(a: string, b: string, v: int)
    requires Prefixes.IsIdentifier(a) && Prefixes.IsIdentifier(b) && a != b && 0 <= v <= UINT32_MAX
    ensures var decls := [Decl(a, [Position(v)]), Decl(b, [])];
            PositionOf(decls, 1) == v + 1 && (IsNumberable(decls) <==> v + 1 <= UINT32_MAX)
  {
    hide Prefixes.IsIdentifier, Positions, Above, Next;
    var decls := [Decl(a, [Position(v)]), Decl(b, [])];
    OnePosition(v);
    TwoPositions(v, v);
    NextStart(decls);
    NextOne(decls, 0);
    AboveNothing(0);
    AboveAppend(0, [], v);
    assert [] + [v] == [v];
    assert PositionOf(decls, 0) == v && PositionOf(decls, 1) == v + 1;
    assert IsAddable(decls, 0);
    assert IsAddable(decls, 1) <==> v + 1 <= UINT32_MAX;
  }

  lemma OnePosition(v: int)
    ensures Positions([Position(v)]) == [v]
  {
    assert [Position(v)][..0] == [] && [Position(v)][..1] == [Position(v)];
    PositionsStep([Position(v)], 0);
    assert Positions([]) == [];
  }

  // ----- the numbering -----------------------------------------------------------------------

  lemma {:induction false} AboveAppend(p: int, vs: seq<int>, v: int)
    ensures Above(p, vs + [v]) == if v >= Above(p, vs) then v + 1 else Above(p, vs)
  {
    assert (vs + [v])[..|vs|] == vs;
  }

  lemma PositionsStep(subs: seq<Sub>, k: nat)
    requires k < |subs|
    ensures Positions(subs[..k + 1]) == if subs[k].Position? then Positions(subs[..k]) + [subs[k].value] else Positions(subs[..k])
    ensures AreReadable(subs[..k + 1]) <==> AreReadable(subs[..k]) && !subs[k].Unknown? && (subs[k].Position? ==> 0 <= subs[k].value <= UINT32_MAX)
    ensures AreReadable(subs) ==> AreReadable(subs[..k + 1])
  {
    assert subs[..k + 1][..k] == subs[..k];
    assert subs[..k + 1] == subs[..k] + [subs[k]];
    assert subs == subs[..k + 1] + subs[k + 1..];
  }

  method HasName(bit: array<Bit>, i: nat) returns (dup: bool)
    requires i < bit.Length
    ensures dup <==> exists j :: 0 <= j < i && bit[j].name == bit[i].name
  {
    for j := 0 to i
      invariant forall k :: 0 <= k < j ==> bit[k].name != bit[i].name
    {
      if bit[j].name == bit[i].name {
        return true;
      }
    }
    return false;
  }

  method HasPosition(bit: array<Bit>, i: nat) returns (dup: bool)
    requires i < bit.Length
    ensures dup <==> exists j :: 0 <= j < i && bit[j].pos == bit[i].pos
  {
    for j := 0 to i
      invariant forall k :: 0 <= k < j ==> bit[k].pos != bit[i].pos
    {
      if bit[j].pos == bit[i].pos {
        return true;
      }
    }
    return false;
  }

  /** None of `vs` is a position of `t`. */
  predicate AreNew(vs: seq<int>, t: seq<Bit>) {
    forall v, b :: v in vs && b in t ==> b.pos != v
  }

  lemma AreNewStep(vs: seq<int>, v: int, t: seq<Bit>)
    ensures AreNew(vs + [v], t) <==> AreNew(vs, t) && forall b :: b in t ==> b.pos != v
  {
    assert v in vs + [v] && forall w :: w in vs + [v] <==> w in vs || w == v;
  }

  /** The substatements `subs` of a bit `b0` behind the table `t` are read: the bit is `b`, the counter `p`. */
  predicate IsRead(subs: seq<Sub>, t: seq<Bit>, b0: Bit, b: Bit, p0: int, p: int, given: bool) {
    var vs := Positions(subs);
    && AreReadable(subs) && AreNew(vs, t)
    && p >= p0 && p == Above(p0, vs) && given == (vs != [])
    && b == if vs == [] then b0 else b0.(pos := vs[|vs| - 1])
  }

  /** The substatements of bit `i`: the new counter and whether a position was given. */
  method ReadPositions(subs: seq<Sub>, bit: array<Bit>, i: nat, p0: int) returns (ok: bool, p: int, given: bool)
    requires i < bit.Length && forall b :: b in bit[..i] ==> b.pos < p0
    modifies bit
    ensures bit[..i] == old(bit[..i])
    ensures ok <==> AreReadable(subs) && AreNew(Positions(subs), old(bit[..i]))
    ensures ok ==> IsRead(subs, old(bit[..i]), old(bit[i]), bit[i], p0, p, given)
  {
    hide IsRead, Positions, AreReadable, AreNew;
    ghost var t := bit[..i];
    p, given := p0, false;
    assert subs[..0] == [];
    ReadNothing(t, bit[i], p0);
    for k := 0 to |subs|
      invariant bit[..i] == t && p >= p0
      invariant IsRead(subs[..k], t, old(bit[i]), bit[i], p0, p, given)
    {
      ReadStep(subs, k, t, old(bit[i]), bit[i], p0, p, given);
      Refused(subs, k + 1, t);
      if subs[k].Unknown? {
        return false, p, given;
      }
      if subs[k].Position? {
        var v := subs[k].value;
        if v < 0 || v > UINT32_MAX {
          return false, p, given;
        }
        given := true;
        bit[i] := bit[i].(pos := v);
        assert bit[..i] == t;
        if v >= p {
          p := v + 1;
        } else {
          var dup := HasPosition(bit, i);
          DupInTable(bit, i, v);
          if dup {
            return false, p, given;
          }
        }
      }
    }
    assert subs[..|subs|] == subs;
    ReadAll(subs, t, old(bit[i]), bit[i], p0, p, given);
    return true, p, given;
  }

  lemma ReadNothing(t: seq<Bit>, b: Bit, p: int)
    ensures IsRead([], t, b, b, p, p, false)
  {
  }

  lemma ReadAll(subs: seq<Sub>, t: seq<Bit>, b0: Bit, b: Bit, p0: int, p: int, given: bool)
    requires IsRead(subs, t, b0, b, p0, p, given)
    ensures AreReadable(subs) && AreNew(Positions(subs), t)
  {
  }

  /** One more substatement. */
  lemma ReadStep(subs: seq<Sub>, k: nat, t: seq<Bit>, b0: Bit, b: Bit, p0: int, p: int, given: bool)
    requires k < |subs| && IsRead(subs[..k], t, b0, b, p0, p, given)
    ensures var u := subs[..k + 1];
            match subs[k]
            case Garbage => IsRead(u, t, b0, b, p0, p, given)
            case Unknown => !AreReadable(u)
            case Position(v) =>
              var fits := 0 <= v <= UINT32_MAX && forall x :: x in t ==> x.pos != v;
              && (fits <==> AreReadable(u) && AreNew(Positions(u), t))
              && (fits ==> IsRead(u, t, b0, b.(pos := v), p0, if v >= p then v + 1 else p, true))
  {
    hide Positions, Above, AreReadable, AreNew;
    PositionsStep(subs, k);
    if subs[k].Position? {
      AreNewStep(Positions(subs[..k]), subs[k].value, t);
      AboveAppend(p0, Positions(subs[..k]), subs[k].value);
    }
  }

  lemma Refused(subs: seq<Sub>, k: nat, t: seq<Bit>)
    requires k <= |subs|
    ensures AreReadable(subs) && AreNew(Positions(subs), t) ==> AreReadable(subs[..k]) && AreNew(Positions(subs[..k]), t)
  {
    assert forall s :: s in subs[..k] ==> s in subs;
  }

  lemma DupInTable(bit: array<Bit>, i: nat, v: int)
    requires i < bit.Length
    ensures (exists j :: 0 <= j < i && bit[j].pos == v) <==> !(forall b :: b in bit[..i] ==> b.pos != v)
  {
    var t := bit[..i];
    assert forall j :: 0 <= j < i ==> t[j] == bit[j] && t[j] in t;
  }

  /** Where the new entry ends up. */
  lemma {:induction false} SunkAt(t: seq<Bit>, b: Bit, j: nat)
    requires j <= |t| && (j > 0 ==> t[j - 1].pos <= b.pos)
    requires forall k :: j <= k < |t| ==> t[k].pos > b.pos
    ensures Sunk(t, b) == t[..j] + [b] + t[j..]
  {
    if j < |t| {
      var u := t[..|t| - 1];
      SunkAt(u, b, j);
      assert u[..j] == t[..j] && t[j..] == u[j..] + [t[|t| - 1]];
    } else {
      assert t[..j] == t;
    }
  }

  /** The last entry is swapped down until the one before it has no higher position. */
  method Sink(bit: array<Bit>, i: nat)
    requires i < bit.Length
    modifies bit
    ensures bit[..i + 1] == Sunk(old(bit[..i]), old(bit[i]))
  {
    hide Sunk;
    ghost var t, b := bit[..i], bit[i];
    var j := i;
    while j > 0 && bit[j - 1].pos > bit[j].pos
      invariant 0 <= j <= i && bit[j] == b
      invariant forall k :: 0 <= k < j ==> bit[k] == t[k]
      invariant forall k :: j < k <= i ==> bit[k] == t[k - 1] && bit[k].pos > b.pos
    {
      bit[j], bit[j - 1] := bit[j - 1], bit[j];
      j := j - 1;
    }
    SunkResult(t, b, j, bit[..i + 1]);
  }

  lemma SunkResult(t: seq<Bit>, b: Bit, j: nat, r: seq<Bit>)
    requires |r| == |t| + 1 && j <= |t| && r[j] == b && (j > 0 ==> r[j - 1].pos <= b.pos)
    requires forall k :: 0 <= k < j ==> r[k] == t[k]
    requires forall k :: j < k < |r| ==> r[k] == t[k - 1] && r[k].pos > b.pos
    ensures r == Sunk(t, b)
  {
    hide Sunk;
    forall k | j <= k < |t| ensures r[k + 1] == t[k] && t[k].pos > b.pos {
    }
    SunkAt(t, b, j);
    assert r == t[..j] + [b] + t[j..];
  }

  /** The bits case: the table of the type, or a refusal. */
  method NumberBits(decls: seq<Decl>) returns (ok: bool, bit: array<Bit>)
    ensures ok <==> IsNumberable(decls)
    ensures ok ==> bit[..] == Table(decls, |decls|)
  {
    hide Table, Next, IsAddable;
    bit := new Bit[|decls|](_ => Bit("", 0, false));
    ok := false;
    var p: int := 0;
    FirstTable(decls);
    for i := 0 to |decls|
      invariant forall k :: 0 <= k < i ==> IsAddable(decls, k)
      invariant bit[..i] == Table(decls, i) && p == Next(decls, i)
    {
      ok, p := NumberBit(decls, bit, i, p);
      if !ok {
        return;
      }
    }
    assert bit[..|decls|] == bit[..];
    ok := true;
  }

  lemma FirstTable(decls: seq<Decl>)
    ensures Table(decls, 0) == [] && Next(decls, 0) == 0
  {
  }

  /** The name and the positions of bit `i` are read into its slot. */
  method ReadBit(decls: seq<Decl>, bit: array<Bit>, i: nat, p0: int) returns (ok: bool, p: int)
    requires i < |decls| == bit.Length
    requires forall k :: 0 <= k < i ==> IsAddable(decls, k)
    requires bit[..i] == Table(decls, i) && p0 == Next(decls, i)
    modifies bit
    ensures ok <==> IsAddable(decls, i)
    ensures ok ==> bit[..i] == Table(decls, i) && bit[i] == BitOf(decls, i) && p == Next(decls, i + 1)
  {
    hide Table, Next, Positions, AreReadable, AreNew, Prefixes.IsIdentifier, Above, Sunk;
    ghost var t := bit[..i];
    p := p0;
    var named := PrefixTransforms.CheckIdentifier(decls[i].name);
    if !named {
      return false, p;
    }
    bit[i] := Bit(decls[i].name, 0, false);
    assert bit[..i] == t;
    var dup := HasName(bit, i);
    NamesInTable(decls, i);
    assert forall j :: 0 <= j < i ==> bit[j] == t[j];
    if dup {
      return false, p;
    }
    BelowNext(decls, i);
    var given;
    ok, p, given := ReadPositions(decls[i].subs, bit, i, p0);
    NewInTable(decls, i);
    if !ok {
      return;
    }
    NextOne(decls, i);
    if !given {
      if p > UINT32_MAX {
        return false, p;
      }
      bit[i] := bit[i].(pos := p, auto := true);
      p := p + 1;
      assert bit[..i] == t;
    } else {
      LastInRange(decls, i);
    }
  }

  lemma NextOne(decls: seq<Decl>, k: nat)
    requires k < |decls|
    ensures Above(Next(decls, k), []) == Next(decls, k)
    ensures var vs := Positions(decls[k].subs);
            Next(decls, k + 1) == if vs == [] then Next(decls, k) + 1 else Above(Next(decls, k), vs)
  {
  }

  /** One turn of the loop over the bit statements. */
  method NumberBit(decls: seq<Decl>, bit: array<Bit>, i: nat, p0: int) returns (ok: bool, p: int)
    requires i < |decls| == bit.Length
    requires forall k :: 0 <= k < i ==> IsAddable(decls, k)
    requires bit[..i] == Table(decls, i) && p0 == Next(decls, i)
    modifies bit
    ensures ok <==> IsAddable(decls, i)
    ensures ok ==> bit[..i + 1] == Table(decls, i + 1) && p == Next(decls, i + 1)
  {
    hide Next, IsAddable, Sunk;
    ok, p := ReadBit(decls, bit, i, p0);
    if ok {
      Sink(bit, i);
    }
  }

  lemma LastInRange(decls: seq<Decl>, k: nat)
    requires k < |decls| && AreReadable(decls[k].subs) && Positions(decls[k].subs) != []
    ensures PositionOf(decls, k) <= UINT32_MAX
  {
    var vs := Positions(decls[k].subs);
    assert vs[|vs| - 1] in vs;
  }

  lemma NamesInTable(decls: seq<Decl>, k: nat)
    requires k < |decls| && forall j :: 0 <= j < k ==> IsAddable(decls, j)
    ensures (forall j :: 0 <= j < k ==> Table(decls, k)[j].name != decls[k].name)
       <==> (forall m :: 0 <= m < k ==> decls[m].name != decls[k].name)
  {
    hide Table, Declared, IsAddable, PositionOf, Positions;
    TableMembers(decls, k);
    var t, d := Table(decls, k), Declared(decls, k);
    if j :| 0 <= j < k && t[j].name == decls[k].name {
      assert t[j] in t;
      var m :| 0 <= m < k && t[j] == d[m];
      assert d[m].name == decls[m].name;
    }
    if m :| 0 <= m < k && decls[m].name == decls[k].name {
      NameInTable(decls, k, m);
    }
  }

  lemma NameInTable(decls: seq<Decl>, k: nat, m: int)
    requires k < |decls| && forall j :: 0 <= j < k ==> IsAddable(decls, j)
    requires 0 <= m < k && decls[m].name == decls[k].name
    ensures exists j :: 0 <= j < k && Table(decls, k)[j].name == decls[k].name
  {
    hide Table, Declared, IsAddable, PositionOf, Positions;
    TableMembers(decls, k);
    assert Declared(decls, k)[m] in Table(decls, k);
    var j :| 0 <= j < k && Table(decls, k)[j] == Declared(decls, k)[m];
    assert Table(decls, k)[j].name == decls[k].name;
  }

  lemma BelowNext(decls: seq<Decl>, k: nat)
    requires k < |decls| && forall j :: 0 <= j < k ==> IsAddable(decls, j)
    ensures forall b :: b in Table(decls, k) ==> b.pos < Next(decls, k)
  {
    hide Table, Declared, IsAddable, Next, PositionOf;
    TableMembers(decls, k);
    NextIsOneAboveHighest(decls, k);
  }

  lemma NewInTable(decls: seq<Decl>, k: nat)
    requires k < |decls| && forall j :: 0 <= j < k ==> IsAddable(decls, j)
    ensures AreNew(Positions(decls[k].subs), Table(decls, k)) <==> forall j :: 0 <= j < k ==> PositionOf(decls, j) !in Positions(decls[k].subs)
  {
    hide Table, Declared, IsAddable, Next, PositionOf, Positions;
    TableMembers(decls, k);
    var t, d := Table(decls, k), Declared(decls, k);
    assert forall j :: 0 <= j < k ==> d[j] in t && d[j].pos == PositionOf(decls, j);
  }
}

/** The search through the members of a union: lyp_get_next_union_type in src/parser.c. */
module UnionTypes {
  import opened CStrings

  datatype Base = Union | Ident | Inst | Other

  /** A type object, known by its address; `der` is the type of the typedef it is derived from. */
  datatype Type = Type(address: int, base: Base, members: seq<Type>, der: Option<Type>)

  // ----- the members of a union, flattened ---------------------------------------------------

  /** The members from number `i` on that are no unions, nested unions opened up. */
  function Members(t: Type, i: nat): seq<Type>
    requires i <= |t.members|
    decreases t, |t.members| - i, 0
  {
    if i == |t.members| then []
    else (if t.members[i].base.Union? then Flatten(t.members[i]) else [t.members[i]]) + Members(t, i + 1)
  }

  function Flatten(t: Type): seq<Type>
    decreases t, |t.members| + 1, 0
  {
    Members(t, 0) + Derived(t)
  }

  function Derived(t: Type): seq<Type>
    decreases t, 0, 0
  {
    if t.der.None? then [] else Flatten(t.der.value)
  }

  // ----- the search --------------------------------------------------------------------------

  /** What one search through a list of members gives: the member behind `prev`, and whether `prev` was met. */
  datatype Hit = Hit(ret: Option<Type>, found: bool)

  function Scan(list: seq<Type>, prev: Option<int>, found: bool): Hit {
    if list == [] then Hit(None, found)
    else if prev.None? || found then Hit(Some(list[0]), found)
    else Scan(list[1..], prev, list[0].address == prev.value)
  }

  lemma {:induction false} ScanAppend(a: seq<Type>, b: seq<Type>, prev: Option<int>, found: bool)
    ensures var hit := Scan(a, prev, found);
            Scan(a + b, prev, found) == if hit.ret.Some? then hit else Scan(b, prev, hit.found)
  {
    if a == [] {
      assert a + b == b;
    } else if prev.Some? && !found {
      assert (a + b)[1..] == a[1..] + b;
      ScanAppend(a[1..], b, prev, a[0].address == prev.value);
    }
  }

  lemma MembersStep(t: Type, i: nat, prev: Option<int>, found: bool)
    requires i < |t.members|
    ensures var m := t.members[i];
            var hit := Scan(if m.base.Union? then Flatten(m) else [m], prev, found);
            var rest := Scan(Members(t, i + 1) + Derived(t), prev, hit.found);
            Scan(Members(t, i) + Derived(t), prev, found) == if hit.ret.Some? then hit else rest
  {
    hide Scan, Flatten, Derived;
    var m := t.members[i];
    var first := if m.base.Union? then Flatten(m) else [m];
    assert first + Members(t, i + 1) + Derived(t) == first + (Members(t, i + 1) + Derived(t));
    ScanAppend(first, Members(t, i + 1) + Derived(t), prev, found);
  }

  lemma ScanOne(m: Type, prev: Option<int>, found: bool)
    ensures Scan([m], prev, found) == if prev.None? || found then Hit(Some(m), found) else Hit(None, m.address == prev.value)
  {
  }

  lemma ScanDerived(t: Type, prev: Option<int>, found: bool)
    ensures Members(t, |t.members|) + Derived(t) == Derived(t)
    ensures t.der.None? ==> Scan(Derived(t), prev, found) == Hit(None, found)
  {
  }

  /** lyp_get_next_union_type, with `found` passed in and out. */
  method GetNextUnionType(t: Type, prev: Option<int>, found0: bool) returns (ret: Option<Type>, found: bool)
    ensures Hit(ret, found) == Scan(Flatten(t), prev, found0)
    decreases t
  {
    hide Scan, Members, Derived;
    ret, found := None, found0;
    for i := 0 to |t.members|
      invariant Scan(Flatten(t), prev, found0) == Scan(Members(t, i) + Derived(t), prev, found) && ret.None?
    {
      var m := t.members[i];
      MembersStep(t, i, prev, found);
      if m.base.Union? {
        ret, found := GetNextUnionType(m, prev, found);
        if ret.Some? {
          return;
        }
      } else {
        ScanOne(m, prev, found);
        if prev.None? || found {
          return Some(m), found;
        }
        if m.address == prev.value {
          found := true;
        }
      }
    }
    ScanDerived(t, prev, found);
    if t.der.Some? {
      DerivedOf(t);
      ret, found := GetNextUnionType(t.der.value, prev, found);
    }
  }

  lemma DerivedOf(t: Type)
    requires t.der.Some?
    ensures Derived(t) == Flatten(t.der.value)
  {
  }

  // ----- repeated searches -------------------------------------------------------------------

  function Next(list: seq<Type>, prev: Option<int>): Option<Type> {
    Scan(list, prev, false).ret
  }

  /** The member found by search number `n`, each search starting behind the one before. */
  function Visit(list: seq<Type>, n: nat): Option<Type> {
    if n == 0 then Next(list, None)
    else if Visit(list, n - 1).None? then None
    else Next(list, Some(Visit(list, n - 1).value.address))
  }

  predicate AreDistinct(list: seq<Type>) {
    forall i, j :: 0 <= i < j < |list| ==> list[i].address != list[j].address
  }

  /** No object occurs before index `i` that is also at index `i`. */
  predicate IsFirst(list: seq<Type>, i: nat)
    requires i < |list|
  {
    forall j :: 0 <= j < i ==> list[j].address != list[i].address
  }

  /** The search finds what is behind the first occurrence. */
  lemma {:induction false} NextOfFirst(list: seq<Type>, i: nat)
    requires i < |list| && IsFirst(list, i)
    ensures Next(list, Some(list[i].address)) == if i + 1 < |list| then Some(list[i + 1]) else None
  {
    var prev := Some(list[i].address);
    if i > 0 {
      assert list[0].address != list[i].address;
      forall j | 0 <= j < i - 1 ensures list[1..][j].address != list[1..][i - 1].address {
        assert list[j + 1].address != list[i].address;
      }
      NextOfFirst(list[1..], i - 1);
    } else {
      assert list[1..] != [] ==> list[1..][0] == list[1];
      ScanFound(list[1..], prev);
    }
  }

  lemma ScanFound(list: seq<Type>, prev: Option<int>)
    ensures Scan(list, prev, true).ret == if list == [] then None else Some(list[0])
  {
  }

  /** The number of members before the first one that occurred already. */
  function Fresh(list: seq<Type>): (n: nat)
    ensures n <= |list| && AreDistinct(list[..n])
    ensures n < |list| ==> !IsFirst(list, n)
    ensures n == |list| <==> AreDistinct(list)
  {
    if list == [] then 0
    else
      var front := list[..|list| - 1];
      var n := Fresh(front);
      assert forall i :: 0 <= i < |front| ==> front[i] == list[i];
      assert front[..n] == list[..n];
      if n < |front| then (assert front[n] == list[n]; n)
      else if IsFirst(list, n) then (assert list[..n + 1] == list; n + 1)
      else n
  }

  lemma FreshIsFirst(list: seq<Type>, i: nat)
    requires i < Fresh(list)
    ensures IsFirst(list, i)
  {
    hide Fresh;
    var u := list[..Fresh(list)];
    assert forall j :: 0 <= j <= i ==> u[j] == list[j];
  }

  /** Up to the first repetition the searches run through the list in order. */
  lemma {:induction false} VisitInOrder(list: seq<Type>, n: nat)
    requires n <= Fresh(list)
    ensures Visit(list, n) == if n < |list| then Some(list[n]) else None
  {
    hide Fresh, Scan;
    if n == 0 {
      ScanNothing(list);
    } else {
      VisitInOrder(list, n - 1);
      FreshIsFirst(list, n - 1);
      NextOfFirst(list, n - 1);
    }
  }

  lemma ScanNothing(list: seq<Type>)
    ensures Scan(list, None, false).ret == if list == [] then None else Some(list[0])
  {
  }

  /** Without a repeated object every member is found once, in order, and then none. */
  lemma {:induction false} EnumeratesAll(list: seq<Type>, n: nat)
    requires AreDistinct(list)
    ensures Visit(list, n) == if n < |list| then Some(list[n]) else None
  {
    hide Fresh, Next;
    if n <= |list| {
      VisitInOrder(list, n);
    } else {
      EnumeratesAll(list, n - 1);
    }
  }

  /** Objects with one address are one object. */
  predicate AreObjects(list: seq<Type>) {
    forall i, j :: 0 <= i < |list| && 0 <= j < |list| && list[i].address == list[j].address ==> list[i] == list[j]
  }

  /** With a repeated object the searches never leave the members before it. */
  lemma {:induction false} NeverLeaves(list: seq<Type>, n: nat) returns (i: nat)
    requires AreObjects(list) && !AreDistinct(list)
    ensures i < Fresh(list) < |list| && Visit(list, n) == Some(list[i])
  {
    hide Fresh, Next;
    var k := Fresh(list);
    if n == 0 {
      i := 0;
      VisitInOrder(list, 0);
    } else {
      var j := NeverLeaves(list, n - 1);
      FreshIsFirst(list, j);
      NextOfFirst(list, j);
      i := j + 1;
      if i == k {
        i :| 0 <= i < k && list[i].address == list[k].address;
      }
    }
  }

  /** The searches come to an end exactly when no object occurs twice. */
  lemma EndsIffDistinct(list: seq<Type>)
    requires AreObjects(list)
    ensures (exists n: nat :: Visit(list, n).None?) <==> AreDistinct(list)
  {
    hide Fresh, Visit;
    if AreDistinct(list) {
      EnumeratesAll(list, |list|);
    } else if n: nat :| Visit(list, n).None? {
      var i := NeverLeaves(list, n);
    }
  }

  /** The loop of lyp_parse_value stops at the first member that takes the value, or behind the last one. */
  ghost predicate LoopEnds(list: seq<Type>, takes: Type -> bool) {
    exists n: nat :: Visit(list, n).None? || takes(Visit(list, n).value)
  }

  /** It ends exactly when no object occurs twice, or one before the first repetition takes the value. */
  lemma LoopEndsIff(list: seq<Type>, takes: Type -> bool)
    requires AreObjects(list)
    ensures LoopEnds(list, takes) <==> AreDistinct(list) || exists i :: 0 <= i < Fresh(list) && takes(list[i])
  {
    hide Fresh, Visit, AreDistinct;
    if AreDistinct(list) {
      EndsIffDistinct(list);
    } else {
      if i :| 0 <= i < Fresh(list) && takes(list[i]) {
        VisitInOrder(list, i);
      }
      if n: nat :| Visit(list, n).None? || takes(Visit(list, n).value) {
        var i := NeverLeaves(list, n);
      }
    }
  }

  // ----- where a repeated object comes from --------------------------------------------------

  lemma DistinctParts(a: seq<Type>, b: seq<Type>)
    requires AreDistinct(a + b)
    ensures AreDistinct(b) && forall x :: x in a ==> x !in b
  {
    var c := a + b;
    assert forall i :: 0 <= i < |b| ==> c[|a| + i] == b[i];
    assert forall i :: 0 <= i < |a| ==> c[i] == a[i];
  }

  lemma {:induction false} MembersContain(t: Type, i: nat, j: nat, x: Type)
    requires i <= j < |t.members| && t.members[j].base.Union? && x in Flatten(t.members[j])
    ensures x in Members(t, i)
    decreases j - i
  {
    hide Flatten;
    if i < j {
      MembersContain(t, i + 1, j, x);
    }
  }

  lemma {:induction false} DistinctFrom(t: Type, i: nat)
    requires i <= |t.members| && AreDistinct(Members(t, 0))
    ensures AreDistinct(Members(t, i))
  {
    hide Flatten, AreDistinct;
    if i > 0 {
      DistinctFrom(t, i - 1);
      var m := t.members[i - 1];
      DistinctParts(if m.base.Union? then Flatten(m) else [m], Members(t, i));
    }
  }

  /** A union that lists one union typedef twice has its members twice, and is searched without end. */
  lemma SameTypedefTwice(t: Type, i: nat, j: nat, u: Type)
    requires i < j < |t.members| && t.members[i].base.Union? && t.members[j].base.Union?
    requires t.members[i].der == t.members[j].der == Some(u) && Flatten(u) != []
    ensures !AreDistinct(Flatten(t))
    ensures AreObjects(Flatten(t)) ==> forall n: nat :: Visit(Flatten(t), n).Some?
  {
    hide AreDistinct, Visit, AreObjects;
    var x := Flatten(u)[0];
    FromTypedef(t.members[i], u, x);
    FromTypedef(t.members[j], u, x);
    MembersContain(t, i + 1, j, x);
    if AreDistinct(Flatten(t)) {
      FrontDistinct(Members(t, 0), Derived(t));
      DistinctFrom(t, i);
      DistinctParts(Flatten(t.members[i]), Members(t, i + 1));
    }
    if AreObjects(Flatten(t)) {
      EndsIffDistinct(Flatten(t));
    }
  }

  lemma FromTypedef(m: Type, u: Type, x: Type)
    requires m.der == Some(u) && x in Flatten(u)
    ensures x in Flatten(m)
  {
    assert Derived(m) == Flatten(u);
  }

  lemma FrontDistinct(a: seq<Type>, b: seq<Type>)
    requires AreDistinct(a + b)
    ensures AreDistinct(a)
  {
    assert forall i :: 0 <= i < |a| ==> (a + b)[i] == a[i];
  }

  /** The smallest such union: its typedef has the one member that is found again and again. */
  lemma TypedefTwiceExample(a: Type)
    requires a.base.Other?
    ensures var u := Type(0, Union, [a], None);
            var t := Type(1, Union, [Type(2, Union, [], Some(u)), Type(3, Union, [], Some(u))], None);
            Flatten(t) == [a, a] && AreObjects(Flatten(t)) && !AreDistinct(Flatten(t))
  {
    var u := Type(0, Union, [a], None);
    var m, n := Type(2, Union, [], Some(u)), Type(3, Union, [], Some(u));
    var t := Type(1, Union, [m, n], None);
    OneMember(u, a);
    assert Members(m, 0) == [] && Derived(m) == [a];
    assert Members(n, 0) == [] && Derived(n) == [a];
    TwoMembers(t, m, n);
    assert Derived(t) == [];
    assert [a, a][0] == [a, a][1];
  }

  lemma OneMember(u: Type, a: Type)
    requires u.members == [a] && !a.base.Union? && u.der.None?
    ensures Flatten(u) == [a]
  {
    assert Members(u, 1) == [] && Derived(u) == [];
  }

  lemma TwoMembers(t: Type, m: Type, n: Type)
    requires t.members == [m, n] && m.base.Union? && n.base.Union?
    ensures Members(t, 0) == Flatten(m) + Flatten(n)
  {
    hide Flatten;
    assert Members(t, 2) == [];
    assert Members(t, 1) == Flatten(n);
  }
}

/** Revision statements: their order in read_sub_module of src/parser_yin.c. */
module Revisions {
  import opened CStrings

  // ----- strcmp ------------------------------------------------------------------------------

  /** The sign of strcmp. */
  function StrCmp(a: string, b: string): (r: int)
    ensures r == 0 <==> a == b
  {
    if a == [] then if b == [] then 0 else -1
    else if b == [] || a[0] > b[0] then 1
    else if a[0] < b[0] then -1
    else
      assert a == [a[0]] + a[1..] && b == [b[0]] + b[1..];
      StrCmp(a[1..], b[1..])
  }

  lemma {:induction false} StrCmpReverse(a: string, b: string)
    ensures StrCmp(a, b) == -StrCmp(b, a)
  {
    if a != [] && b != [] {
      StrCmpReverse(a[1..], b[1..]);
    }
  }

  lemma {:induction false} StrCmpTransitive(a: string, b: string, c: string)
    requires StrCmp(a, b) <= 0 && StrCmp(b, c) <= 0
    ensures StrCmp(a, c) <= 0
  {
    if a != [] && b != [] && c != [] && a[0] == b[0] == c[0] {
      StrCmpTransitive(a[1..], b[1..], c[1..]);
    }
  }

  /** The order of the dictionary: `a` is cut short in `b`, or has the smaller character where they differ first. */
  predicate IsBefore(a: string, b: string) {
    a < b || exists n :: 0 <= n < |a| && n < |b| && a[..n] == b[..n] && a[n] < b[n]
  }

  lemma {:induction false} StrCmpAt(a: string, b: string, n: nat)
    requires n < |a| && n < |b| && a[..n] == b[..n] && a[n] != b[n]
    ensures if a[n] < b[n] then StrCmp(a, b) < 0 else StrCmp(a, b) > 0
  {
    if n > 0 {
      assert a[..n][0] == a[0] && b[..n][0] == b[0];
      assert a[1..][..n - 1] == a[..n][1..] && b[1..][..n - 1] == b[..n][1..];
      StrCmpAt(a[1..], b[1..], n - 1);
    }
  }

  lemma {:induction false} StrCmpPrefix(a: string, b: string)
    requires a < b
    ensures StrCmp(a, b) < 0
  {
    if a != [] {
      assert a[1..] < b[1..];
      StrCmpPrefix(a[1..], b[1..]);
    }
  }

  /** Two strings are equal, or one is a prefix of the other, or they differ somewhere first. */
  lemma {:induction false} FirstDifference(a: string, b: string) returns (n: nat)
    ensures n <= |a| && n <= |b| && a[..n] == b[..n] && (n < |a| && n < |b| ==> a[n] != b[n])
  {
    n := 0;
    if a != [] && b != [] && a[0] == b[0] {
      var m := FirstDifference(a[1..], b[1..]);
      n := m + 1;
      assert a[..n] == [a[0]] + a[1..][..m] && b[..n] == [b[0]] + b[1..][..m];
    }
  }

  /** strcmp orders strings by their first difference. */
  lemma StrCmpIsOrder(a: string, b: string)
    ensures StrCmp(a, b) < 0 <==> IsBefore(a, b)
    ensures StrCmp(a, b) > 0 <==> IsBefore(b, a)
  {
    hide StrCmp;
    StrCmpReverse(a, b);
    BeforeIsLess(a, b);
    BeforeIsLess(b, a);
    var n := FirstDifference(a, b);
    if n == |a| {
      assert a == b[..n];
    } else if n == |b| {
      assert b == a[..n];
    } else if a[n] < b[n] {
      assert IsBefore(a, b);
    } else {
      assert IsBefore(b, a);
    }
  }

  lemma BeforeIsLess(a: string, b: string)
    ensures IsBefore(a, b) ==> StrCmp(a, b) < 0
  {
    hide StrCmp;
    if a < b {
      StrCmpPrefix(a, b);
    } else if IsBefore(a, b) {
      var n :| 0 <= n < |a| && n < |b| && a[..n] == b[..n] && a[n] < b[n];
      StrCmpAt(a, b, n);
    }
  }

  // ----- dates -------------------------------------------------------------------------------

  function Digit(c: char): int {
    c as int - '0' as int
  }

  /** lyp_check_date. */
  predicate IsDate(date: string) {
    |date| == 10 && forall i :: 0 <= i < 10 ==> if i == 4 || i == 7 then date[i] == '-' else IsDigit(date[i])
  }

  /** Four digits, two and two, joined by minus signs. */
  lemma DateForm(date: string)
    ensures IsDate(date) <==>
              && |date| == 10 && date[4] == '-' && date[7] == '-'
              && (forall i :: 0 <= i < 4 ==> '0' <= date[i] <= '9')
              && '0' <= date[5] <= '9' && '0' <= date[6] <= '9' && '0' <= date[8] <= '9' && '0' <= date[9] <= '9'
  {
  }

  /** The numbers of a date. */
  datatype Day = Day(year: int, month: int, day: int)

  function DayOf(date: string): Day
    requires |date| == 10
  {
    Day(1000 * Digit(date[0]) + 100 * Digit(date[1]) + 10 * Digit(date[2]) + Digit(date[3]),
        10 * Digit(date[5]) + Digit(date[6]), 10 * Digit(date[8]) + Digit(date[9]))
  }

  predicate IsEarlier(a: Day, b: Day) {
    a.year < b.year || (a.year == b.year && (a.month < b.month || (a.month == b.month && a.day < b.day)))
  }

  /** On dates strcmp is the order of the calendar. */
  lemma StrCmpOfDates(a: string, b: string)
    requires IsDate(a) && IsDate(b)
    ensures StrCmp(a, b) < 0 <==> IsEarlier(DayOf(a), DayOf(b))
  {
    hide StrCmp;
    var n := FirstDifference(a, b);
    if n == 10 {
      assert a[..10] == a && b[..10] == b;
    } else {
      assert a[n] != b[n];
      forall i | 0 <= i < n ensures a[i] == b[i] {
        assert a[..n][i] == b[..n][i];
      }
      StrCmpAt(a, b, n);
      DigitsDecide(a, b, n);
    }
  }

  lemma DigitsDecide(a: string, b: string, n: nat)
    requires IsDate(a) && IsDate(b) && n < 10 && a[n] != b[n] && forall i :: 0 <= i < n ==> a[i] == b[i]
    ensures IsEarlier(DayOf(a), DayOf(b)) <==> a[n] < b[n]
  {
    assert forall i :: 0 <= i < 10 && i != 4 && i != 7 ==> 0 <= Digit(a[i]) <= 9 && 0 <= Digit(b[i]) <= 9;
    assert a[4] == b[4] && a[7] == b[7];
    assert Digit(a[n]) < Digit(b[n]) <==> a[n] < b[n];
  }

  // ----- revisions ---------------------------------------------------------------------------

  datatype Revision = Revision(date: string, dsc: Option<string>, ref: Option<string>)

  /** A revision statement; `unknown` says that it has another substatement than these. */
  datatype Statement = Statement(date: string, descriptions: seq<string>, references: seq<string>, unknown: bool)

  predicate IsReadable(s: Statement) {
    IsDate(s.date) && |s.descriptions| <= 1 && |s.references| <= 1 && !s.unknown
  }

  function First(texts: seq<string>): Option<string> {
    if texts == [] then None else Some(texts[0])
  }

  function RevisionOf(s: Statement): Revision {
    Revision(s.date, First(s.descriptions), First(s.references))
  }

  /** A revision has the parts of its statement. */
  lemma RevisionParts(s: Statement)
    ensures var r := RevisionOf(s);
            && r.date == s.date
            && (r.dsc.None? <==> s.descriptions == []) && (r.dsc.Some? ==> r.dsc.value == s.descriptions[0])
            && (r.ref.None? <==> s.references == []) && (r.ref.Some? ==> r.ref.value == s.references[0])
  {
  }

  function Declared(statements: seq<Statement>): (r: seq<Revision>)
    ensures |r| == |statements| && forall i :: 0 <= i < |r| ==> r[i] == RevisionOf(statements[i])
  {
    seq(|statements|, i requires 0 <= i < |statements| => RevisionOf(statements[i]))
  }

  /** No date is later than the one at index 0. */
  predicate IsLatestFirst(revs: seq<Revision>) {
    forall i :: 0 <= i < |revs| ==> StrCmp(revs[i].date, revs[0].date) <= 0
  }

  /** One more revision: it changes places with the first one if it is later. */
  function Add(revs: seq<Revision>, r: Revision): seq<Revision> {
    if revs != [] && StrCmp(r.date, revs[0].date) > 0 then [r] + revs[1..] + [revs[0]] else revs + [r]
  }

  function Ordered(declared: seq<Revision>): (revs: seq<Revision>)
    ensures |revs| == |declared|
  {
    if declared == [] then [] else Add(Ordered(declared[..|declared| - 1]), declared[|declared| - 1])
  }

  lemma AddPermutes(revs: seq<Revision>, r: Revision)
    ensures multiset(Add(revs, r)) == multiset(revs) + multiset{r}
  {
    if revs != [] {
      assert revs == [revs[0]] + revs[1..];
    }
  }

  lemma AddKeepsLatest(revs: seq<Revision>, r: Revision)
    requires IsLatestFirst(revs)
    ensures IsLatestFirst(Add(revs, r))
  {
    var more := Add(revs, r);
    if revs != [] {
      StrCmpReverse(r.date, revs[0].date);
      forall i | 0 <= i < |more| ensures StrCmp(more[i].date, more[0].date) <= 0 {
        if StrCmp(r.date, revs[0].date) > 0 && 0 < i < |revs| {
          assert more[i] == revs[i];
          StrCmpTransitive(revs[i].date, revs[0].date, r.date);
        }
      }
    }
  }

  /** `r` is declared, and every revision declared before it is earlier. */
  predicate IsFirstOfDate(declared: seq<Revision>, r: Revision) {
    exists i :: 0 <= i < |declared| && declared[i] == r && forall j :: 0 <= j < i ==> IsBefore(declared[j].date, r.date)
  }

  /** The revisions are kept, whole, and one with the latest date comes first: the one of them that is
      declared first. */
  lemma {:induction false} OrderedLatest(declared: seq<Revision>)
    ensures multiset(Ordered(declared)) == multiset(declared)
    ensures IsLatestFirst(Ordered(declared))
    ensures declared != [] ==> IsFirstOfDate(declared, Ordered(declared)[0])
    ensures declared != [] ==> forall r :: r in declared ==> !IsBefore(Ordered(declared)[0].date, r.date)
  {
    hide StrCmp, IsLatestFirst, IsFirstOfDate, Add;
    if declared == [] {
      EmptyLatest();
    } else {
      var front, r := declared[..|declared| - 1], declared[|declared| - 1];
      OrderedLatest(front);
      assert declared == front + [r];
      AddPermutes(Ordered(front), r);
      AddKeepsLatest(Ordered(front), r);
      FirstDeclared(front, r);
    }
    if declared != [] {
      NoneLater(declared);
    }
  }

  lemma NoneLater(declared: seq<Revision>)
    requires declared != [] && multiset(Ordered(declared)) == multiset(declared) && IsLatestFirst(Ordered(declared))
    ensures forall r :: r in declared ==> !IsBefore(Ordered(declared)[0].date, r.date)
  {
    hide StrCmp, Ordered, IsBefore;
    var revs := Ordered(declared);
    forall r | r in declared ensures !IsBefore(revs[0].date, r.date) {
      assert r in multiset(declared);
      assert r in revs;
      StrCmpIsOrder(r.date, revs[0].date);
    }
  }

  /** In the order of the calendar no revision is later than the one at index 0. */
  lemma LatestDay(declared: seq<Revision>)
    requires declared != [] && forall r :: r in declared ==> IsDate(r.date)
    ensures var first := Ordered(declared)[0];
            && IsDate(first.date)
            && forall r :: r in declared ==> |r.date| == 10 && !IsEarlier(DayOf(first.date), DayOf(r.date))
  {
    hide StrCmp, Ordered, IsDate, IsBefore, DayOf, IsEarlier;
    OrderedLatest(declared);
    var first := Ordered(declared)[0];
    var i :| 0 <= i < |declared| && declared[i] == first;
    assert first in declared;
    forall r | r in declared ensures |first.date| == |r.date| == 10 && !IsEarlier(DayOf(first.date), DayOf(r.date)) {
      LengthOfDate(first.date);
      LengthOfDate(r.date);
      StrCmpIsOrder(first.date, r.date);
      StrCmpOfDates(first.date, r.date);
    }
  }

  lemma LengthOfDate(date: string)
    requires IsDate(date)
    ensures |date| == 10
  {
  }

  lemma EmptyLatest()
    ensures IsLatestFirst([])
  {
  }

  lemma FirstDeclared(front: seq<Revision>, r: Revision)
    requires IsLatestFirst(Ordered(front)) && multiset(Ordered(front)) == multiset(front)
    requires front != [] ==> IsFirstOfDate(front, Ordered(front)[0])
    ensures IsFirstOfDate(front + [r], Add(Ordered(front), r)[0])
  {
    hide StrCmp, Ordered, IsBefore;
    var revs, declared := Ordered(front), front + [r];
    if front == [] {
      assert declared[0] == r;
    } else if StrCmp(r.date, revs[0].date) > 0 {
      var n := |front|;
      forall j | 0 <= j < n ensures IsBefore(declared[j].date, r.date) {
        assert front[j] in multiset(front);
        assert front[j] in revs;
        Before(front[j].date, revs[0].date, r.date);
        StrCmpIsOrder(front[j].date, r.date);
      }
      assert declared[n] == r;
    } else {
      var i :| 0 <= i < |front| && front[i] == revs[0] && forall j :: 0 <= j < i ==> IsBefore(front[j].date, revs[0].date);
      assert declared[i] == front[i];
      assert forall j :: 0 <= j < i ==> declared[j] == front[j];
    }
  }

  lemma Before(a: string, b: string, c: string)
    requires StrCmp(a, b) <= 0 && StrCmp(c, b) > 0
    ensures StrCmp(a, c) < 0
  {
    StrCmpReverse(b, c);
    StrCmpReverse(a, c);
    StrCmpReverse(a, b);
    if StrCmp(a, c) >= 0 {
      StrCmpTransitive(c, a, b);
    }
  }

  // ----- reading -----------------------------------------------------------------------------

  /** The revision statements of a module; a date that occurs twice is only reported. */
  method ReadRevisions(statements: seq<Statement>) returns (ok: bool, rev: array<Revision>)
    ensures ok <==> forall s :: s in statements ==> IsReadable(s)
    ensures ok ==> rev[..] == Ordered(Declared(statements))
  {
    hide Ordered, Declared, IsReadable, Add;
    rev := new Revision[|statements|](_ => Revision("", None, None));
    assert rev[..0] == Ordered(Declared(statements[..0])) by {
      NoRevisions();
    }
    for n := 0 to |statements|
      invariant forall s :: s in statements[..n] ==> IsReadable(s)
      invariant rev[..n] == Ordered(Declared(statements[..n]))
    {
      var s := statements[n];
      assert statements[..n + 1] == statements[..n] + [s] && s in statements;
      CheckReadable(s);
      if !IsDate(s.date) || |s.descriptions| > 1 || |s.references| > 1 || s.unknown {
        return false, rev;
      }
      ghost var revs := rev[..n];
      rev[n] := Revision(s.date, First(s.descriptions), First(s.references));
      assert rev[..n] == revs;
      LatestToFront(rev, n);
      OneMore(statements, n);
    }
    assert statements[..|statements|] == statements && rev[..|statements|] == rev[..];
    ok := true;
  }

  lemma NoRevisions()
    ensures Ordered(Declared([])) == []
  {
  }

  lemma CheckReadable(s: Statement)
    ensures IsReadable(s) <==> IsDate(s.date) && |s.descriptions| <= 1 && |s.references| <= 1 && !s.unknown
  {
  }

  lemma OneMore(statements: seq<Statement>, n: nat)
    requires n < |statements|
    ensures Ordered(Declared(statements[..n + 1])) == Add(Ordered(Declared(statements[..n])), RevisionOf(statements[n]))
  {
    hide Add;
    var d := Declared(statements[..n + 1]);
    assert d[..n] == Declared(statements[..n]);
  }

  /** The latest revision is kept at index 0; equal descriptions and references need no exchange. */
  method LatestToFront(rev: array<Revision>, n: nat)
    requires n < rev.Length
    modifies rev
    ensures rev[..n + 1] == Add(old(rev[..n]), old(rev[n]))
  {
    hide StrCmp;
    ghost var revs, r := rev[..n], rev[n];
    assert rev[..n + 1] == revs + [r];
    if n > 0 && StrCmp(rev[n].date, rev[0].date) > 0 {
      var date := rev[0].date;
      rev[0] := rev[0].(date := rev[n].date);
      rev[n] := rev[n].(date := date);
      if rev[0].dsc != rev[n].dsc {
        var dsc := rev[0].dsc;
        rev[0] := rev[0].(dsc := rev[n].dsc);
        rev[n] := rev[n].(dsc := dsc);
      }
      if rev[0].ref != rev[n].ref {
        var ref := rev[0].ref;
        rev[0] := rev[0].(ref := rev[n].ref);
        rev[n] := rev[n].(ref := ref);
      }
      assert rev[..n + 1] == [r] + revs[1..] + [revs[0]];
    }
  }
}

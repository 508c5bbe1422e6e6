/** decimal64 values: the decimal64 case of lyp_parse_value_ and parse_int in src/parser.c. */
module Decimal64 {
  import opened CStrings

  const DECSIZE: nat := 21
  const INT64_MIN: int := -0x8000_0000_0000_0000
  const INT64_MAX: int := 0x7fff_ffff_ffff_ffff

  // ----- numbers -----------------------------------------------------------------------------

  function Natural(digits: string): nat
    requires forall i :: 0 <= i < |digits| ==> IsDigit(digits[i])
  {
    if digits == [] then 0
    else
      var last := digits[|digits| - 1];
      assert IsDigit(last);
      10 * Natural(digits[..|digits| - 1]) + (last as int - '0' as int)
  }

  /** A digit has the value of its place in the row of digits, and stands for that many units behind ten
      times what is in front of it. */
  lemma NaturalIsDecimal(digits: string, i: nat)
    requires i < 10 && forall k :: 0 <= k < |digits| ==> IsDigit(digits[k])
    ensures IsDigit("0123456789"[i])
    ensures Natural(digits + ["0123456789"[i]]) == 10 * Natural(digits) + i
    ensures Natural("") == 0
  {
    var c := "0123456789"[i];
    assert c as int == '0' as int + i;
    assert (digits + [c])[..|digits|] == digits;
  }

  function Pow10(n: nat): (p: nat)
    ensures p > 0
  {
    if n == 0 then 1 else 10 * Pow10(n - 1)
  }

  function DigitRun(s: string): (n: nat)
    ensures n <= |s| && forall i :: 0 <= i < n ==> IsDigit(s[i])
    ensures n < |s| ==> !IsDigit(s[n])
  {
    if s == [] || !IsDigit(s[0]) then 0 else 1 + DigitRun(s[1..])
  }

  /** strtoll with base 10: the value, whether it was out of range, and where the conversion ended. */
  datatype Conversion = Conversion(value: int, overflow: bool, end: nat)

  function Strtoll(s: string): (c: Conversion)
    ensures c.end <= |s| && INT64_MIN <= c.value <= INT64_MAX
  {
    var a := Spaces(s);
    var b := if a < |s| && (s[a] == '-' || s[a] == '+') then a + 1 else a;
    var n := DigitRun(s[b..]);
    if n == 0 then Conversion(0, false, 0)
    else
      var m: int := Natural(s[b..][..n]);
      var v := if b > a && s[a] == '-' then -m else m;
      if v < INT64_MIN then Conversion(INT64_MIN, true, b + n)
      else if v > INT64_MAX then Conversion(INT64_MAX, true, b + n)
      else Conversion(v, false, b + n)
  }

  /** parse_int: the converted number, unless it is out of range or text other than white space follows. */
  method ParseInt(text: string, min: int, max: int) returns (num: Option<int>)
    ensures var c := Strtoll(text);
            num == if !c.overflow && min <= c.value <= max && c.end + Spaces(text[c.end..]) == |text| then Some(c.value) else None
  {
    var c := Strtoll(text);
    if c.overflow || c.value < min || c.value > max {
      return None;
    }
    var end := c.end;
    while end < |text| && IsSpace(text[end])
      invariant c.end <= end <= |text|
      invariant c.end + Spaces(text[c.end..]) == end + Spaces(text[end..])
    {
      assert text[end..][1..] == text[end + 1..];
      end := end + 1;
    }
    if end < |text| {
      return None;
    }
    return Some(c.value);
  }

  // ----- what the normalising loop does to a string ------------------------------------------

  /** The characters other than dots. */
  function Clean(t: string): (r: string)
    ensures |r| <= |t|
  {
    if t == [] then []
    else if t[|t| - 1] == '.' then Clean(t[..|t| - 1])
    else Clean(t[..|t| - 1]) + [t[|t| - 1]]
  }

  /** The number of characters behind the last dot. */
  function Run(t: string): (n: nat)
    ensures n <= |t|
  {
    if t == [] || t[|t| - 1] == '.' then 0 else 1 + Run(t[..|t| - 1])
  }

  predicate IsSignedDigits(r: string) {
    forall i :: 0 <= i < |r| ==> IsDigit(r[i]) || (i == 0 && r[i] == '-')
  }

  function Sign(r: string): nat {
    if r != [] && r[0] == '-' then 1 else 0
  }

  /** No more than `dig` characters follow a dot before the next one. */
  predicate RunsFit(t: string, dig: nat) {
    forall k :: 0 <= k < |t| && '.' in t[..k] && t[k] != '.' ==> Run(t[..k]) < dig
  }

  /** The zeros that are appended. */
  function Pad(t: string, dig: nat): nat {
    if '.' in t then (if Run(t) <= dig then dig - Run(t) else 0) else dig
  }

  function Zeros(n: nat): (z: string)
    ensures |z| == n && forall i :: 0 <= i < n ==> z[i] == '0'
  {
    seq(n, _ => '0')
  }

  /** What the loop accepts. */
  predicate IsAccepted(t: string, dig: nat) {
    IsSignedDigits(Clean(t)) && RunsFit(t, dig) && |Clean(t)| - Sign(Clean(t)) + Pad(t, dig) <= DECSIZE - 2
  }

  function Normalised(t: string, dig: nat): string {
    Clean(t) + Zeros(Pad(t, dig))
  }

  lemma PrefixStep(t: string, k: nat)
    requires k < |t|
    ensures t[..k + 1][..k] == t[..k] && t[..k + 1][k] == t[k]
    ensures Clean(t[..k + 1]) == if t[k] == '.' then Clean(t[..k]) else Clean(t[..k]) + [t[k]]
    ensures Run(t[..k + 1]) == if t[k] == '.' then 0 else Run(t[..k]) + 1
    ensures '.' in t[..k + 1] <==> '.' in t[..k] || t[k] == '.'
  {
    assert t[..k + 1] == t[..k] + [t[k]];
    assert t[..k + 1][..k] == t[..k];
  }

  lemma {:induction false} CleanPrefix(t: string, k: nat)
    requires k <= |t|
    ensures Clean(t[..k]) <= Clean(t)
    decreases |t|
  {
    hide Clean, Run;
    if k < |t| {
      PrefixStep(t, |t| - 1);
      assert t[..|t|] == t && t[..|t| - 1][..k] == t[..k];
      CleanPrefix(t[..|t| - 1], k);
    } else {
      assert t[..k] == t;
    }
  }

  /** A prefix that is out of form or already too long makes the whole string rejected. */
  lemma RejectedByPrefix(t: string, k: nat, dig: nat)
    requires k <= |t|
    requires !IsSignedDigits(Clean(t[..k])) || |Clean(t[..k])| - Sign(Clean(t[..k])) > DECSIZE - 2
    ensures !IsAccepted(t, dig)
  {
    CleanPrefix(t, k);
    var r, r' := Clean(t[..k]), Clean(t);
    assert forall i :: 0 <= i < |r| ==> r[i] == r'[i];
  }

  // ----- the normalising loop ----------------------------------------------------------------

  /** Before each turn of the loop: `k` characters of `t` are read, `i` characters are in `dec`, `d` of
      them digits, and `j` more may follow when a dot was `found`. */
  ghost predicate LoopState(t: string, k: int, dig: nat, dec: seq<char>, i: int, j: int, d: int, found: bool) {
    && 0 <= k <= |t| && 0 <= i <= |dec|
    && var r := Clean(t[..k]);
    && |r| <= i && dec[..i] == r + Zeros(i - |r|)
    && IsSignedDigits(r) && RunsFit(t[..k], dig) && Run(t[..k]) <= |t|
    && d == i - Sign(r) && d <= DECSIZE - 2
    && (k < |t| ==> i == |r| && (found <==> '.' in t[..k]))
    && ('.' in t[..k] ==> found) && (i > |r| ==> found)
    && j == (if found then (if '.' in t[..k] then dig - Run(t[..k]) else dig) - (i - |r|) else 0)
    && j >= 0
  }

  lemma StartState(t: string, dig: nat, dec: seq<char>)
    requires |dec| > 0
    ensures LoopState(t, 0, dig, dec, 0, 0, 0, false)
  {
    assert t[..0] == [];
  }

  lemma DotStep(t: string, k: int, dig: nat, dec: seq<char>, i: int, j: int, d: int, found: bool)
    requires LoopState(t, k, dig, dec, i, j, d, found) && k < |t| && t[k] == '.'
    ensures LoopState(t, k + 1, dig, dec, i, dig, d, true)
  {
    PrefixStep(t, k);
    RunsFitStep(t, k, dig);
  }

  lemma RunsFitStep(t: string, k: nat, dig: nat)
    requires k < |t| && RunsFit(t[..k], dig)
    ensures RunsFit(t[..k + 1], dig) <==> ('.' in t[..k] && t[k] != '.' ==> Run(t[..k]) < dig)
  {
    var u, v := t[..k], t[..k + 1];
    assert v[..k] == u;
    assert forall m :: 0 <= m < k ==> u[..m] == t[..m] == v[..m] && u[m] == v[m];
  }

  lemma ReadStep(t: string, k: int, dig: nat, dec: seq<char>, i: int, j: int, d: int, found: bool)
    requires LoopState(t, k, dig, dec, i, j, d, found) && k < |t| && t[k] != '.' && i < |dec|
    requires IsDigit(t[k]) || (i == 0 && t[k] == '-')
    requires !(found && j == 0)
    requires var d' := if IsDigit(t[k]) then d + 1 else d; d' <= DECSIZE - 2
    ensures LoopState(t, k + 1, dig, dec[i := t[k]], i + 1, if j > 0 then j - 1 else j, if IsDigit(t[k]) then d + 1 else d, found)
  {
    hide Clean, Run;
    var r, dec' := Clean(t[..k]), dec[i := t[k]];
    PrefixStep(t, k);
    RunsFitStep(t, k, dig);
    assert dec[..i] == r;
    assert dec'[..i + 1] == r + [t[k]];
  }

  lemma ZeroStep(t: string, dig: nat, dec: seq<char>, i: int, j: int, d: int)
    requires LoopState(t, |t|, dig, dec, i, j, d, true) && i < |dec| && j > 0 && d + 1 <= DECSIZE - 2
    ensures LoopState(t, |t|, dig, dec[i := '0'], i + 1, j - 1, d + 1, true)
  {
    hide Clean, Run;
    var r, dec' := Clean(t[..|t|]), dec[i := '0'];
    assert dec'[..i + 1] == dec[..i] + ['0'];
    assert Zeros(i - |r|) + ['0'] == Zeros(i + 1 - |r|);
  }

  lemma EndOfString(t: string, dig: nat, dec: seq<char>, i: int, d: int)
    requires LoopState(t, |t|, dig, dec, i, 0, d, false)
    ensures LoopState(t, |t|, dig, dec, i, dig, d, true)
  {
  }

  /** The loop ends with the terminator in place. */
  lemma Done(t: string, dig: nat, dec: seq<char>, i: int, d: int)
    requires LoopState(t, |t|, dig, dec, i, 0, d, true)
    ensures IsAccepted(t, dig) && dec[..i] == Normalised(t, dig)
  {
    hide Clean, Run;
    assert t[..|t|] == t;
  }

  lemma TooLong(t: string, dig: nat, dec: seq<char>, i: int, j: int, d: int)
    requires LoopState(t, |t|, dig, dec, i, j, d, true) && j > 0 && d + 1 > DECSIZE - 2
    ensures !IsAccepted(t, dig)
  {
    hide Clean, Run;
    assert t[..|t|] == t;
  }

  lemma BadCharacter(t: string, k: int, dig: nat, dec: seq<char>, i: int, j: int, d: int, found: bool)
    requires LoopState(t, k, dig, dec, i, j, d, found) && k < |t| && t[k] != '.'
    requires (!IsDigit(t[k]) && (i > 0 || t[k] != '-')) || (IsDigit(t[k]) && d + 1 > DECSIZE - 2) || (found && j == 0)
    ensures !IsAccepted(t, dig)
  {
    hide Clean, Run;
    PrefixStep(t, k);
    if found && j == 0 {
      assert !RunsFit(t, dig);
    } else {
      var r := Clean(t[..k + 1]);
      assert r[|r| - 1] == t[k];
      RejectedByPrefix(t, k + 1, dig);
    }
  }

  /** The loop that fills `dec`: digits and sign are copied, dots skipped, and behind the end of the
      string zeros appended until `dig` fraction digits are there. */
  method Normalise(s: string, start: nat, dig: nat) returns (ok: bool, dec: array<char>, n: nat)
    requires start <= |s| && 1 <= dig <= 18
    ensures dec.Length == DECSIZE
    ensures ok <==> IsAccepted(s[start..], dig)
    ensures ok ==> n < DECSIZE && dec[n] == NUL && dec[..n] == Normalised(s[start..], dig)
  {
    hide LoopState, IsAccepted, Normalised;
    ghost var t := s[start..];
    dec := new char[DECSIZE];
    dec[0] := NUL;
    ok, n := false, 0;
    var p: nat := start;  // the reading position c + i
    var i: nat, j: nat, d, found := 0, 0, 0, false;
    StartState(t, dig, dec[..]);
    while i < DECSIZE
      invariant start <= p <= |s| && i <= DECSIZE
      invariant LoopState(t, p - start, dig, dec[..], i, j, d, found)
      decreases |s| - p, DECSIZE - i
    {
      if p < |s| && s[p] == '.' {
        DotStep(t, p - start, dig, dec[..], i, j, d, found);
        found, j, p := true, dig, p + 1;
        continue;
      }
      if p == |s| {
        if !found {
          NothingFound(t, dig, dec[..], i, j, d);
          EndOfString(t, dig, dec[..], i, d);
          found, j := true, dig;
        }
        if j == 0 {
          Done(t, dig, dec[..], i, d);
          ghost var text := dec[..i];
          dec[i] := NUL;
          assert dec[..i] == text;
          return true, dec, i;
        }
        if d + 1 > DECSIZE - 2 {
          TooLong(t, dig, dec[..], i, j, d);
          return;
        }
        ZeroStep(t, dig, dec[..], i, j, d);
        d := d + 1;
        dec[i] := '0';
      } else {
        var digit := IsDigit(s[p]);
        if (!digit && (i > 0 || s[p] != '-')) || (digit && d + 1 > DECSIZE - 2) || (found && j == 0) {
          BadCharacter(t, p - start, dig, dec[..], i, j, d, found);
          return;
        }
        InState(t, p - start, dig, dec[..], i, j, d, found);
        ReadStep(t, p - start, dig, dec[..], i, j, d, found);
        d := if digit then d + 1 else d;
        dec[i] := s[p];
        p := p + 1;
      }
      if j > 0 {
        j := j - 1;
      }
      i := i + 1;
    }
    InState(t, p - start, dig, dec[..], i, j, d, found);
    assert false;
  }

  lemma NothingFound(t: string, dig: nat, dec: seq<char>, i: int, j: int, d: int)
    requires LoopState(t, |t|, dig, dec, i, j, d, false)
    ensures j == 0
  {
  }

  /** The digits written never fill the buffer. */
  lemma InState(t: string, k: int, dig: nat, dec: seq<char>, i: int, j: int, d: int, found: bool)
    requires LoopState(t, k, dig, dec, i, j, d, found)
    ensures i <= d + 1 <= DECSIZE - 1
  {
  }

  // ----- the whole case ----------------------------------------------------------------------

  /** The integer stored for a value, or None where it is refused. */
  function Stored(s: string, dig: nat): Option<int> {
    var t := s[Spaces(s)..];
    if TokenLength(t) > DECSIZE || !IsAccepted(t, dig) then None
    else
      var c := Strtoll(Normalised(t, dig));
      if c.overflow || c.end < |Normalised(t, dig)| then None else Some(c.value)
  }

  /** The decimal64 case up to the range restriction. */
  method ParseDecimal64(value: Option<string>, dig: nat) returns (num: Option<int>)
    requires 1 <= dig <= 18 && (value.Some? ==> IsCString(value.value))
    ensures num == if value.None? then None else Stored(value.value, dig)
  {
    if value.None? {
      return None;
    }
    hide IsAccepted, Normalised, Strtoll, Spaces, TokenLength;
    var s := value.value;
    assert s[0..] == s;
    var c := SkipSpaces(s, 0);
    var len := MeasureToken(s, c);
    if len > DECSIZE {
      return None;
    }
    var ok, dec, n := Normalise(s, c, dig);
    if !ok {
      return None;
    }
    num := ParseInt(dec[..n], INT64_MIN, INT64_MAX);
    NoTrailingSpace(s[c..], dig);
  }

  /** Nothing but digits, sign and zeros reaches parse_int. */
  lemma NoTrailingSpace(t: string, dig: nat)
    requires IsAccepted(t, dig)
    ensures forall e: nat :: e <= |Normalised(t, dig)| ==> Spaces(Normalised(t, dig)[e..]) == 0
  {
    var r := Normalised(t, dig);
    forall e: nat | e <= |r| ensures Spaces(r[e..]) == 0 {
      if e < |r| {
        assert r[e..][0] == r[e];
        assert e >= |Clean(t)| ==> r[e] == '0';
      }
    }
  }

  // ----- decimals in the form of the standard ------------------------------------------------

  predicate AreDigits(s: string) {
    forall i :: 0 <= i < |s| ==> IsDigit(s[i])
  }

  /** A decimal number: an optional sign, digits, and at most one dot with more digits. */
  function Text(neg: bool, whole: string, frac: Option<string>): string {
    (if neg then "-" else "") + whole + (if frac.Some? then "." + frac.value else "")
  }

  function Fraction(frac: Option<string>): string {
    if frac.Some? then frac.value else ""
  }

  lemma {:induction false} CleanConcat(a: string, b: string)
    ensures Clean(a + b) == Clean(a) + Clean(b)
    decreases |b|
  {
    if b == [] {
      assert a + b == a;
    } else {
      assert (a + b)[..|a + b| - 1] == a + b[..|b| - 1];
      CleanConcat(a, b[..|b| - 1]);
    }
  }

  lemma {:induction false} NoDots(s: string)
    requires '.' !in s
    ensures Clean(s) == s && Run(s) == |s|
  {
    if s != [] {
      var u := s[..|s| - 1];
      assert s == u + [s[|s| - 1]] && s[|s| - 1] in s && forall c :: c in u ==> c in s;
      NoDots(u);
    }
  }

  lemma {:induction false} RunBehindDot(a: string, b: string)
    requires '.' !in b
    ensures Run(a + "." + b) == |b|
    decreases |b|
  {
    var s := a + "." + b;
    if b != [] {
      assert s[..|s| - 1] == a + "." + b[..|b| - 1];
      assert s[|s| - 1] == b[|b| - 1] && b[|b| - 1] in b;
      assert forall c :: c in b[..|b| - 1] ==> c in b;
      RunBehindDot(a, b[..|b| - 1]);
    }
  }

  lemma DigitsAreNoDots(s: string)
    requires AreDigits(s)
    ensures '.' !in s
  {
  }

  lemma TextClean(neg: bool, whole: string, frac: Option<string>)
    requires AreDigits(whole) && AreDigits(Fraction(frac))
    ensures var t, f := Text(neg, whole, frac), Fraction(frac);
            var a := (if neg then "-" else "") + whole;
            && '.' !in a && '.' !in f && Clean(t) == a + f
            && (frac.Some? ==> t == a + "." + f && Run(t) == |f|) && (frac.None? ==> t == a)
  {
    hide Clean, Run;
    var f, t := Fraction(frac), Text(neg, whole, frac);
    var a := (if neg then "-" else "") + whole;
    DigitsAreNoDots(whole);
    DigitsAreNoDots(f);
    NoDots(a);
    NoDots(f);
    if frac.Some? {
      assert t == a + ("." + f) == a + "." + f;
      CleanConcat(a, "." + f);
      CleanConcat(".", f);
      CleanDot();
      RunBehindDot(a, f);
    } else {
      assert t == a && a + f == a;
    }
  }

  lemma CleanDot()
    ensures Clean(".") == ""
  {
  }

  /** What the loop makes of a decimal number. */
  lemma TextAccepted(neg: bool, whole: string, frac: Option<string>, dig: nat)
    requires AreDigits(whole) && AreDigits(Fraction(frac)) && 1 <= dig <= 18
    ensures var t, f := Text(neg, whole, frac), Fraction(frac);
            && Clean(t) == (if neg then "-" else "") + whole + f
            && (IsAccepted(t, dig) <==> |f| <= dig && |whole| + dig <= DECSIZE - 2)
            && (IsAccepted(t, dig) ==> Pad(t, dig) == dig - |f|)
            && |t| <= |whole| + |f| + 2
  {
    hide Clean, Run, RunsFit;
    var f, t := Fraction(frac), Text(neg, whole, frac);
    var sign := if neg then "-" else "";
    var r := sign + whole + f;
    TextClean(neg, whole, frac);
    SignedDigits(neg, whole + f);
    assert r == sign + (whole + f);
    if frac.Some? {
      RunsOfText(sign + whole, f, dig);
      assert '.' in t by { assert t[|sign + whole|] == '.'; }
    } else {
      RunsWithoutDot(t, dig);
    }
  }

  lemma SignedDigits(neg: bool, digits: string)
    requires AreDigits(digits)
    ensures var r := (if neg then "-" else "") + digits; IsSignedDigits(r) && Sign(r) == if neg then 1 else 0
  {
  }

  lemma RunsWithoutDot(t: string, dig: nat)
    requires '.' !in t
    ensures RunsFit(t, dig)
  {
    forall k | 0 <= k < |t| ensures '.' !in t[..k] {
      assert forall c :: c in t[..k] ==> c in t;
    }
  }

  /** There is no white space in a decimal text. */
  lemma TextIsToken(neg: bool, whole: string, frac: Option<string>)
    requires AreDigits(whole) && AreDigits(Fraction(frac))
    ensures Spaces(Text(neg, whole, frac)) == 0
  {
    var t := Text(neg, whole, frac);
    assert t == [] || t[0] == '-' || t[0] == '.' || IsDigit(t[0]);
  }

  lemma RunsOfText(a: string, f: string, dig: nat)
    requires '.' !in a && '.' !in f && dig > 0
    ensures RunsFit(a + "." + f, dig) <==> |f| <= dig
  {
    var t := a + "." + f;
    forall k | |a| < k < |t| ensures Run(t[..k]) == k - |a| - 1 && '.' in t[..k] && t[k] != '.' {
      var g := f[..k - |a| - 1];
      assert t[..k] == a + "." + g && forall c :: c in g ==> c in f;
      RunBehindDot(a, g);
      assert t[k] == f[k - |a| - 1] && t[k] in f;
    }
    forall k | 0 <= k <= |a| ensures '.' !in t[..k] {
      assert t[..k] == a[..k];
    }
    if |f| > dig {
      var k := |a| + 1 + dig;
      assert Run(t[..k]) == dig;
    }
  }

  lemma {:induction false} NaturalZeros(digits: string, n: nat)
    requires AreDigits(digits)
    ensures AreDigits(digits + Zeros(n)) && Natural(digits + Zeros(n)) == Natural(digits) * Pow10(n)
  {
    var s := digits + Zeros(n);
    if n == 0 {
      assert s == digits;
    } else {
      assert s[..|s| - 1] == digits + Zeros(n - 1);
      NaturalZeros(digits, n - 1);
      Scale(Natural(digits), Pow10(n - 1));
    }
  }

  lemma Scale(a: nat, p: nat)
    ensures 10 * (a * p) == a * (10 * p)
  {
  }

  /** strtoll on white space, an optional sign, digits and any other text behind them: the number and the place
      behind the digits, and where 64 bits do not hold it, the limit that is passed. */
  lemma StrtollReads(blanks: string, sign: string, digits: string, tail: string)
    requires (forall i :: 0 <= i < |blanks| ==> IsSpace(blanks[i])) && (sign == "" || sign == "-" || sign == "+")
    requires AreDigits(digits) && digits != "" && (tail == "" || !IsDigit(tail[0]))
    ensures var v := if sign == "-" then -(Natural(digits) as int) else Natural(digits) as int;
            Strtoll(blanks + (sign + (digits + tail)))
            == Conversion(if v < -9223372036854775808 then -9223372036854775808 else if v > 9223372036854775807 then 9223372036854775807 else v,
                          !(-9223372036854775808 <= v <= 9223372036854775807), |blanks| + |sign| + |digits|)
  {
    hide Natural, Spaces, DigitRun, Strtoll;
    var s := blanks + (sign + (digits + tail));
    var b := |blanks| + |sign|;
    SpacesThen(blanks, sign + (digits + tail));
    SignedDigitsAt(blanks, sign, digits + tail);
    DigitsThen(digits, tail);
    assert (digits + tail)[..|digits|] == digits;
    StrtollParts(s, |blanks|, sign, digits);
  }

  lemma SignedDigitsAt(blanks: string, sign: string, rest: string)
    requires rest != ""
    ensures var s := blanks + (sign + rest);
            s[|blanks| + |sign|..] == rest && s[|blanks|] == if sign == "" then rest[0] else sign[0]
  {
  }

  lemma StrtollParts(s: string, a: nat, sign: string, digits: string)
    requires Spaces(s) == a < |s| && (sign == "" || sign == "-" || sign == "+") && AreDigits(digits) && digits != ""
    requires a + |sign| <= |s| && DigitRun(s[a + |sign|..]) == |digits| && s[a + |sign|..][..|digits|] == digits
    requires s[a] == if sign == "" then digits[0] else sign[0]
    ensures var v := if sign == "-" then -(Natural(digits) as int) else Natural(digits) as int;
            Strtoll(s) == Conversion(if v < INT64_MIN then INT64_MIN else if v > INT64_MAX then INT64_MAX else v,
                                     !(INT64_MIN <= v <= INT64_MAX), a + |sign| + |digits|)
  {
    hide Natural, Spaces, DigitRun;
  }

  /** Without a digit behind the sign nothing is read. */
  lemma StrtollReadsNothing(blanks: string, sign: string, tail: string)
    requires (forall i :: 0 <= i < |blanks| ==> IsSpace(blanks[i])) && (sign == "-" || sign == "+")
    requires tail == "" || !IsDigit(tail[0])
    ensures Strtoll(blanks + (sign + tail)) == Conversion(0, false, 0)
  {
    var s := blanks + (sign + tail);
    SpacesThen(blanks, sign + tail);
    assert s[|blanks|] == sign[0] && s[|blanks| + 1..] == tail;
  }

  lemma {:induction false} SpacesThen(blanks: string, s: string)
    requires (forall i :: 0 <= i < |blanks| ==> IsSpace(blanks[i])) && (s == "" || !IsSpace(s[0]))
    ensures Spaces(blanks + s) == |blanks|
  {
    if blanks == "" {
      assert blanks + s == s;
    } else {
      assert (blanks + s)[1..] == blanks[1..] + s;
      SpacesThen(blanks[1..], s);
    }
  }

  lemma {:induction false} DigitsThen(digits: string, tail: string)
    requires AreDigits(digits) && (tail == "" || !IsDigit(tail[0]))
    ensures DigitRun(digits + tail) == |digits|
  {
    if digits == "" {
      assert digits + tail == tail;
    } else {
      assert (digits + tail)[1..] == digits[1..] + tail;
      DigitsThen(digits[1..], tail);
    }
  }

  /** strtoll on an optional sign and digits. */
  lemma StrtollDigits(neg: bool, digits: string)
    requires AreDigits(digits) && digits != []
    ensures var s := (if neg then "-" else "") + digits;
            var v := if neg then -(Natural(digits) as int) else Natural(digits) as int;
            Strtoll(s).overflow == !(INT64_MIN <= v <= INT64_MAX) && Strtoll(s).end == |s| && (!Strtoll(s).overflow ==> Strtoll(s).value == v)
  {
    hide Natural, Strtoll;
    var s := (if neg then "-" else "") + digits;
    StrtollReads("", if neg then "-" else "", digits, "");
    assert digits + "" == digits && "" + s == s;
  }

  /** The number a decimal text stands for. */
  function DecimalValue(neg: bool, whole: string, frac: Option<string>): real
    requires AreDigits(whole) && AreDigits(Fraction(frac))
  {
    var v := Natural(whole + Fraction(frac)) as real / Pow10(|Fraction(frac)|) as real;
    if neg then -v else v
  }

  lemma {:induction false} PowSum(m: nat, n: nat)
    ensures Pow10(m + n) == Pow10(m) * Pow10(n)
  {
    hide Pow10;
    if m > 0 {
      PowSum(m - 1, n);
      TenTimes(Pow10(m - 1), Pow10(n));
      TenMore(m + n);
      TenMore(m);
    } else {
      NoPower();
    }
  }

  lemma TenTimes(a: nat, b: nat)
    ensures 10 * (a * b) == (10 * a) * b
  {
  }

  lemma TenMore(n: nat)
    requires n > 0
    ensures Pow10(n) == 10 * Pow10(n - 1)
  {
  }

  lemma NoPower()
    ensures Pow10(0) == 1
  {
  }

  lemma ScaledValue(neg: bool, whole: string, frac: Option<string>, dig: nat)
    requires AreDigits(whole) && AreDigits(Fraction(frac)) && |Fraction(frac)| <= dig
    ensures var n := Natural(whole + Fraction(frac)) * Pow10(dig - |Fraction(frac)|);
            (if neg then -n else n) as real == DecimalValue(neg, whole, frac) * Pow10(dig) as real
  {
    hide Natural, Pow10;
    var f := |Fraction(frac)|;
    var a, p, q := Natural(whole + Fraction(frac)), Pow10(f), Pow10(dig - f);
    PowSum(f, dig - f);
    assert Pow10(dig) == p * q;
    Fractions(a as real, p as real, q as real);
    assert (a * q) as real == a as real * q as real;
    assert (p * q) as real == p as real * q as real;
  }

  lemma Fractions(a: real, p: real, q: real)
    requires p > 0.0
    ensures a / p * (p * q) == a * q
  {
    var x := a / p;
    assert x * p == a;
    assert x * (p * q) == x * p * q;
  }

  /** A decimal number with white space in front is stored exactly when it has at most `dig` fraction
      digits, its padded form has at most 19 digits and fits 64 bits; the integer is value times
      ten to the `dig`. */
  lemma DecimalStored(space: string, neg: bool, whole: string, frac: Option<string>, dig: nat)
    requires AreDigits(whole) && AreDigits(Fraction(frac)) && 1 <= dig <= 18
    requires forall i :: 0 <= i < |space| ==> IsSpace(space[i])
    ensures var r := Stored(space + Text(neg, whole, frac), dig);
            var scaled := DecimalValue(neg, whole, frac) * Pow10(dig) as real;
            && (r.Some? <==> |Fraction(frac)| <= dig && |whole| + dig <= 19 && -9223372036854775808.0 <= scaled <= 9223372036854775807.0)
            && (r.Some? ==> r.value as real == scaled)
  {
    hide Clean, Run, RunsFit, Strtoll, IsAccepted, TokenLength, DecimalValue, Text, Natural, Pow10, Spaces, Normalised, Pad;
    var t, f := Text(neg, whole, frac), Fraction(frac);
    TextIsToken(neg, whole, frac);
    SpacesInFront(space, t);
    TextAccepted(neg, whole, frac, dig);
    if IsAccepted(t, dig) {
      TextConverted(neg, whole, frac, dig);
      ScaledValue(neg, whole, frac, dig);
    }
  }

  lemma TextConverted(neg: bool, whole: string, frac: Option<string>, dig: nat)
    requires AreDigits(whole) && AreDigits(Fraction(frac)) && 1 <= dig <= 18
    requires IsAccepted(Text(neg, whole, frac), dig) && |Fraction(frac)| <= dig
    ensures var r, n := Normalised(Text(neg, whole, frac), dig), Natural(whole + Fraction(frac)) * Pow10(dig - |Fraction(frac)|);
            var v: int := if neg then -n else n;
            Strtoll(r).overflow == !(INT64_MIN <= v <= INT64_MAX) && Strtoll(r).end == |r| && (!Strtoll(r).overflow ==> Strtoll(r).value == v)
  {
    hide Clean, Run, RunsFit, Strtoll, IsAccepted, Text, Natural, Pow10;
    var t, f := Text(neg, whole, frac), Fraction(frac);
    TextAccepted(neg, whole, frac, dig);
    var digits := whole + f + Zeros(dig - |f|);
    NaturalZeros(whole + f, dig - |f|);
    assert |digits| >= dig;
    var sign := if neg then "-" else "";
    assert sign + whole + f + Zeros(dig - |f|) == sign + digits;
    StrtollDigits(neg, digits);
  }

  lemma {:induction false} SpacesInFront(space: string, t: string)
    requires forall i :: 0 <= i < |space| ==> IsSpace(space[i])
    requires Spaces(t) == 0
    ensures (space + t)[Spaces(space + t)..] == t
  {
    if space == [] {
      assert space + t == t;
    } else {
      assert (space + t)[1..] == space[1..] + t;
      SpacesInFront(space[1..], t);
    }
  }

  // ----- text that is not a decimal number ---------------------------------------------------

  /** No dot is followed by another one. */
  predicate HasOneDot(t: string) {
    forall i, j :: 0 <= i < j < |t| && t[i] == '.' ==> t[j] != '.'
  }

  predicate HasSignInFront(t: string) {
    forall i :: 0 < i < |t| ==> t[i] != '-'
  }

  /** An optional minus sign, digits, and at most one dot with digits behind it; either run may be empty. */
  ghost predicate IsText(t: string) {
    exists neg, whole, frac :: AreDigits(whole) && AreDigits(Fraction(frac)) && t == Text(neg, whole, frac)
  }

  /** A decimal number of section 9.3.1 of RFC 6020, without a plus sign: digits in front of the dot and
      behind it. */
  ghost predicate IsDecimal(t: string) {
    exists neg, whole, frac ::
      AreDigits(whole) && AreDigits(Fraction(frac)) && t == Text(neg, whole, frac) && whole != "" && frac != Some("")
  }

  lemma {:induction false} CleanKeeps(t: string, i: nat)
    requires i < |t| && t[i] != '.'
    ensures t[i] in Clean(t)
  {
    if i < |t| - 1 {
      assert t[..|t| - 1][i] == t[i];
      CleanKeeps(t[..|t| - 1], i);
    }
  }

  /** Nothing but digits, minus signs and dots is accepted. */
  lemma AcceptedCharacters(t: string, dig: nat)
    requires IsAccepted(t, dig)
    ensures forall i :: 0 <= i < |t| ==> IsDigit(t[i]) || t[i] == '-' || t[i] == '.'
  {
    hide Clean, RunsFit, Pad;
    forall i | 0 <= i < |t| && t[i] != '.' ensures IsDigit(t[i]) || t[i] == '-' {
      CleanKeeps(t, i);
    }
  }

  /** The parts of a text with at most one dot and no sign but in front. */
  lemma SplitText(t: string) returns (neg: bool, whole: string, frac: Option<string>)
    requires HasOneDot(t) && HasSignInFront(t)
    requires forall i :: 0 <= i < |t| ==> IsDigit(t[i]) || t[i] == '-' || t[i] == '.'
    ensures AreDigits(whole) && AreDigits(Fraction(frac)) && t == Text(neg, whole, frac)
  {
    hide Text;
    var s := Sign(t);
    neg := s == 1;
    assert t[..s] == if neg then "-" else "";
    if dot :| 0 <= dot < |t| && t[dot] == '.' {
      whole, frac := t[s..dot], Some(t[dot + 1..]);
      assert forall i :: s <= i < |t| && i != dot ==> IsDigit(t[i]);
      TextWithDot(t, neg, s, dot);
    } else {
      whole, frac := t[s..], None;
      TextWithoutDot(t, neg, s);
    }
  }

  lemma TextWithDot(t: string, neg: bool, s: nat, dot: nat)
    requires s <= dot < |t| && t[dot] == '.' && t[..s] == if neg then "-" else ""
    ensures t == Text(neg, t[s..dot], Some(t[dot + 1..]))
  {
    assert t == t[..s] + t[s..dot] + ("." + t[dot + 1..]);
  }

  lemma TextWithoutDot(t: string, neg: bool, s: nat)
    requires s <= |t| && t[..s] == if neg then "-" else ""
    ensures t == Text(neg, t[s..], None)
  {
    assert t == t[..s] + t[s..] + "";
  }

  lemma TextShape(neg: bool, whole: string, frac: Option<string>)
    requires AreDigits(whole) && AreDigits(Fraction(frac))
    ensures HasOneDot(Text(neg, whole, frac)) && HasSignInFront(Text(neg, whole, frac))
    ensures var t := Text(neg, whole, frac);
            whole != "" && frac != Some("") <==> Sign(t) < |t| && IsDigit(t[Sign(t)]) && IsDigit(t[|t| - 1])
  {
    var t := Text(neg, whole, frac);
    var a := (if neg then "-" else "") + whole;
    assert forall i :: 0 <= i < |a| ==> t[i] == a[i];
    assert frac.Some? ==> t[|a|] == '.' && forall i :: |a| < i < |t| ==> t[i] == frac.value[i - |a| - 1];
  }

  /** What is accepted has the form of a number exactly when it has at most one dot and no sign but in
      front. */
  lemma AcceptedIsText(t: string, dig: nat)
    requires IsAccepted(t, dig)
    ensures IsText(t) <==> HasOneDot(t) && HasSignInFront(t)
  {
    hide IsAccepted, Text;
    AcceptedCharacters(t, dig);
    if HasOneDot(t) && HasSignInFront(t) {
      var neg, whole, frac := SplitText(t);
    }
    if neg, whole, frac :| AreDigits(whole) && AreDigits(Fraction(frac)) && t == Text(neg, whole, frac) {
      TextShape(neg, whole, frac);
    }
  }

  /** It is a decimal number exactly when a digit stands behind the sign, and at the end, as well. */
  lemma AcceptedIsDecimal(t: string, dig: nat)
    requires IsAccepted(t, dig)
    ensures IsDecimal(t)
       <==> HasOneDot(t) && HasSignInFront(t) && Sign(t) < |t| && IsDigit(t[Sign(t)]) && IsDigit(t[|t| - 1])
  {
    hide IsAccepted, Text, HasOneDot, HasSignInFront;
    AcceptedCharacters(t, dig);
    if HasOneDot(t) && HasSignInFront(t) {
      var neg, whole, frac := SplitText(t);
      TextShape(neg, whole, frac);
    }
    if neg, whole, frac :| AreDigits(whole) && AreDigits(Fraction(frac)) && t == Text(neg, whole, frac)
                           && whole != "" && frac != Some("") {
      TextShape(neg, whole, frac);
    }
  }

  /** A plus sign is not accepted anywhere, though the standard allows it in front. */
  lemma PlusRefused(t: string, dig: nat)
    requires '+' in t
    ensures !IsAccepted(t, dig)
  {
    var i :| 0 <= i < |t| && t[i] == '+';
    if IsAccepted(t, dig) {
      AcceptedCharacters(t, dig);
    }
  }

  predicate HasOneSign(t: string) {
    forall i, j :: 0 <= i < j < |t| && t[i] == '-' ==> t[j] != '-'
  }

  predicate AreDotsAndSigns(t: string) {
    forall i :: 0 <= i < |t| ==> t[i] == '.' || t[i] == '-'
  }

  /** What the loop keeps of dots and signs. */
  lemma {:induction false} CleanSigns(t: string)
    requires AreDotsAndSigns(t) && HasOneSign(t)
    ensures Clean(t) == if '-' in t then "-" else ""
    ensures Run(t) == if t != "" && t[|t| - 1] == '-' then 1 else 0
  {
    hide Clean, Run, AreDotsAndSigns, HasOneSign;
    if t != "" {
      var u, last := t[..|t| - 1], t[|t| - 1];
      SignsOfFront(t);
      CleanSigns(u);
      PrefixStep(t, |t| - 1);
      assert t[..|t|] == t;
      assert last == '-' ==> Clean(t) == "" + [last] == "-" && Run(t) == 1;
    } else {
      NothingClean();
    }
  }

  lemma SignsOfFront(t: string)
    requires t != "" && AreDotsAndSigns(t) && HasOneSign(t)
    ensures var u := t[..|t| - 1];
            && AreDotsAndSigns(u) && HasOneSign(u) && ('-' in t <==> '-' in u || t[|t| - 1] == '-')
            && (t[|t| - 1] == '-' ==> '-' !in u && (u != "" ==> u[|u| - 1] == '.'))
            && (t[|t| - 1] == '.' || t[|t| - 1] == '-')
  {
    var u := t[..|t| - 1];
    assert t == u + [t[|t| - 1]] && forall i :: 0 <= i < |u| ==> u[i] == t[i];
  }

  lemma NothingClean()
    ensures Clean("") == "" && Run("") == 0
  {
  }

  lemma {:induction false} CleanHasSigns(t: string, i: nat, j: nat)
    requires i < j < |t| && t[i] == t[j] == '-'
    ensures |Clean(t)| > 1 && (AreDotsAndSigns(t) ==> Clean(t)[1] == '-')
    decreases |t|
  {
    var u := t[..|t| - 1];
    assert t == u + [t[|t| - 1]];
    if j < |t| - 1 {
      CleanHasSigns(u, i, j);
    } else {
      CleanKeeps(u, i);
      if AreDotsAndSigns(t) && |Clean(u)| > 1 {
        CleanKeepsSigns(u);
      }
    }
  }

  lemma {:induction false} CleanKeepsSigns(t: string)
    requires AreDotsAndSigns(t)
    ensures forall i :: 0 <= i < |Clean(t)| ==> Clean(t)[i] == '-'
  {
    if t != "" {
      CleanKeepsSigns(t[..|t| - 1]);
    }
  }

  lemma SignsFit(t: string, dig: nat)
    requires AreDotsAndSigns(t) && HasOneSign(t) && dig > 0
    ensures RunsFit(t, dig)
  {
    hide Clean, Run;
    forall k | 0 <= k < |t| && t[k] != '.' ensures Run(t[..k]) < dig {
      CleanSigns(t[..k]);
    }
  }

  /** Dots and signs are accepted exactly when there is one sign at most. */
  lemma SignsAccepted(t: string, dig: nat)
    requires AreDotsAndSigns(t) && 1 <= dig <= 18
    ensures IsAccepted(t, dig) <==> HasOneSign(t)
    ensures HasOneSign(t) ==>
              Normalised(t, dig) == (if '-' in t then "-" else "") + Zeros(if |t| > 1 && t[|t| - 1] == '-' then dig - 1 else dig)
  {
    hide Clean, Run, RunsFit;
    if HasOneSign(t) {
      CleanSigns(t);
      SignsFit(t, dig);
      assert t != "" && t[|t| - 1] == '-' ==> ('.' in t <==> |t| > 1) by {
        assert |t| > 1 && t[|t| - 1] == '-' ==> t[0] == '.';
      }
    } else {
      var i, j :| 0 <= i < j < |t| && t[i] == '-' && t[j] == '-';
      CleanHasSigns(t, i, j);
    }
  }

  lemma ZerosAreNothing(neg: bool, n: nat)
    ensures var s := (if neg then "-" else "") + Zeros(n); var c := Strtoll(s);
            && !c.overflow && c.value == 0 && (c.end == |s| <==> n > 0 || !neg)
  {
    hide Natural, Spaces, DigitRun;
    var s := (if neg then "-" else "") + Zeros(n);
    if n > 0 {
      NaturalZeros("", n);
      assert "" + Zeros(n) == Zeros(n);
      NoNumber();
      StrtollDigits(neg, Zeros(n));
    } else {
      assert s == if neg then "-" else "";
      NoConversion();
    }
  }

  lemma NoNumber()
    ensures Natural("") == 0
  {
  }

  lemma NoConversion()
    ensures Strtoll("") == Conversion(0, false, 0) && Strtoll("-") == Conversion(0, false, 0)
  {
  }

  /** A text without any digit is stored as 0 if it has one sign at most, unless with one fraction digit a
      sign behind a dot ends it, which leaves nothing to convert. */
  lemma NoDigitsStored(space: string, t: string, dig: nat)
    requires AreDotsAndSigns(t) && 1 <= dig <= 18 && forall i :: 0 <= i < |space| ==> IsSpace(space[i])
    ensures Stored(space + t, dig)
         == if |t| <= DECSIZE && HasOneSign(t) && !(dig == 1 && |t| > 1 && t[|t| - 1] == '-') then Some(0) else None
  {
    hide Strtoll, Spaces, TokenLength, IsAccepted, Normalised;
    NoSpaces(t);
    SpacesInFront(space, t);
    SignsAccepted(t, dig);
    if HasOneSign(t) {
      ZerosAreNothing('-' in t, if |t| > 1 && t[|t| - 1] == '-' then dig - 1 else dig);
    }
  }

  lemma NoSpaces(t: string)
    requires AreDotsAndSigns(t)
    ensures Spaces(t) == 0 && TokenLength(t) == |t|
  {
    assert forall i :: 0 <= i < |t| ==> !IsSpace(t[i]);
  }

  /** A minus sign behind a leading dot is taken for the sign of the number; it counts as a fraction digit. */
  lemma SignBehindDot(a: string, dig: nat)
    requires AreDigits(a) && 1 <= dig <= 18
    ensures IsAccepted(".-" + a, dig) <==> |a| + 1 <= dig
    ensures |a| + 1 <= dig ==> Normalised(".-" + a, dig) == "-" + a + Zeros(dig - |a| - 1)
  {
    hide Clean, Run, RunsFit;
    var b := "-" + a;
    var t: string := [] + "." + b;
    assert t == ".-" + a == "." + b && t[0] == '.';
    DigitsAreNoDots(a);
    assert '.' !in b;
    NoDots(b);
    RunBehindDot([], b);
    RunsOfText([], b, dig);
    CleanConcat(".", b);
    CleanDot();
    SignedDigits(true, a);
    assert Clean(t) == b && Run(t) == |a| + 1 && '.' in t;
    assert RunsFit(t, dig) <==> |a| + 1 <= dig;
  }

  /** With two fraction digits `.-5` is stored as the integer of -0.05. */
  lemma SignBehindDotExample()
    ensures Stored(".-5", 2) == Some(-5)
  {
    hide Strtoll, Spaces, TokenLength, IsAccepted, Normalised;
    var t := ".-5";
    assert t == ".-" + "5";
    SignBehindDot("5", 2);
    assert Zeros(0) == "" && "-" + "5" + "" == "-" + "5";
    StrtollDigits(true, "5");
    FiveIsFive();
    ShortToken(t);
    assert t[0..] == t;
  }

  lemma FiveIsFive()
    ensures Natural("5") == 5
  {
  }

  lemma ShortToken(t: string)
    requires t != [] && !IsSpace(t[0])
    ensures Spaces(t) == 0 && TokenLength(t) <= |t|
  {
  }

  /** A number with two dots, which section 9.3.1 of RFC 6020 does not allow, is accepted exactly when
      both runs of fraction digits fit; the first dot is then ignored. */
  lemma TwoDots(whole: string, a: string, b: string, dig: nat)
    requires AreDigits(whole) && AreDigits(a) && AreDigits(b) && 1 <= dig <= 18
    ensures var t := whole + "." + a + "." + b;
            && (IsAccepted(t, dig) <==> |a| <= dig && |b| <= dig && |whole| + |a| + dig <= DECSIZE - 2)
            && (IsAccepted(t, dig) ==> Normalised(t, dig) == Normalised(whole + a + "." + b, dig))
  {
    hide Clean, Run, RunsFit;
    var u := whole + "." + a;
    var t := u + "." + b;
    DigitsAreNoDots(whole);
    DigitsAreNoDots(a);
    DigitsAreNoDots(b);
    TextClean(false, whole, Some(a));
    assert Text(false, whole, Some(a)) == u && [] + whole == whole;
    NoDots(b);
    assert t == u + ("." + b) && whole + a + "." + b == (whole + a) + ("." + b);
    CleanConcat(u, "." + b);
    CleanConcat(whole + a, "." + b);
    CleanConcat(".", b);
    CleanDot();
    assert '.' !in whole + a;
    NoDots(whole + a);
    RunBehindDot(u, b);
    RunBehindDot(whole + a, b);
    TwoRuns(whole, a, b, dig);
    assert t[|u|] == '.' && (whole + a + "." + b)[|whole + a|] == '.';
    SignedDigits(false, whole + a + b);
    assert [] + (whole + a + b) == whole + a + b;
  }

  lemma TwoRuns(whole: string, a: string, b: string, dig: nat)
    requires '.' !in whole && '.' !in a && '.' !in b && dig > 0
    ensures RunsFit(whole + "." + a + "." + b, dig) <==> |a| <= dig && |b| <= dig
  {
    RunsOfText(whole, a, dig);
    RunsBehindLastDot(whole + "." + a, b, dig);
  }

  /** Only the last dot counts: what stands in front of it is accepted with its dots dropped, if no run of
      characters behind one of them is too long. */
  lemma OnlyLastDotCounts(a: string, b: string, dig: nat)
    requires '.' !in b && dig > 0
    ensures IsAccepted(a + "." + b, dig) <==> RunsFit(a, dig) && IsAccepted(Clean(a) + "." + b, dig)
    ensures Normalised(a + "." + b, dig) == Normalised(Clean(a) + "." + b, dig)
  {
    hide Clean, Run, RunsFit;
    var t, u := a + "." + b, Clean(a) + "." + b;
    DottedParts(a, b);
    CleanHasNoDot(a);
    NoDots(Clean(a));
    DottedParts(Clean(a), b);
    RunsBehindLastDot(a, b, dig);
    RunsOfText(Clean(a), b, dig);
    assert t[|a|] == '.' && u[|Clean(a)|] == '.';
  }

  lemma DottedParts(a: string, b: string)
    requires '.' !in b
    ensures Clean(a + "." + b) == Clean(a) + b && Run(a + "." + b) == |b|
  {
    hide Clean, Run;
    assert a + "." + b == a + ("." + b);
    CleanConcat(a, "." + b);
    CleanConcat(".", b);
    CleanDot();
    NoDots(b);
    RunBehindDot(a, b);
  }

  lemma {:induction false} CleanHasNoDot(t: string)
    ensures '.' !in Clean(t)
  {
    if t != "" {
      CleanHasNoDot(t[..|t| - 1]);
    }
  }

  lemma RunsBehindLastDot(u: string, b: string, dig: nat)
    requires '.' !in b && dig > 0
    ensures RunsFit(u + "." + b, dig) <==> RunsFit(u, dig) && |b| <= dig
  {
    hide Clean, Run;
    var t := u + "." + b;
    assert t[..|u|] == u;
    assert forall k :: 0 <= k < |u| ==> t[..k] == u[..k] && t[k] == u[k];
    forall k | |u| < k < |t| ensures Run(t[..k]) == k - |u| - 1 && '.' in t[..k] && t[k] != '.' {
      var g := b[..k - |u| - 1];
      assert t[..k] == u + "." + g && forall c :: c in g ==> c in b;
      RunBehindDot(u, g);
      assert t[k] == b[k - |u| - 1] && t[k] in b;
    }
    if |b| > dig {
      var k := |u| + 1 + dig;
      assert Run(t[..k]) == dig;
    }
  }
}

/** C strings and the C library's character classes.
    A C string is the sequence of its bytes without the terminating NUL; one byte is a `char` whose
    code is below 256. */
module CStrings {

  datatype Option<+T> = None | Some(value: T)

  const NUL: char := '\0'

  predicate IsCString(s: string) {
    forall i :: 0 <= i < |s| ==> s[i] != NUL
  }

  /** What strlen and strcmp see of a buffer: everything before the first NUL. */
  function CStr(s: string): (r: string)
    ensures r <= s && IsCString(r) && (|r| < |s| ==> s[|r|] == '\0')
    ensures IsCString(s) ==> r == s
  {
    if s == [] || s[0] == NUL then [] else [s[0]] + CStr(s[1..])
  }

  predicate IsDigit(c: char) {
    '0' <= c <= '9'
  }

  predicate IsAlpha(c: char) {
    'a' <= c <= 'z' || 'A' <= c <= 'Z'
  }

  /** isspace() in the C locale. */
  predicate IsSpace(c: char) {
    c == ' ' || 9 <= c as int <= 13
  }

  /** The value of a byte held in a signed `char`. */
  function Signed(c: char): int {
    if c as int < 128 then c as int else c as int - 256
  }

  /** The classes of the C locale, member by member. */
  lemma CharacterClasses(c: char)
    ensures IsDigit(c) <==> c in "0123456789"
    ensures IsAlpha(c) <==> c in "abcdefghijklmnopqrstuvwxyz" || c in "ABCDEFGHIJKLMNOPQRSTUVWXYZ"
    ensures IsSpace(c) <==> c in " \t\n\r" || c as int == 11 || c as int == 12
    ensures c as int < 256 ==> -128 <= Signed(c) <= 127 && (Signed(c) == c as int || Signed(c) == c as int - 256)
  {
    Letters(c);
    var digits := "0123456789";
    assert IsDigit(c) ==> c == digits[c as int - '0' as int];
  }

  lemma Letters(c: char)
    ensures IsAlpha(c) <==> c in "abcdefghijklmnopqrstuvwxyz" || c in "ABCDEFGHIJKLMNOPQRSTUVWXYZ"
  {
    var lower, upper := "abcdefghijklmnopqrstuvwxyz", "ABCDEFGHIJKLMNOPQRSTUVWXYZ";
    assert forall i :: 0 <= i < 26 ==> lower[i] as int == 'a' as int + i && upper[i] as int == 'A' as int + i;
    if 'a' <= c <= 'z' {
      assert c == lower[c as int - 'a' as int];
    }
    if 'A' <= c <= 'Z' {
      assert c == upper[c as int - 'A' as int];
    }
  }

  /** strchr(s, ':'), or the end of the string. */
  function ColonIndex(s: string): (n: nat)
    ensures n <= |s|
    ensures n < |s| ==> s[n] == ':'
    ensures forall i :: 0 <= i < n ==> s[i] != ':'
  {
    if s == [] || s[0] == ':' then 0 else 1 + ColonIndex(s[1..])
  }

  lemma ColonAfter(a: string, b: string)
    requires ':' !in a
    ensures ColonIndex(a) == |a|
    ensures ColonIndex(a + ":" + b) == |a|
  {
    var s := a + ":" + b;
    assert forall i :: 0 <= i < |a| ==> a[i] in a && s[i] == a[i];
    assert s[|a|] == ':';
  }

  // ----- words -------------------------------------------------------------------------------

  /** The white space a string begins with. */
  function Spaces(s: string): (n: nat)
    ensures n <= |s| && forall i :: 0 <= i < n ==> IsSpace(s[i])
    ensures n < |s| ==> !IsSpace(s[n])
  {
    if s == [] || !IsSpace(s[0]) then 0 else 1 + Spaces(s[1..])
  }

  /** The characters up to the first white space. */
  function TokenLength(s: string): (n: nat)
    ensures n <= |s| && forall i :: 0 <= i < n ==> !IsSpace(s[i])
    ensures n < |s| ==> IsSpace(s[n])
  {
    if s == [] || IsSpace(s[0]) then 0 else 1 + TokenLength(s[1..])
  }

  method SkipSpaces(s: string, start: nat) returns (c: nat)
    requires start <= |s|
    ensures c == start + Spaces(s[start..])
  {
    c := start;
    while c < |s| && IsSpace(s[c])
      invariant c <= |s| && c + Spaces(s[c..]) == start + Spaces(s[start..])
    {
      assert s[c..][1..] == s[c + 1..];
      c := c + 1;
    }
  }

  method MeasureToken(s: string, c: nat) returns (len: nat)
    requires c <= |s|
    ensures len == TokenLength(s[c..])
  {
    len := 0;
    while c + len < |s| && !IsSpace(s[c + len])
      invariant c + len <= |s| && len + TokenLength(s[c + len..]) == TokenLength(s[c..])
    {
      assert s[c + len..][1..] == s[c + len + 1..];
      len := len + 1;
    }
  }
}

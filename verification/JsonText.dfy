/** JSON string texts: json_print_string of src/printer_json.c, lyjson_parse_text of
    src/parser_json.c and pututf8 of src/parser.c. */
module JsonText {
  import opened CStrings

  const BUFSIZE: nat := 1024

  // ----- UTF-8 -------------------------------------------------------------------------------

  /** The bytes pututf8 writes for a number below 0x200000 (a negative number keeps its low byte). */
  function Utf8(value: int): (bytes: string)
    requires value < 0x20_0000
    ensures 1 <= |bytes| <= 4
    ensures |bytes| == 4 <==> value >= 0x1_0000
  {
    if value < 0x80 then
      [(value % 256) as char]
    else if value < 0x800 then
      [(0xc0 + value / 64) as char, (0x80 + value % 64) as char]
    else if value < 0x1_0000 then
      [(0xe0 + value / 4096) as char, (0x80 + value / 64 % 64) as char, (0x80 + value % 64) as char]
    else
      [(0xf0 + value / 262144) as char, (0x80 + value / 4096 % 64) as char, (0x80 + value / 64 % 64) as char, (0x80 + value % 64) as char]
  }

  /** Reading one UTF-8 sequence back, by the definition of the encoding (RFC 3629, section 3). */
  function DecodeUtf8(bytes: string): Option<int> {
    var n := |bytes|;
    if n == 1 && bytes[0] as int < 0x80 then
      Some(bytes[0] as int)
    else if n == 2 && 0xc0 <= bytes[0] as int < 0xe0 && IsContinuation(bytes[1]) then
      Some((bytes[0] as int - 0xc0) * 64 + (bytes[1] as int - 0x80))
    else if n == 3 && 0xe0 <= bytes[0] as int < 0xf0 && IsContinuation(bytes[1]) && IsContinuation(bytes[2]) then
      Some((bytes[0] as int - 0xe0) * 4096 + (bytes[1] as int - 0x80) * 64 + (bytes[2] as int - 0x80))
    else if n == 4 && 0xf0 <= bytes[0] as int < 0xf8
            && IsContinuation(bytes[1]) && IsContinuation(bytes[2]) && IsContinuation(bytes[3]) then
      Some((bytes[0] as int - 0xf0) * 262144 + (bytes[1] as int - 0x80) * 4096 + (bytes[2] as int - 0x80) * 64
           + (bytes[3] as int - 0x80))
    else
      None
  }

  predicate IsContinuation(c: char) {
    0x80 <= c as int < 0xc0
  }

  lemma Utf8Decodes(value: int)
    requires 0 <= value < 0x20_0000
    ensures DecodeUtf8(Utf8(value)) == Some(value)
  {
    if value >= 0x1_0000 {
      Split262144(value);
    } else if value >= 0x800 {
      Split4096(value);
    }
  }

  lemma Split4096(value: nat)
    ensures value == value / 4096 * 4096 + value / 64 % 64 * 64 + value % 64
  {
    var q := value / 64;
    assert value == q * 64 + value % 64;
    assert q == q / 64 * 64 + q % 64;
    assert q / 64 == value / 4096;
  }

  lemma Split262144(value: nat)
    ensures value == value / 262144 * 262144 + value / 4096 % 64 * 4096 + value / 64 % 64 * 64 + value % 64
  {
    var q := value / 64;
    assert value == q * 64 + value % 64;
    Split4096(q);
    assert q / 64 == value / 4096 && q / 4096 == value / 262144;
  }

  method PutUtf8(buf: array<char>, o: nat, value: int) returns (r: nat)
    requires value < 0x20_0000
    requires o + |Utf8(value)| <= buf.Length
    modifies buf
    ensures r == |Utf8(value)|
    ensures buf[..] == old(buf[..o]) + Utf8(value) + old(buf[o + r..])
  {
    if value < 0x80 {
      buf[o] := (value % 256) as char;
      r := 1;
    } else if value < 0x800 {
      buf[o] := (0xc0 + value / 64) as char;
      buf[o + 1] := (0x80 + value % 64) as char;
      r := 2;
    } else if value < 0x1_0000 {
      buf[o] := (0xe0 + value / 4096) as char;
      buf[o + 1] := (0x80 + value / 64 % 64) as char;
      buf[o + 2] := (0x80 + value % 64) as char;
      r := 3;
    } else {
      buf[o] := (0xf0 + value / 262144) as char;
      buf[o + 1] := (0x80 + value / 4096 % 64) as char;
      buf[o + 2] := (0x80 + value / 64 % 64) as char;
      buf[o + 3] := (0x80 + value % 64) as char;
      r := 4;
    }
  }

  // ----- escaping ----------------------------------------------------------------------------

  /** A byte the printer writes as text: printable and below 0x80, where `char` is not negative. */
  predicate IsPlain(c: char) {
    0x20 <= c as int < 0x80
  }

  predicate IsPlainText(text: string) {
    forall i :: 0 <= i < |text| ==> IsPlain(text[i])
  }

  function EscapeChar(c: char): (r: string) {
    if c == '"' then "\\\"" else if c == '\\' then "\\\\" else [c]
  }

  function Escape(text: string): (r: string)
    ensures |r| >= |text|
  {
    if text == [] then [] else EscapeChar(text[0]) + Escape(text[1..])
  }

  // ----- unescaping --------------------------------------------------------------------------

  /** One step of the reading loop: the bytes it appends and the number of bytes it consumes. */
  datatype Unit = Bad | Unit(bytes: string, used: nat)

  /** The number the loop makes of one character after `\u`, whether or not it is a hex digit. */
  function HexNibble(c: char): int {
    if IsDigit(c) then c as int - '0' as int
    else if Signed(c) > 'F' as int then 10 + (Signed(c) - 'a' as int)
    else 10 + (Signed(c) - 'A' as int)
  }

  function HexValue(s: string): int
    requires |s| == 4
  {
    16 * (16 * (16 * HexNibble(s[0]) + HexNibble(s[1])) + HexNibble(s[2])) + HexNibble(s[3])
  }

  function SimpleEscape(c: char): (r: Option<int>)
    ensures r.Some? ==> 0 < r.value < 0x80
  {
    match c
    case '"' => Some(0x22)
    case '\\' => Some(0x5c)
    case '/' => Some(0x2f)
    case 'b' => Some(0x08)
    case 'f' => Some(0x0c)
    case 'n' => Some(0x0a)
    case 'r' => Some(0x0d)
    case 't' => Some(0x09)
    case _ => None
  }

  function FirstUnit(s: string): (u: Unit)
    requires s != []
    ensures u.Unit? ==> 1 <= u.used <= |s| && 1 <= |u.bytes| <= 4
  {
    if s[0] == '\\' then
      if |s| == 1 then Bad
      else if SimpleEscape(s[1]).Some? then Unit(Utf8(SimpleEscape(s[1]).value), 2)
      else if s[1] == 'u' && |s| >= 6 && HexValue(s[2..6]) < 0x20_0000 then Unit(Utf8(HexValue(s[2..6])), 6)
      else Bad
    else if Signed(s[0]) < 0x20 then Bad
    else Unit([s[0]], 1)
  }

  /** A whole string body: the text it denotes and where its closing quote (or the end of data) is. */
  datatype Body = BadBody | Body(text: string, used: nat)

  function Unescape(s: string): (b: Body)
    ensures b.Body? ==> b.used <= |s| && (b.used == |s| || s[b.used] == '"')
    decreases |s|
  {
    if s == [] || s[0] == '"' then Body([], 0)
    else
      var u := FirstUnit(s);
      if u.Bad? then BadBody
      else Prepend(u, Unescape(s[u.used..]))
  }

  function Prepend(u: Unit, b: Body): Body
    requires u.Unit?
  {
    if b.BadBody? then BadBody else Body(u.bytes + b.text, u.used + b.used)
  }

  // ----- escapes of the standard -------------------------------------------------------------

  /** The value of a hexadecimal digit, upper or lower case. */
  function HexDigit(c: char): Option<int> {
    if '0' <= c <= '9' then Some(c as int - '0' as int)
    else if 'a' <= c <= 'f' then Some(10 + c as int - 'a' as int)
    else if 'A' <= c <= 'F' then Some(10 + c as int - 'A' as int)
    else None
  }

  /** The number written by hexadecimal digits. */
  function HexNumber(s: string): (n: Option<int>)
    ensures n.Some? ==> n.value >= 0
    ensures n.Some? ==> (|s| == 0 ==> n.value < 1) && (|s| == 1 ==> n.value < 0x10) && (|s| == 2 ==> n.value < 0x100)
    ensures n.Some? ==> (|s| == 3 ==> n.value < 0x1000) && (|s| == 4 ==> n.value < 0x1_0000)
  {
    if s == [] then Some(0)
    else
      var rest, last := HexNumber(s[..|s| - 1]), HexDigit(s[|s| - 1]);
      if rest.None? || last.None? then None else Some(16 * rest.value + last.value)
  }

  predicate IsSurrogate(n: int) {
    0xd800 <= n < 0xe000
  }

  predicate AreBytes(s: string) {
    forall i :: 0 <= i < |s| ==> s[i] as int < 256
  }

  /** Four characters as the loop reads them give the number they stand for if they are hexadecimal digits. */
  lemma HexValueIsNumber(s: string)
    requires |s| == 4 && HexNumber(s).Some?
    ensures HexValue(s) == HexNumber(s).value < 0x1_0000
  {
    var a, b, c := s[..1], s[..2], s[..3];
    assert c[..2] == b && b[..1] == a && a[..0] == [];
    assert HexNumber(c).Some? && HexDigit(s[3]).Some?;
    assert HexNumber(b).Some? && HexDigit(s[2]).Some?;
    assert HexNumber(a).Some? && HexDigit(s[1]).Some? && HexDigit(s[0]).Some?;
    assert HexNumber(a).value == HexDigit(s[0]).value;
    assert HexNumber(b).value == 16 * HexNumber(a).value + HexDigit(s[1]).value;
  }

  /** No four bytes give a number that pututf8 refuses. */
  lemma HexValueFits(s: string)
    requires |s| == 4 && AreBytes(s)
    ensures HexValue(s) < 0x20_0000
  {
    assert forall i :: 0 <= i < 4 ==> HexNibble(s[i]) <= 40;
  }

  /** `\\u` and four hexadecimal digits are read as the encoding of the number they write. */
  lemma HexEscapeIsCharacter(digits: string, rest: string)
    requires |digits| == 4 && HexNumber(digits).Some?
    ensures FirstUnit("\\u" + digits + rest) == Unit(Utf8(HexNumber(digits).value), 6)
    ensures DecodeUtf8(Utf8(HexNumber(digits).value)) == HexNumber(digits)
  {
    var s := "\\u" + digits + rest;
    assert s[2..6] == digits;
    HexValueIsNumber(digits);
    Utf8Decodes(HexNumber(digits).value);
  }

  /** The characters section 7 of RFC 7159 lists behind a reverse solidus, with what they stand for. */
  function StandardCharacter(c: char): Option<char> {
    if c == '"' || c == '\\' || c == '/' then Some(c)
    else if c == 'b' then Some(8 as char)
    else if c == 'f' then Some(12 as char)
    else if c == 'n' then Some('\n')
    else if c == 'r' then Some('\r')
    else if c == 't' then Some('\t')
    else None
  }

  /** An escape as section 7 of RFC 7159 says: a character and the length it is written in. A pair of
      surrogates writes one character; a single one writes none. */
  function StandardEscape(s: string): Unit
    requires s != [] && s[0] == '\\'
  {
    if |s| == 1 then Bad
    else if StandardCharacter(s[1]).Some? then Unit([StandardCharacter(s[1]).value], 2)
    else if s[1] != 'u' || |s| < 6 || HexNumber(s[2..6]).None? then Bad
    else
      var n := HexNumber(s[2..6]).value;
      if !IsSurrogate(n) then Unit(Utf8(n), 6)
      else if n < 0xdc00 && |s| >= 12 && s[6..8] == "\\u" && HexNumber(s[8..12]).Some? && 0xdc00 <= HexNumber(s[8..12]).value < 0xe000 then
        Unit(Utf8(0x1_0000 + (n - 0xd800) * 0x400 + (HexNumber(s[8..12]).value - 0xdc00)), 12)
      else Bad
  }

  /** An escape is read as the standard says exactly when it is not written with `\\u`, or is cut short, or
      has four hexadecimal digits outside the surrogates. */
  lemma EscapeIsStandard(s: string)
    requires s != [] && s[0] == '\\' && AreBytes(s)
    ensures FirstUnit(s) == StandardEscape(s)
       <==> |s| >= 6 && s[1] == 'u' ==> HexNumber(s[2..6]).Some? && !IsSurrogate(HexNumber(s[2..6]).value)
  {
    hide HexNumber, HexValue;
    if |s| >= 6 && s[1] == 'u' {
      var digits := s[2..6];
      HexValueFits(digits);
      if HexNumber(digits).Some? {
        HexValueIsNumber(digits);
      }
    }
  }

  /** The standard reads a pair of surrogates as one character, which takes four bytes; the loop reads two
      sequences of three bytes. */
  lemma SurrogatesStayApart(high: string, low: string)
    requires |high| == |low| == 4 && HexNumber(high).Some? && HexNumber(low).Some?
    requires IsSurrogate(HexNumber(high).value) && IsSurrogate(HexNumber(low).value)
    ensures Unescape("\\u" + high + "\\u" + low)
         == Body(Utf8(HexNumber(high).value) + Utf8(HexNumber(low).value), 12)
    ensures |Utf8(HexNumber(high).value)| == |Utf8(HexNumber(low).value)| == 3
  {
    hide FirstUnit;
    var s, t := "\\u" + high + "\\u" + low, "\\u" + low;
    assert s == "\\u" + high + t && s[6..] == t && t == "\\u" + low + "" && t[6..] == [];
    HexEscapeIsCharacter(high, t);
    HexEscapeIsCharacter(low, "");
    UnescapeOne(s);
    UnescapeOne(t);
    NothingToUnescape();
    assert Utf8(HexNumber(low).value) + [] == Utf8(HexNumber(low).value);
  }

  lemma NothingToUnescape()
    ensures Unescape([]) == Body([], 0)
  {
  }

  lemma UnescapeOne(s: string)
    requires s != [] && s[0] != '"' && FirstUnit(s).Unit?
    ensures Unescape(s) == Prepend(FirstUnit(s), Unescape(s[FirstUnit(s).used..]))
  {
    hide FirstUnit;
  }

  /** Characters that are no hexadecimal digits are read as some number all the same. */
  lemma AnyCharacterIsADigit()
    ensures HexNumber("00zz").None? && FirstUnit("\\u00zz") == Unit(Utf8(0x253), 6)
  {
    var s := "\\u00zz";
    assert s[2..6] == "00zz";
    assert HexDigit('z').None?;
  }

  // ----- the staging buffer ------------------------------------------------------------------

  /** How much of the buffer is filled behind the test for a full one. */
  function Flushed(o: nat): nat {
    if o > BUFSIZE - 3 then 0 else o
  }

  /** Reading `s` with `o` bytes staged, no byte is written behind the buffer. */
  predicate StaysInside(s: string, o: nat)
    decreases |s|
  {
    s == [] || s[0] == '"' ||
    var u := FirstUnit(s);
    u.Bad? || (Flushed(o) + |u.bytes| <= BUFSIZE && StaysInside(s[u.used..], Flushed(o) + |u.bytes|))
  }

  /** Where the loop is before a turn, and how many bytes are staged. */
  datatype Stage = Stage(at: nat, level: nat)

  predicate HasUnit(s: string) {
    s != [] && s[0] != '"' && FirstUnit(s).Unit?
  }

  /** The stage before turn `n`, if there is one. */
  function StageAt(s: string, n: nat): (r: Option<Stage>)
    ensures r.Some? ==> r.value.at <= |s|
  {
    if n == 0 then Some(Stage(0, 0))
    else
      var before := StageAt(s, n - 1);
      if before.None? || !HasUnit(s[before.value.at..]) then None
      else
        var u := FirstUnit(s[before.value.at..]);
        Some(Stage(before.value.at + u.used, Flushed(before.value.level) + |u.bytes|))
  }

  /** In turn `n` four bytes are written with 1021 staged. */
  predicate IsMet(s: string, n: nat) {
    var stage := StageAt(s, n);
    && stage.Some? && HasUnit(s[stage.value.at..])
    && |FirstUnit(s[stage.value.at..]).bytes| == 4 && stage.value.level == 1021
  }

  lemma {:induction false} NoLaterStage(s: string, n: nat, k: nat)
    requires n <= k && StageAt(s, n).None?
    ensures StageAt(s, k).None?
    decreases k
  {
    if n < k {
      NoLaterStage(s, n, k - 1);
    }
  }

  lemma {:induction false} InsideFrom(s: string, n: nat)
    requires StageAt(s, n).Some?
    ensures StaysInside(s[StageAt(s, n).value.at..], StageAt(s, n).value.level) ==> forall k: nat :: n <= k ==> !IsMet(s, k)
    ensures !StaysInside(s[StageAt(s, n).value.at..], StageAt(s, n).value.level) ==> exists k: nat :: n <= k && IsMet(s, k)
    decreases |s| - StageAt(s, n).value.at
  {
    hide FirstUnit, StageAt;
    var stage := StageAt(s, n).value;
    var t := s[stage.at..];
    NextStage(s, n);
    InsideStep(t, stage.level);
    if HasUnit(t) {
      var u := FirstUnit(t);
      assert t[u.used..] == s[stage.at + u.used..];
      InsideFrom(s, n + 1);
      FourAt(s, n);
    } else {
      forall k: nat | n <= k ensures !IsMet(s, k) {
        if n < k {
          NoLaterStage(s, n + 1, k);
        }
      }
    }
  }

  lemma NextStage(s: string, n: nat)
    requires StageAt(s, n).Some?
    ensures var stage := StageAt(s, n).value; var t := s[stage.at..];
            StageAt(s, n + 1) == if !HasUnit(t) then None
                                 else Some(Stage(stage.at + FirstUnit(t).used, Flushed(stage.level) + |FirstUnit(t).bytes|))
  {
    hide FirstUnit;
  }

  lemma InsideStep(t: string, o: nat)
    ensures StaysInside(t, o)
       <==> HasUnit(t) ==> var n := Flushed(o) + |FirstUnit(t).bytes|; n <= BUFSIZE && StaysInside(t[FirstUnit(t).used..], n)
  {
    hide FirstUnit;
  }

  /** The only write behind the buffer is the fourth byte with 1021 bytes staged. */
  lemma FourAt(s: string, n: nat)
    requires StageAt(s, n).Some? && HasUnit(s[StageAt(s, n).value.at..])
    ensures IsMet(s, n) <==> Flushed(StageAt(s, n).value.level) + |FirstUnit(s[StageAt(s, n).value.at..]).bytes| > BUFSIZE
  {
    hide FirstUnit, StageAt;
  }

  /** Every write stays inside the buffer exactly when no four bytes are met with 1021 bytes staged. */
  lemma InsideUnlessMet(s: string)
    ensures StaysInside(s, 0) <==> forall n: nat :: !IsMet(s, n)
  {
    hide StaysInside, IsMet;
    assert s[0..] == s;
    InsideFrom(s, 0);
  }

  /** Every escape that is read with `\\u` has hexadecimal digits. */
  predicate EscapesAreHex(s: string)
    decreases |s|
  {
    HasUnit(s) ==>
      (s[0] == '\\' && s[1] == 'u' ==> HexNumber(s[2..6]).Some?) && EscapesAreHex(s[FirstUnit(s).used..])
  }

  /** Then no write leaves the buffer. */
  lemma {:induction false} HexStaysInside(s: string, o: nat)
    requires EscapesAreHex(s)
    ensures StaysInside(s, o)
    decreases |s|
  {
    hide HexNumber, HexValue;
    if HasUnit(s) {
      if s[0] == '\\' && s[1] == 'u' {
        HexValueIsNumber(s[2..6]);
      }
      HexStaysInside(s[FirstUnit(s).used..], Flushed(o) + |FirstUnit(s).bytes|);
    }
  }

  /** What the printer writes has no such escape. */
  lemma {:induction false} EscapedIsHex(text: string, rest: string)
    requires IsPlainText(text)
    ensures EscapesAreHex(Escape(text) + "\"" + rest)
  {
    hide FirstUnit, HexNumber;
    var s := Escape(text) + "\"" + rest;
    if text == [] {
      assert s == "\"" + rest;
    } else {
      var e, tail := EscapeChar(text[0]), Escape(text[1..]) + "\"" + rest;
      assert s == e + tail && s[0] == e[0] && s[|e|..] == tail;
      assert |e| == 2 ==> s[1] == e[1];
      FirstUnitEscape(text[0], tail);
      EscapedIsHex(text[1..], rest);
    }
  }

  /** Reading back what the printer writes never leaves the buffer. */
  lemma PrintedStaysInside(text: string, rest: string)
    requires IsPlainText(text)
    ensures StaysInside(Escape(text) + "\"" + rest, 0)
  {
    EscapedIsHex(text, rest);
    HexStaysInside(Escape(text) + "\"" + rest, 0);
  }

  /** Bytes that are staged as they are. */
  predicate IsUnescaped(a: string) {
    forall i :: 0 <= i < |a| ==> IsPlain(a[i]) && a[i] != '"' && a[i] != '\\'
  }

  lemma {:induction false} UnescapedRun(a: string, t: string, o: nat)
    requires IsUnescaped(a) && o + |a| <= BUFSIZE - 3
    ensures StaysInside(a + t, o) == StaysInside(t, o + |a|)
    decreases |a|
  {
    hide StaysInside, FirstUnit;
    if a == [] {
      assert a + t == t;
    } else {
      assert (a + t)[0] == a[0] && (a + t)[1..] == a[1..] + t;
      assert (a + t)[..1] == a[..1];
      UnescapedUnit(a + t);
      InsideStep(a + t, o);
      UnescapedRun(a[1..], t, o + 1);
    }
  }

  lemma UnescapedUnit(s: string)
    requires s != [] && IsUnescaped(s[..1])
    ensures HasUnit(s) && FirstUnit(s) == Unit(s[..1], 1)
  {
    assert s[..1][0] == s[0];
  }

  /** 1021 plain bytes and then four that give a number of four bytes: the last one is written behind the
      buffer. */
  lemma FourBytesLeave(a: string)
    requires IsUnescaped(a) && |a| == 1021
    ensures !StaysInside(a + "\\uzzzz", 0)
  {
    hide HexValue, StaysInside;
    var t := "\\uzzzz";
    UnescapedRun(a, t, 0);
    assert t[2..6] == "zzzz";
    ValueOfZ();
    InsideStep(t, |a|);
  }

  lemma ValueOfZ()
    ensures HexValue("zzzz") == 0x2_5553
  {
  }

  // ----- the two loops -----------------------------------------------------------------------

  class Output {
    var text: string

    constructor ()
      ensures text == []
    {
      text := [];
    }

    method Print(s: string)
      modifies this
      ensures text == old(text) + s
    {
      text := text + s;
    }
  }

  method PrintString(out: Output, text: string) returns (n: nat)
    requires IsPlainText(text)
    modifies out
    ensures out.text == old(out.text) + "\"" + Escape(text) + "\""
    ensures n == |Escape(text)| + 2
  {
    out.Print("\"");
    var i := 0;
    n := 0;
    while i < |text|
      invariant i <= |text|
      invariant out.text + Escape(text[i..]) == old(out.text) + "\"" + Escape(text)
      invariant n + |Escape(text[i..])| == |Escape(text)|
    {
      assert text[i..][0] == text[i] && text[i..][1..] == text[i + 1..];
      assert out.text + Escape(text[i..]) == out.text + EscapeChar(text[i]) + Escape(text[i + 1..]);
      match text[i] {
        case '"' =>
          out.Print("\\\"");
          n := n + 2;
        case '\\' =>
          out.Print("\\\\");
          n := n + 2;
        case _ =>
          out.Print([text[i]]);
          n := n + 1;
      }
      i := i + 1;
    }
    assert out.text + Escape(text[i..]) == out.text;
    out.Print("\"");
    return n + 2;
  }

  /** The hex loop after `\u`. */
  method ReadHex(data: string, len: nat) returns (value: int)
    requires len + 4 <= |data|
    ensures value == HexValue(data[len..len + 4])
  {
    value := 0;
    var i := 0;
    while i < 4
      invariant 0 <= i <= 4
      invariant i == 1 ==> value == HexNibble(data[len])
      invariant i == 2 ==> value == 16 * HexNibble(data[len]) + HexNibble(data[len + 1])
      invariant i == 3 ==> value == 16 * (16 * HexNibble(data[len]) + HexNibble(data[len + 1])) + HexNibble(data[len + 2])
      invariant i == 4 ==> value == HexValue(data[len..len + 4])
      invariant i == 0 ==> value == 0
    {
      var c := data[len + i];
      var r := if IsDigit(c) then c as int - '0' as int
               else if Signed(c) > 'F' as int then 10 + (Signed(c) - 'a' as int)
               else 10 + (Signed(c) - 'A' as int);
      value := 16 * value + r;
      i := i + 1;
    }
  }

  /** The staged bytes are moved to the end of the result when less than three bytes are free. */
  method FlushWhenFull(text: string, buf: array<char>, o: nat) returns (longer: string, o': nat)
    requires o <= buf.Length
    ensures o' == Flushed(o) && o' + 3 <= BUFSIZE
    ensures longer + buf[..o'] == text + buf[..o]
  {
    if o > BUFSIZE - 3 {
      return text + buf[..o], 0;
    }
    return text, o;
  }

  /** The escape switch, entered at the reverse solidus; `next` is behind the escape sequence. */
  method ReadEscape(data: string, len: nat) returns (value: Option<int>, next: nat)
    requires len < |data| && data[len] == '\\'
    ensures value.None? ==> FirstUnit(data[len..]).Bad?
    ensures value.Some? ==> value.value < 0x20_0000 && len <= next <= |data|
    ensures value.Some? ==> FirstUnit(data[len..]) == Unit(Utf8(value.value), next - len)
  {
    next := len + 1;
    ghost var s := data[len..];
    if next == |data| {
      return None, next;
    }
    assert s[1] == data[next];
    value := SimpleEscape(data[next]);
    if value.Some? {
      next := next + 1;
    } else if data[next] == 'u' {
      next := next + 1;
      if next + 4 > |data| {
        return None, next;
      }
      var n := ReadHex(data, next);
      assert s[2..6] == data[next..next + 4];
      if n >= 0x20_0000 {
        return None, next;
      }
      value, next := Some(n), next + 4;
    }
  }

  /** The loop body behind the flush: one byte or escape sequence is read into the staging buffer. */
  method StoreUnit(data: string, len: nat, buf: array<char>, o: nat) returns (ok: bool, o': nat, next: nat)
    requires len < |data|
    requires o + 4 <= buf.Length
    modifies buf
    ensures ok == FirstUnit(data[len..]).Unit?
    ensures ok ==> next == len + FirstUnit(data[len..]).used <= |data|
    ensures o' <= buf.Length
    ensures ok ==> buf[..o'] == old(buf[..o]) + FirstUnit(data[len..]).bytes
    ensures ok ==> o' == o + |FirstUnit(data[len..]).bytes|
  {
    ghost var done := buf[..o];
    if data[len] == '\\' {
      var value;
      value, next := ReadEscape(data, len);
      if value.None? {
        return false, o, next;
      }
      var r := PutUtf8(buf, o, value.value);
      assert buf[..][..o + r] == done + Utf8(value.value);
      return true, o + r, next;
    } else if Signed(data[len]) < 0x20 {
      return false, o, len;
    } else {
      buf[o] := data[len];
      assert buf[..o + 1] == done + [data[len]];
      return true, o + 1, len + 1;
    }
  }

  /** lyjson_parse_text. The array has one byte more than the buffer, so that the write behind its end has
      a place to go; `inside` tells that there was none. */
  method ParseText(data: string) returns (result: Option<string>, len: nat, ghost inside: bool)
    ensures Unescape(data).BadBody? ==> result.None?
    ensures Unescape(data).Body? ==> result == Some(Unescape(data).text) && len == Unescape(data).used
    ensures inside <==> StaysInside(data, 0)
  {
    hide Unescape, FirstUnit, StaysInside;
    var buf := new char[BUFSIZE + 1];
    var text: string := [];
    var o: nat := 0;
    len, inside := 0, true;
    ghost var done: string := [];
    assert data[0..] == data;
    while len < |data| && data[len] != '"'
      invariant len <= |data|
      invariant o <= buf.Length && text + buf[..o] == done
      invariant Unescape(data) == Prepended(done, len, Unescape(data[len..]))
      invariant StaysInside(data, 0) <==> inside && StaysInside(data[len..], o)
      decreases |data| - len
    {
      InsideStep(data[len..], o);
      text, o := FlushWhenFull(text, buf, o);
      ghost var start, kept := len, buf[..o];
      var ok;
      ok, o, len := StoreUnit(data, len, buf, o);
      if !ok {
        UnescapeBad(data, start);
        return None, len, inside;
      }
      inside := inside && o <= BUFSIZE;
      assert data[start..][FirstUnit(data[start..]).used..] == data[len..];
      assert text + (kept + FirstUnit(data[start..]).bytes) == text + kept + FirstUnit(data[start..]).bytes;
      UnescapeStep(data, start, done);
      done := done + FirstUnit(data[start..]).bytes;
    }
    UnescapeEnd(data, len);
    InsideStep(data[len..], o);
    assert done + [] == done;
    return Some(text + buf[..o]), len, inside;
  }

  lemma UnescapeBad(data: string, len: nat)
    requires len < |data| && data[len] != '"' && FirstUnit(data[len..]).Bad?
    ensures Unescape(data[len..]).BadBody?
  {
  }

  lemma UnescapeEnd(data: string, len: nat)
    requires len == |data| || (len < |data| && data[len] == '"')
    ensures Unescape(data[len..]) == Body([], 0)
  {
  }

  /** What is known of the whole body after `done` was read from its first `used` bytes. */
  ghost function Prepended(done: string, used: nat, rest: Body): Body {
    if rest.BadBody? then BadBody else Body(done + rest.text, used + rest.used)
  }

  lemma UnescapeStep(data: string, len: nat, done: string)
    requires len < |data| && data[len] != '"' && FirstUnit(data[len..]).Unit?
    ensures var u := FirstUnit(data[len..]);
            Prepended(done, len, Unescape(data[len..]))
            == Prepended(done + u.bytes, len + u.used, Unescape(data[len + u.used..]))
  {
    hide FirstUnit;
    var u := FirstUnit(data[len..]);
    var rest := Unescape(data[len + u.used..]);
    assert data[len..][u.used..] == data[len + u.used..];
    if rest.Body? {
      assert done + (u.bytes + rest.text) == done + u.bytes + rest.text;
    }
  }

  // ----- printing then reading ---------------------------------------------------------------

  lemma FirstUnitEscape(c: char, tail: string)
    requires IsPlain(c)
    ensures FirstUnit(EscapeChar(c) + tail) == Unit([c], |EscapeChar(c)|)
  {
    var s := EscapeChar(c) + tail;
    assert s[0] == EscapeChar(c)[0];
    if c == '"' || c == '\\' {
      assert s[1] == c;
    }
  }

  /** Reading back what json_print_string wrote: the text, up to the closing quote. */
  lemma {:induction false} UnescapeEscape(text: string, rest: string)
    requires IsPlainText(text)
    ensures Unescape(Escape(text) + "\"" + rest) == Body(text, |Escape(text)|)
  {
    hide FirstUnit;
    var s := Escape(text) + "\"" + rest;
    if text == [] {
      assert s == "\"" + rest;
    } else {
      var e, tail := EscapeChar(text[0]), Escape(text[1..]) + "\"" + rest;
      assert s == e + tail;
      FirstUnitEscape(text[0], tail);
      assert s[0] == e[0];
      assert s[|e|..] == tail;
      UnescapeEscape(text[1..], rest);
      assert text == [text[0]] + text[1..];
    }
  }

  /** The body ends at the first unescaped quote, so what follows the quote is irrelevant. */
  lemma {:induction false} UnescapeLocal(s: string, rest: string)
    requires Unescape(s).Body? && Unescape(s).used == |s|
    ensures Unescape(s + "\"" + rest) == Unescape(s)
    decreases |s|
  {
    var t := s + "\"" + rest;
    if s == [] {
      assert t[0] == '"';
    } else {
      var u := FirstUnit(s);
      assert t[0] == s[0];
      if |s| >= 2 { assert t[1] == s[1]; }
      if |s| >= 6 { assert t[2..6] == s[2..6]; }
      assert FirstUnit(t) == u;
      assert t[u.used..] == s[u.used..] + "\"" + rest;
      UnescapeLocal(s[u.used..], rest);
    }
  }
}

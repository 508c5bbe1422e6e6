/** Values of a bits type: the bits case of lyp_parse_value_ in src/parser.c. */
module BitValues {
  import opened CStrings
  import Prefixes
  import BitNumbering

  /** The names of a table in which entries are told apart by name. */
  predicate IsTable(names: seq<string>) {
    && (forall i :: 0 <= i < |names| ==> Prefixes.IsIdentifier(names[i]))
    && (forall i, j :: 0 <= i < j < |names| ==> names[i] != names[j])
  }

  // ----- words -------------------------------------------------------------------------------

  /** The words of a text, split at white space. */
  function Words(s: string): (w: seq<string>)
    ensures forall i :: 0 <= i < |w| ==> w[i] != []
    decreases |s|
  {
    var t := s[Spaces(s)..];
    if t == [] then [] else [t[..TokenLength(t)]] + Words(t[TokenLength(t)..])
  }

  predicate EndsInSpace(s: string) {
    s != [] && IsSpace(s[|s| - 1])
  }

  // ----- what a value means ------------------------------------------------------------------

  predicate IsIncreasing(a: seq<nat>) {
    forall k, l :: 0 <= k < l < |a| ==> a[k] < a[l]
  }

  /** The words are names of the table at the strictly increasing indices `at`, all at least `from`. */
  predicate IsPlacement(words: seq<string>, names: seq<string>, from: nat, at: seq<nat>) {
    && |at| == |words|
    && (forall k :: 0 <= k < |at| ==> from <= at[k] < |names| && names[at[k]] == words[k])
    && IsIncreasing(at)
  }

  /** The least index from `from` on that carries `word`. */
  function Find(names: seq<string>, from: nat, word: string): (i: nat)
    requires from <= |names|
    ensures from <= i <= |names|
    ensures i < |names| ==> names[i] == word
    ensures forall k :: from <= k < i ==> names[k] != word
    decreases |names| - from
  {
    if from == |names| || names[from] == word then from else Find(names, from + 1, word)
  }

  /** The indices found when each search starts behind the entry found before. */
  function Place(words: seq<string>, names: seq<string>, from: nat): (at: Option<seq<nat>>)
    requires from <= |names|
    ensures at.Some? ==> |at.value| == |words| && forall k :: 0 <= k < |words| ==> from <= at.value[k] < |names|
    decreases |words|
  {
    if words == [] then Some([])
    else
      var i := Find(names, from, words[0]);
      if i == |names| then None
      else
        var rest := Place(words[1..], names, i + 1);
        if rest.None? then None else Some([i] + rest.value)
  }

  lemma {:induction false} PlaceSound(words: seq<string>, names: seq<string>, from: nat)
    requires from <= |names| && Place(words, names, from).Some?
    ensures IsPlacement(words, names, from, Place(words, names, from).value)
  {
    if words != [] {
      var i := Find(names, from, words[0]);
      PlaceSound(words[1..], names, i + 1);
      var rest, at := Place(words[1..], names, i + 1).value, Place(words, names, from).value;
      assert at == [i] + rest;
      forall k | 0 < k < |at| ensures at[k] == rest[k - 1] && words[k] == words[1..][k - 1] && i < at[k] {
      }
    }
  }

  lemma {:induction false} PlaceComplete(words: seq<string>, names: seq<string>, from: nat, at: seq<nat>)
    requires from <= |names| && IsTable(names) && IsPlacement(words, names, from, at)
    ensures Place(words, names, from) == Some(at)
  {
    if words != [] {
      var i := Find(names, from, words[0]);
      assert names[at[0]] == words[0] && i <= at[0];
      assert i == at[0];
      forall k | 0 <= k < |at[1..]| ensures at[1..][k] > i && words[1..][k] == words[k + 1] {
      }
      PlaceComplete(words[1..], names, i + 1, at[1..]);
      assert at == [i] + at[1..];
    } else {
      assert at == [];
    }
  }

  function Elements(at: seq<nat>): set<nat> {
    set i | i in at
  }

  /** The entries a value sets, by slot: None where the value is refused. */
  function Selected(value: Option<string>, names: seq<string>): (set_: Option<set<nat>>)
  {
    if value.None? then Some({})
    else if EndsInSpace(value.value) || Place(Words(value.value), names, 0).None? then None
    else Some(Elements(Place(Words(value.value), names, 0).value))
  }

  // ----- the parsing loop --------------------------------------------------------------------

  lemma WordsStep(s: string)
    requires Spaces(s) < |s|
    ensures var t := s[Spaces(s)..]; var n := TokenLength(t);
            && n > 0 && Words(s) == [t[..n]] + Words(t[n..])
            && (EndsInSpace(s) <==> EndsInSpace(t[n..]))
  {
    hide Words, Spaces, TokenLength;
    WordsUnfold(s);
    var t := s[Spaces(s)..];
    var n := TokenLength(t);
    assert t[0] == s[Spaces(s)] && t[|t| - 1] == s[|s| - 1];
    assert n < |t| ==> t[n..][|t| - n - 1] == t[|t| - 1];
  }

  lemma WordsUnfold(s: string)
    requires Spaces(s) < |s|
    ensures var t := s[Spaces(s)..]; Words(s) == [t[..TokenLength(t)]] + Words(t[TokenLength(t)..])
  {
    hide Spaces, TokenLength;
  }

  /** The search for the entry of a word; it goes on from where the last one stopped. A name of which strncmp
      finds the first |word| characters equal, and that ends there, is the word. */
  method FindBit(names: seq<string>, from: nat, word: string) returns (i: nat)
    requires from <= |names|
    ensures i == Find(names, from, word)
  {
    i := from;
    while i < |names| && names[i] != word
      invariant from <= i <= |names|
      invariant Find(names, from, word) == Find(names, i, word)
      decreases |names| - i
    {
      i := i + 1;
    }
  }

  /** The slots hold a pointer exactly for the indices in `at`. */
  ghost predicate AreSlots(slots: seq<Option<nat>>, at: seq<nat>) {
    forall i :: 0 <= i < |slots| ==> slots[i] == if i in at then Some(i) else None
  }

  lemma SetSlot(slots: seq<Option<nat>>, at: seq<nat>, i: nat)
    requires AreSlots(slots, at) && i < |slots|
    ensures AreSlots(slots[i := Some(i)], at + [i])
  {
  }

  /** The state of the loop: `at` placed so far, `rest` unread, the next search starting at `i`. */
  ghost predicate LoopState(whole: string, names: seq<string>, at: seq<nat>, rest: string, i: nat) {
    && i <= |names|
    && (EndsInSpace(whole) <==> EndsInSpace(rest))
    && Place(Words(whole), names, 0)
       == (var more := Place(Words(rest), names, i); if more.None? then None else Some(at + more.value))
  }

  lemma StartState(s: string, names: seq<string>)
    ensures LoopState(s, names, [], s, 0)
  {
    hide Words, Place;
    var more := Place(Words(s), names, 0);
    assert more.Some? ==> [] + more.value == more.value;
  }

  lemma NextState(s: string, names: seq<string>, at: seq<nat>, rest: string, i: nat)
    requires LoopState(s, names, at, rest, i) && Spaces(rest) < |rest|
    ensures var t := rest[Spaces(rest)..]; var n := TokenLength(t);
            var j := Find(names, i, t[..n]);
            && (j == |names| ==> Place(Words(s), names, 0).None?)
            && (j < |names| ==> LoopState(s, names, at + [j], t[n..], j + 1))
  {
    hide Words, Find, Spaces, TokenLength;
    WordsStep(rest);
    var t := rest[Spaces(rest)..];
    var n := TokenLength(t);
    var w := Words(t[n..]);
    assert Words(rest)[1..] == w;
    var j := Find(names, i, t[..n]);
    if j < |names| {
      var more := Place(w, names, j + 1);
      assert more.Some? ==> at + ([j] + more.value) == at + [j] + more.value;
    }
  }

  lemma EndState(s: string, names: seq<string>, at: seq<nat>, i: nat)
    requires LoopState(s, names, at, "", i)
    ensures !EndsInSpace(s) && Place(Words(s), names, 0) == Some(at)
  {
    assert Words("") == [];
    assert at + [] == at;
  }

  /** Behind the last word white space is read as a word of no length, which no entry has. */
  lemma TrailingSpace(s: string, names: seq<string>, at: seq<nat>, rest: string, i: nat)
    requires LoopState(s, names, at, rest, i) && Spaces(rest) == |rest| > 0 && IsTable(names)
    ensures Find(names, i, rest[|rest|..][..TokenLength(rest[|rest|..])]) == |names|
    ensures EndsInSpace(s)
  {
    hide Find;
    var j := Find(names, i, []);
    assert rest[|rest|..][..TokenLength(rest[|rest|..])] == [];
  }

  lemma EmptySlots(slots: seq<Option<nat>>)
    requires forall i :: 0 <= i < |slots| ==> slots[i] == None
    ensures AreSlots(slots, [])
  {
  }

  lemma SlotsFor(slots: seq<Option<nat>>, at: seq<nat>, bits: set<nat>)
    requires AreSlots(slots, at) && forall i :: i in bits <==> i in at
    ensures forall i :: 0 <= i < |slots| ==> slots[i] == if i in bits then Some(i) else None
  {
  }

  /** One word of the value: the slot of its entry is set, or there is no such entry from `i` on. */
  method ParseWord(s: string, names: seq<string>, c: nat, i: nat, slots: array<Option<nat>>, ghost at: seq<nat>)
    returns (found: bool, next: nat, bit: nat)
    requires c < |s| && IsTable(names) && slots.Length == |names|
    requires LoopState(s, names, at, s[c..], i) && AreSlots(slots[..], at)
    modifies slots
    ensures found ==> c < next <= |s| && bit < |names| && LoopState(s, names, at + [bit], s[next..], bit + 1) && AreSlots(slots[..], at + [bit])
    ensures !found ==> Selected(Some(s), names).None?
  {
    hide Words, Place, Find, Spaces, TokenLength, LoopState, AreSlots, IsTable, EndsInSpace;
    ghost var rest := s[c..];
    InTable(s, names, at, rest, i);
    var word := SkipSpaces(s, c);
    var len := MeasureToken(s, word);
    assert s[word..] == rest[Spaces(rest)..] && s[word..][..len] == s[word..word + len] && s[word..][len..] == s[word + len..];
    if word < |s| {
      NextState(s, names, at, rest, i);
    } else {
      TrailingSpace(s, names, at, rest, i);
    }
    bit := FindBit(names, i, s[word..word + len]);
    found, next := bit < |names|, word + len;
    if found {
      ghost var before := slots[..];
      slots[bit] := Some(bit);
      SetSlot(before, at, bit);
      assert slots[..] == before[bit := Some(bit)];
    }
  }

  lemma InTable(s: string, names: seq<string>, at: seq<nat>, rest: string, i: nat)
    requires LoopState(s, names, at, rest, i)
    ensures i <= |names|
  {
  }

  /** The bits case: slot i holds a pointer to bit i exactly when the value sets that bit. */
  method ParseBits(value: Option<string>, names: seq<string>) returns (ok: bool, slots: array<Option<nat>>)
    requires IsTable(names)
    ensures slots.Length == |names|
    ensures ok <==> Selected(value, names).Some?
    ensures ok ==> forall i :: 0 <= i < |names| ==> slots[i] == if i in Selected(value, names).value then Some(i) else None
  {
    hide Words, Place, LoopState, AreSlots, IsTable;
    slots := new Option<nat>[|names|](_ => None);
    EmptySlots(slots[..]);
    if value.None? {
      SlotsFor(slots[..], [], {});
      return true, slots;
    }
    ok := false;
    var s := value.value;
    ghost var at: seq<nat> := [];
    StartState(s, names);
    assert s[0..] == s;
    var c: nat, i: nat := 0, 0;
    while c < |s|
      invariant c <= |s|
      invariant LoopState(s, names, at, s[c..], i) && AreSlots(slots[..], at)
      decreases |s| - c
    {
      var found, next, bit := ParseWord(s, names, c, i, slots, at);
      if !found {
        return;
      }
      at := at + [bit];
      c, i := next, bit + 1;
    }
    assert s[c..] == "";
    EndState(s, names, at, i);
    SlotsFor(slots[..], at, Elements(at));
    return true, slots;
  }

  // ----- acceptance and the canonical form ---------------------------------------------------

  /** A value is accepted exactly when no white space ends it and its words are names at strictly
      increasing positions; the entries set are those. */
  lemma SelectedMeaning(s: string, names: seq<string>)
    requires IsTable(names)
    ensures Selected(Some(s), names).Some? <==> !EndsInSpace(s) && exists at :: IsPlacement(Words(s), names, 0, at)
    ensures forall at :: !EndsInSpace(s) && IsPlacement(Words(s), names, 0, at) ==> Selected(Some(s), names) == Some(Elements(at))
  {
    hide Words, Place, IsTable;
    if Place(Words(s), names, 0).Some? {
      PlaceSound(Words(s), names, 0);
      assert IsPlacement(Words(s), names, 0, Place(Words(s), names, 0).value);
    }
    assert Selected(Some(s), names).Some? ==> exists at :: IsPlacement(Words(s), names, 0, at);
    forall at | !EndsInSpace(s) && IsPlacement(Words(s), names, 0, at) ensures Selected(Some(s), names) == Some(Elements(at)) {
      PlaceComplete(Words(s), names, 0, at);
    }
    if at :| !EndsInSpace(s) && IsPlacement(Words(s), names, 0, at) {
      assert Selected(Some(s), names).Some?;
    }
  }

  /** The names of the entries in `bits` from `from` on, each but the first behind a space. */
  function Print(bits: set<nat>, names: seq<string>, from: nat): string
    requires from <= |names|
    decreases |names| - from
  {
    if from == |names| then ""
    else if from in bits then
      var rest := Print(bits, names, from + 1);
      names[from] + (if rest == "" then "" else " " + rest)
    else Print(bits, names, from + 1)
  }

  /** The elements of `bits` from `from` up to `end`, in increasing order. */
  function Indices(bits: set<nat>, from: nat, end: nat): (at: seq<nat>)
    requires from <= end
    ensures forall k :: 0 <= k < |at| ==> from <= at[k] < end && at[k] in bits
    ensures IsIncreasing(at)
    ensures forall i: nat :: from <= i < end && i in bits ==> i in at
    decreases end - from
  {
    if from == end then [] else if from in bits then [from] + Indices(bits, from + 1, end) else Indices(bits, from + 1, end)
  }

  function Names(names: seq<string>, at: seq<nat>): (w: seq<string>)
    requires forall k :: 0 <= k < |at| ==> at[k] < |names|
    ensures |w| == |at| && forall k :: 0 <= k < |at| ==> w[k] == names[at[k]]
  {
    if at == [] then [] else [names[at[0]]] + Names(names, at[1..])
  }

  lemma WordRun(word: string, rest: string)
    requires Prefixes.IsIdentifier(word) && (rest == "" || IsSpace(rest[0]))
    ensures TokenLength(word + rest) == |word| && Spaces(word + rest) == 0
  {
    var s := word + rest;
    var n := TokenLength(s);
    assert forall k :: 0 <= k < |word| ==> s[k] == word[k] && !IsSpace(s[k]);
    assert rest != "" ==> s[|word|] == rest[0];
  }

  lemma WordFirst(word: string, rest: string)
    requires Prefixes.IsIdentifier(word) && (rest == "" || IsSpace(rest[0]))
    ensures Words(word + rest) == [word] + Words(rest)
    ensures EndsInSpace(word + rest) <==> EndsInSpace(rest)
  {
    WordRun(word, rest);
    WordsStep(word + rest);
    assert (word + rest)[0..] == word + rest;
    assert (word + rest)[..|word|] == word && (word + rest)[|word|..] == rest;
  }

  /** Words end at a space, a tab or a line end, and nothing else of the printing characters ends one. */
  lemma WordsEndAt(word: string, c: char, rest: string)
    requires Prefixes.IsIdentifier(word)
    ensures c in " \t\n\r" ==> Words(word + [c] + rest) == [word] + Words([c] + rest)
    ensures 0x20 < c as int < 0x7f ==> forall w :: w in Words(word + [c]) ==> w == word + [c]
  {
    hide Words, Prefixes.IsIdentifier;
    CharacterClasses(c);
    assert word + [c] + rest == word + ([c] + rest);
    if c in " \t\n\r" {
      WordFirst(word, [c] + rest);
    }
    if 0x20 < c as int < 0x7f {
      OneWord(word, c);
    }
  }

  lemma OneWord(word: string, c: char)
    requires Prefixes.IsIdentifier(word) && !IsSpace(c)
    ensures Words(word + [c]) == [word + [c]]
  {
    var s := word + [c];
    assert forall i :: 0 <= i < |s| ==> !IsSpace(s[i]);
    assert Spaces(s) == 0 && s[0..] == s;
    assert TokenLength(s) == |s| && s[..|s|] == s && s[|s|..] == "";
    assert Words("") == [];
  }

  /** A space in front changes no words. */
  lemma SpaceFirst(s: string)
    requires s != "" && Spaces(s) == 0
    ensures Words(" " + s) == Words(s) && (EndsInSpace(" " + s) <==> EndsInSpace(s))
  {
    assert (" " + s)[1..] == s;
    assert Spaces(" " + s) == 1;
    assert (" " + s)[1..] == s[0..];
  }

  /** One more name in front of a canonical text. */
  lemma NameInFront(name: string, s: string)
    requires Prefixes.IsIdentifier(name) && !EndsInSpace(s) && Spaces(s) == 0
    ensures var t := name + (if s == "" then "" else " " + s);
            Words(t) == [name] + Words(s) && !EndsInSpace(t) && Spaces(t) == 0
  {
    hide Words, Spaces, Prefixes.IsIdentifier;
    var rest := if s == "" then "" else " " + s;
    if s != "" {
      SpaceFirst(s);
    }
    WordFirst(name, rest);
    WordRun(name, rest);
  }

  lemma {:induction false} PrintWords(bits: set<nat>, names: seq<string>, from: nat)
    requires from <= |names| && IsTable(names)
    ensures Words(Print(bits, names, from)) == Names(names, Indices(bits, from, |names|))
    ensures !EndsInSpace(Print(bits, names, from)) && Spaces(Print(bits, names, from)) == 0
    decreases |names| - from
  {
    hide Words, Spaces, EndsInSpace, Prefixes.IsIdentifier;
    if from < |names| {
      PrintWords(bits, names, from + 1);
      if from in bits {
        NameInFront(names[from], Print(bits, names, from + 1));
        NamesInFront(names, from, Indices(bits, from + 1, |names|));
      }
    } else {
      NothingPrinted();
    }
  }

  lemma NamesInFront(names: seq<string>, i: nat, at: seq<nat>)
    requires i < |names| && forall k :: 0 <= k < |at| ==> at[k] < |names|
    ensures Names(names, [i] + at) == [names[i]] + Names(names, at)
  {
    assert ([i] + at)[1..] == at;
  }

  lemma NothingPrinted()
    ensures Words("") == [] && !EndsInSpace("") && Spaces("") == 0
  {
  }

  /** Parsing the canonical text of a set of bits gives the set back. */
  lemma ParsePrinted(bits: set<nat>, names: seq<string>)
    requires IsTable(names) && forall i :: i in bits ==> i < |names|
    ensures Selected(Some(Print(bits, names, 0)), names) == Some(bits)
  {
    hide Print, Words, Indices;
    PrintWords(bits, names, 0);
    var at := Indices(bits, 0, |names|);
    var s := Print(bits, names, 0);
    assert IsPlacement(Words(s), names, 0, at);
    SelectedMeaning(s, names);
    assert bits == Elements(at);
  }

  /** An accepted value has the words of the canonical text of the bits it sets. */
  lemma PrintParsed(s: string, names: seq<string>)
    requires IsTable(names) && Selected(Some(s), names).Some?
    ensures Words(Print(Selected(Some(s), names).value, names, 0)) == Words(s)
  {
    hide Print, Words, Indices;
    SelectedMeaning(s, names);
    var at :| IsPlacement(Words(s), names, 0, at);
    var bits := Selected(Some(s), names).value;
    PrintWords(bits, names, 0);
    SameOrder(at, Indices(bits, 0, |names|));
  }

  ghost predicate SameElements(a: seq<nat>, b: seq<nat>) {
    forall i: nat :: i in a <==> i in b
  }

  /** A strictly increasing sequence is determined by its elements. */
  lemma {:induction false} SameOrder(a: seq<nat>, b: seq<nat>)
    requires IsIncreasing(a) && IsIncreasing(b) && SameElements(a, b)
    ensures a == b
  {
    hide IsIncreasing, SameElements;
    BothEmpty(a, b);
    if a != [] {
      SameLast(a, b);
      SameOrder(a[..|a| - 1], b[..|b| - 1]);
      assert a == a[..|a| - 1] + [a[|a| - 1]] && b == b[..|b| - 1] + [b[|b| - 1]];
    }
  }

  lemma BothEmpty(a: seq<nat>, b: seq<nat>)
    requires SameElements(a, b)
    ensures a == [] <==> b == []
  {
    if a != [] {
      assert a[0] in a;
    }
    if b != [] {
      assert b[0] in b;
    }
  }

  lemma SameLast(a: seq<nat>, b: seq<nat>)
    requires a != [] && b != [] && IsIncreasing(a) && IsIncreasing(b) && SameElements(a, b)
    ensures a[|a| - 1] == b[|b| - 1]
    ensures IsIncreasing(a[..|a| - 1]) && IsIncreasing(b[..|b| - 1]) && SameElements(a[..|a| - 1], b[..|b| - 1])
  {
    var x, y := a[|a| - 1], b[|b| - 1];
    assert x in a && y in b;
    assert x in b && y in a;
    AllBut(a);
    AllBut(b);
    forall i: nat {:trigger i in a[..|a| - 1]} ensures i in a[..|a| - 1] <==> i in b[..|b| - 1] {
      assert i in a <==> i in b;
    }
  }

  lemma AllBut(a: seq<nat>)
    requires a != [] && IsIncreasing(a)
    ensures IsIncreasing(a[..|a| - 1])
    ensures forall i: nat {:trigger i in a[..|a| - 1]} :: i in a[..|a| - 1] <==> i in a && i != a[|a| - 1]
  {
    var u := a[..|a| - 1];
    assert a == u + [a[|a| - 1]];
    assert forall k :: 0 <= k < |u| ==> u[k] == a[k] < a[|a| - 1];
  }

  /** The table a bits type is given by its statements is one the values can be matched against. */
  lemma NumberedNames(decls: seq<BitNumbering.Decl>)
    requires BitNumbering.IsNumberable(decls)
    ensures var t := BitNumbering.Table(decls, |decls|);
            IsTable(seq(|t|, i requires 0 <= i < |t| => t[i].name))
  {
    hide BitNumbering.Table;
    BitNumbering.NumberedTable(decls);
  }
}

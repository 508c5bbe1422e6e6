/** Runs of inserts and removes: the dictionary is a multiset of strings, and the address of an
    interned string stands for its content. */
module DictionaryRuns {
  import opened Dictionary

  /** One call; an insert brings the buffer that holds the string if it is new. */
  datatype Op = Ins(buffer: Handle) | Rem(h: Handle)

  function Step(t: Table, op: Op): (t': Table)
    requires |t.buckets| == DICT_SIZE
    ensures |t'.buckets| == DICT_SIZE
  {
    match op
    case Ins(buffer) => Insert(t, buffer.text, buffer)
    case Rem(h) => Remove(t, h)
  }

  function Run(t: Table, ops: seq<Op>): (t': Table)
    requires |t.buckets| == DICT_SIZE
    ensures |t'.buckets| == DICT_SIZE
    decreases |ops|
  {
    if ops == [] then t else Run(Step(t, ops[0]), ops[1..])
  }

  // ----- the multiset ------------------------------------------------------------------------

  /** The strings interned after one call: a remove counts when its address is live. */
  ghost function Apply(t: Table, m: multiset<string>, op: Op): multiset<string>
    requires |t.buckets| == DICT_SIZE
  {
    match op
    case Ins(buffer) => m + multiset{buffer.text}
    case Rem(h) => if IsLive(t, h) then m - multiset{h.text} else m
  }

  ghost function ApplyAll(t: Table, m: multiset<string>, ops: seq<Op>): multiset<string>
    requires |t.buckets| == DICT_SIZE
    decreases |ops|
  {
    if ops == [] then m else ApplyAll(Step(t, ops[0]), Apply(t, m, ops[0]), ops[1..])
  }

  ghost function Keys(m: multiset<string>): set<string> {
    set x | x in m
  }

  ghost predicate Represents(t: Table, m: multiset<string>) {
    && IsTable(t)
    && t.used == |Keys(m)|
    && forall x: string :: Count(t, x) == m[x] && (Present(t, x) <==> x in m)
  }

  /** Fewer than 2^32 different strings are held, and each of them fewer than 2^32 times. */
  ghost predicate IsWithin(m: multiset<string>) {
    |Keys(m)| < UINT32 && forall x: string :: m[x] < UINT32
  }

  /** No counter reaches its limit at any time. */
  ghost predicate IsBounded(t: Table, m: multiset<string>, ops: seq<Op>)
    requires |t.buckets| == DICT_SIZE
    decreases |ops|
  {
    IsWithin(m) && (ops != [] ==> IsBounded(Step(t, ops[0]), Apply(t, m, ops[0]), ops[1..]))
  }

  /** The bound is needed: a table represents nothing beyond it. */
  lemma RepresentsIsWithin(t: Table, m: multiset<string>)
    requires Represents(t, m)
    ensures IsWithin(m)
  {
    hide Index, Total;
    forall x: string ensures m[x] < UINT32 {
      CountInRange(t, x);
      assert Count(t, x) == m[x];
    }
  }

  lemma InsertRefines(t: Table, m: multiset<string>, buffer: Handle)
    requires Represents(t, m) && IsWithin(m + multiset{buffer.text})
    ensures Represents(Insert(t, buffer.text, buffer), m + multiset{buffer.text})
  {
    hide Index, Count, Present, HandleOf, Insert, IsBucket, Total;
    var x, m' := buffer.text, m + multiset{buffer.text};
    forall y: string ensures Count(Insert(t, x, buffer), y) == m'[y] && (Present(Insert(t, x, buffer), y) <==> y in m') {
      InsertStep(t, x, buffer, y);
      assert m'[x] == m[x] + 1 && m'[x] < UINT32;
      PresentHasHandle(t, y);
      PresentHasHandle(Insert(t, x, buffer), y);
    }
    InsertStep(t, x, buffer, x);
    if x in m {
      assert Keys(m') == Keys(m);
    } else {
      assert Keys(m') == Keys(m) + {x} && x !in Keys(m);
    }
  }

  lemma PresentHasHandle(t: Table, x: string)
    requires |t.buckets| == DICT_SIZE
    ensures HandleOf(t, x).Some? <==> Present(t, x)
  {
    hide Index;
  }

  lemma RemoveRefines(t: Table, m: multiset<string>, h: Handle)
    requires Represents(t, m)
    ensures Represents(Remove(t, h), if IsLive(t, h) then m - multiset{h.text} else m)
  {
    hide Index, Count, Present, HandleOf, Remove, IsBucket, Total;
    if IsLive(t, h) {
      var x, m' := h.text, m - multiset{h.text};
      PresentHasHandle(t, x);
      assert x in Keys(m);
      forall y: string ensures Count(Remove(t, h), y) == m'[y] && (Present(Remove(t, h), y) <==> y in m') {
        RemoveStep(t, h, y);
        RepresentsIsWithin(t, m);
        DecrementIsZero(m[x]);
      }
      RemoveStep(t, h, x);
      assert Keys(m') == if m[x] == 1 then Keys(m) - {x} else Keys(m);
    } else {
      RemoveForeign(t, h);
    }
  }

  /** Over every run of calls in which no counter reaches 2^32, the dictionary is the multiset of the
      strings inserted and not removed: each count, which strings have a record, how many. */
  lemma {:induction false} RunRefines(t: Table, m: multiset<string>, ops: seq<Op>)
    requires Represents(t, m) && IsBounded(t, m, ops)
    ensures Represents(Run(t, ops), ApplyAll(t, m, ops))
    decreases |ops|
  {
    hide Represents, Insert, Remove, IsLive;
    SizeOf(t, m);
    if ops != [] {
      match ops[0] {
        case Ins(buffer) => InsertRefines(t, m, buffer);
        case Rem(h) => RemoveRefines(t, m, h);
      }
      RunRefines(Step(t, ops[0]), Apply(t, m, ops[0]), ops[1..]);
    }
  }

  lemma SizeOf(t: Table, m: multiset<string>)
    requires Represents(t, m)
    ensures |t.buckets| == DICT_SIZE
  {
  }

  lemma EmptyRepresents()
    ensures Represents(Empty(), multiset{})
  {
    hide Index;
    assert Keys(multiset{}) == {};
    forall x: string ensures Count(Empty(), x) == 0 && !Present(Empty(), x) {
    }
  }

  /** How often a run inserts a string, and how often it removes it by its live address. */
  function Inserts(ops: seq<Op>, x: string): nat {
    if ops == [] then 0 else (if ops[0].Ins? && ops[0].buffer.text == x then 1 else 0) + Inserts(ops[1..], x)
  }

  function Removes(t: Table, ops: seq<Op>, x: string): nat
    requires |t.buckets| == DICT_SIZE
    decreases |ops|
  {
    if ops == [] then 0
    else (if ops[0].Rem? && ops[0].h.text == x && IsLive(t, ops[0].h) then 1 else 0) + Removes(Step(t, ops[0]), ops[1..], x)
  }

  lemma {:induction false} InsertsMinusRemoves(t: Table, m: multiset<string>, ops: seq<Op>, x: string)
    requires Represents(t, m) && IsBounded(t, m, ops)
    ensures ApplyAll(t, m, ops)[x] == m[x] + Inserts(ops, x) - Removes(t, ops, x)
    decreases |ops|
  {
    hide Index, Insert, Remove, Represents;
    SizeOf(t, m);
    if ops != [] {
      RunRefines(t, m, ops[..1]);
      assert ops[..1][1..] == [];
      assert Run(t, ops[..1]) == Step(t, ops[0]) && ApplyAll(t, m, ops[..1]) == Apply(t, m, ops[0]);
      if ops[0].Rem? && IsLive(t, ops[0].h) {
        LiveIsInterned(t, m, ops[0].h);
      }
      InsertsMinusRemoves(Step(t, ops[0]), Apply(t, m, ops[0]), ops[1..], x);
    }
  }

  lemma LiveIsInterned(t: Table, m: multiset<string>, h: Handle)
    requires Represents(t, m) && IsLive(t, h)
    ensures h.text in m
  {
    hide Index;
    assert Present(t, h.text);
  }

  /** From an empty dictionary: a string's record is there exactly while it has been inserted more
      often than removed, and its reference count is the difference. */
  lemma RefcountIsInsertsMinusRemoves(ops: seq<Op>, x: string)
    requires IsBounded(Empty(), multiset{}, ops)
    ensures var t := Run(Empty(), ops);
            && IsTable(t)
            && Count(t, x) == Inserts(ops, x) - Removes(Empty(), ops, x)
            && (Present(t, x) <==> Inserts(ops, x) > Removes(Empty(), ops, x))
  {
    hide Index, Run, ApplyAll, Count, Present, IsBucket, Total, IsBounded;
    EmptyRepresents();
    RunRefines(Empty(), multiset{}, ops);
    InsertsMinusRemoves(Empty(), multiset{}, ops, x);
  }

  // ----- 2^32 inserts ------------------------------------------------------------------------

  /** Corollary of InsertStep: the count of an interned string survives an insert exactly when it stays
      below 2^32. */
  lemma InsertCounts(t: Table, buffer: Handle)
    requires IsTable(t)
    ensures Count(Insert(t, buffer.text, buffer), buffer.text) == Count(t, buffer.text) + 1
        <==> Count(t, buffer.text) + 1 < UINT32
  {
    hide Index;
    InsertStep(t, buffer.text, buffer, buffer.text);
    CountInRange(t, buffer.text);
  }

  // ----- addresses ---------------------------------------------------------------------------

  /** Corollary of what live means: two live addresses are equal exactly when the strings are, the ground
      for comparing strings in the dictionary by address. */
  lemma LiveHandles(t: Table, h1: Handle, h2: Handle)
    requires |t.buckets| == DICT_SIZE && IsLive(t, h1) && IsLive(t, h2)
    ensures h1 == h2 <==> h1.text == h2.text
  {
    hide Index;
  }

  /** The string stays interned after every call of the run. */
  ghost predicate StaysPresent(t: Table, ops: seq<Op>, x: string)
    requires |t.buckets| == DICT_SIZE
    decreases |ops|
  {
    Present(t, x) && (ops != [] ==> StaysPresent(Step(t, ops[0]), ops[1..], x))
  }

  lemma StepKeepsHandle(t: Table, op: Op, x: string)
    requires IsTable(t) && Present(t, x) && Present(Step(t, op), x)
    ensures HandleOf(Step(t, op), x) == HandleOf(t, x)
    ensures IsTable(Step(t, op))
  {
    hide Index, Insert, Remove, HandleOf, IsBucket, Total;
    PresentHasHandle(t, x);
    match op {
      case Ins(buffer) =>
        InsertStep(t, buffer.text, buffer, x);
      case Rem(h) =>
        if t.used != 0 {
          RemoveStep(t, h, x);
        } else {
          EmptyRemove(t, h);
        }
    }
  }

  lemma EmptyRemove(t: Table, h: Handle)
    requires |t.buckets| == DICT_SIZE && t.used == 0
    ensures Remove(t, h) == t
  {
    hide Index;
  }

  /** Nothing that happens to other strings changes the address of an interned one. */
  lemma {:induction false} RunKeepsHandle(t: Table, ops: seq<Op>, x: string)
    requires IsTable(t) && StaysPresent(t, ops, x)
    ensures HandleOf(Run(t, ops), x) == HandleOf(t, x)
    ensures IsTable(Run(t, ops)) && Present(Run(t, ops), x)
    decreases |ops|
  {
    hide Index, Step, HandleOf, IsBucket, Total, Present;
    BucketsOf(t);
    if ops != [] {
      BucketsOf(Step(t, ops[0]));
      StillPresent(Step(t, ops[0]), ops[1..], x);
      StepKeepsHandle(t, ops[0], x);
      RunKeepsHandle(Step(t, ops[0]), ops[1..], x);
    }
  }

  lemma BucketsOf(t: Table)
    ensures IsTable(t) ==> |t.buckets| == DICT_SIZE
  {
  }

  lemma StillPresent(t: Table, ops: seq<Op>, x: string)
    requires |t.buckets| == DICT_SIZE && StaysPresent(t, ops, x)
    ensures Present(t, x)
  {
  }

  /** While a string stays interned, another insert returns its address exactly for the same content. */
  lemma SameHandleIffSameText(t: Table, first: Handle, ops: seq<Op>, second: Handle)
    requires IsTable(t) && StaysPresent(Insert(t, first.text, first), ops, first.text)
    ensures var t1 := Insert(t, first.text, first);
            Inserted(t, first.text, first) == Inserted(Run(t1, ops), second.text, second) <==> first.text == second.text
  {
    hide Index, Insert, Inserted, HandleOf, IsBucket, Total, Run, Present, StaysPresent;
    var t1 := Insert(t, first.text, first);
    InsertStep(t, first.text, first, first.text);
    RunKeepsHandle(t1, ops, first.text);
    BucketsOf(t);
    BucketsOf(t1);
    var t2 := Run(t1, ops);
    InsertStep(t2, second.text, second, second.text);
    if first.text == second.text {
      assert Inserted(t2, second.text, second) == HandleOf(t2, second.text).value;
    } else {
      HandleText(Insert(t2, second.text, second), second.text);
      HandleText(t1, first.text);
    }
  }

  lemma HandleText(t: Table, x: string)
    requires |t.buckets| == DICT_SIZE
    ensures HandleOf(t, x).Some? ==> HandleOf(t, x).value.text == x
  {
    hide Index;
  }
}

/** The interning dictionary of src/dict.c as a function on tables: what the hash table in
    DictionaryTable implements, and what the rest of the library relies on. */
module Dictionary {
  import opened CStrings

  const DICT_SIZE: nat := 1024
  const UINT32: nat := 0x1_0000_0000

  /** Buckets and counters as the types and macros of src/dict_private.h fix them. */
  lemma TableLimits()
    ensures DICT_SIZE == 1024 && UINT32 == 4294967296
  {
  }

  /** A string buffer; its address is the object, its bytes never change. */
  class Handle {
    const text: string

    constructor (text: string)
      ensures this.text == text
    {
      this.text := text;
    }
  }

  // ----- the hash ----------------------------------------------------------------------------

  /** A `char` in 32 bits, its sign extended. */
  function Extended(c: char): bv32 {
    var low := (c as int % 256) as bv32;
    if Signed(c) < 0 then low | 0xffff_ff00 else low
  }

  function Mix(hash: bv32, byte: bv32): bv32 {
    var h1 := hash + byte;
    var h2 := h1 + (h1 << 10);
    h2 ^ (h2 >> 6)
  }

  function HashByte(hash: bv32, c: char): bv32 {
    Mix(hash, Extended(c))
  }

  /** One-at-a-time hash of the first bytes of a key, before the final mixing. */
  function HashBytes(key: string): bv32 {
    if key == [] then 0 else HashByte(HashBytes(key[..|key| - 1]), key[|key| - 1])
  }

  function HashFinish(hash: bv32): bv32 {
    var h1 := hash + (hash << 3);
    var h2 := h1 ^ (h1 >> 11);
    h2 + (h2 << 15)
  }

  lemma Bits(a: int, b: int, n: int)
    requires a == 0x61 && b == 0x62 && n == 0xe4
    ensures a as bv32 == 0x61 && b as bv32 == 0x62 && n as bv32 == 0xe4
  {
  }

  lemma ExtendedBytes()
    ensures Extended('a') == 0x61 && Extended('b') == 0x62 && Extended(0xe4 as char) == 0xffff_ffe4
  {
    Bits(0x61, 0x62, 0xe4);
    assert 'a' as int == 0x61 && 'b' as int == 0x62 && (0xe4 as char) as int == 0xe4;
    assert (0xe4 as bv32) | 0xffff_ff00 == 0xffff_ffe4;
  }

  lemma MixedBytes()
    ensures HashFinish(Mix(0, 0x61)) == 0xca2e_9442
    ensures HashFinish(Mix(Mix(0, 0x61), 0x62)) == 0x45e6_1e58
  {
  }

  lemma MixedNegative()
    ensures HashFinish(Mix(0, 0xffff_ffe4)) == 0x9c39_0033
  {
  }

  /** The hash of three keys, one of them with a byte above 0x7F. */
  lemma HashOfKeys()
    ensures HashFinish(HashBytes("a")) == 0xca2e_9442 && HashFinish(HashBytes("ab")) == 0x45e6_1e58
    ensures HashFinish(HashBytes([0xe4 as char])) == 0x9c39_0033
  {
    hide HashFinish, Mix, Extended;
    ExtendedBytes();
    MixedBytes();
    MixedNegative();
    OneByte('a');
    OneByte(0xe4 as char);
    assert "ab"[..1] == "a";
    assert HashBytes("ab") == HashByte(HashBytes("a"), 'b');
  }

  lemma OneByte(c: char)
    ensures HashBytes([c]) == Mix(0, Extended(c))
  {
    hide Mix, Extended;
    assert [c][..0] == "";
    assert HashBytes("") == 0;
  }

  /** The bucket of a string: its hash under the mask DICT_SIZE - 1. */
  function Index(text: string): (b: nat)
    ensures b < DICT_SIZE
  {
    (HashFinish(HashBytes(text)) & 0x3ff) as nat
  }

  method DictHash(key: string) returns (hash: bv32)
    ensures hash == HashFinish(HashBytes(key))
  {
    hide HashByte, HashFinish;
    hash := 0;
    var i := 0;
    assert key[..0] == [];
    while i < |key|
      invariant i <= |key|
      invariant hash == HashBytes(key[..i])
    {
      assert key[..i + 1][..i] == key[..i];
      hash := HashByte(hash, key[i]);
      i := i + 1;
    }
    assert key[..i] == key;
    hash := HashFinish(hash);
  }

  // ----- tables ------------------------------------------------------------------------------

  datatype Entry = Entry(handle: Handle, count: nat)

  /** The records of one bucket, in chain order. */
  type Bucket = seq<Entry>

  /** All buckets and the number of records; counters are 32-bit. */
  datatype Table = Table(buckets: seq<Bucket>, used: nat)

  /** The first record with this content, or the end of the chain. */
  function Find(bucket: Bucket, text: string): (i: nat)
    ensures i <= |bucket|
    ensures i < |bucket| ==> bucket[i].handle.text == text
    ensures forall k :: 0 <= k < i ==> bucket[k].handle.text != text
  {
    if bucket == [] || bucket[0].handle.text == text then 0 else 1 + Find(bucket[1..], text)
  }

  /** The first record with this address, or the end of the chain. */
  function FindHandle(bucket: Bucket, h: Handle): (i: nat)
    ensures i <= |bucket|
    ensures i < |bucket| ==> bucket[i].handle == h
    ensures forall k :: 0 <= k < i ==> bucket[k].handle != h
  {
    if bucket == [] || bucket[0].handle == h then 0 else 1 + FindHandle(bucket[1..], h)
  }

  function InsertBucket(bucket: Bucket, text: string, buffer: Handle): Bucket {
    var i := Find(bucket, text);
    if i < |bucket| then bucket[i := Entry(bucket[i].handle, (bucket[i].count + 1) % UINT32)]
    else bucket + [Entry(buffer, 1)]
  }

  function InsertHandle(bucket: Bucket, text: string, buffer: Handle): Handle {
    var i := Find(bucket, text);
    if i < |bucket| then bucket[i].handle else buffer
  }

  function RemoveBucket(bucket: Bucket, h: Handle): Bucket {
    var i := FindHandle(bucket, h);
    if i == |bucket| then bucket
    else
      var count := (bucket[i].count + UINT32 - 1) % UINT32;
      if count == 0 then bucket[..i] + bucket[i + 1..] else bucket[i := Entry(h, count)]
  }

  function Updated(t: Table, b: nat, bucket: Bucket): (t': Table)
    requires b < |t.buckets|
    ensures |t'.buckets| == |t.buckets|
  {
    Table(t.buckets[b := bucket], (t.used + UINT32 + |bucket| - |t.buckets[b]|) % UINT32)
  }

  /** lydict_insert; `buffer` holds the string if it is new. */
  function Insert(t: Table, text: string, buffer: Handle): (t': Table)
    requires |t.buckets| == DICT_SIZE
    ensures |t'.buckets| == DICT_SIZE
  {
    Updated(t, Index(text), InsertBucket(t.buckets[Index(text)], text, buffer))
  }

  function Inserted(t: Table, text: string, buffer: Handle): Handle
    requires |t.buckets| == DICT_SIZE
  {
    InsertHandle(t.buckets[Index(text)], text, buffer)
  }

  /** lydict_remove. */
  function Remove(t: Table, h: Handle): (t': Table)
    requires |t.buckets| == DICT_SIZE
    ensures |t'.buckets| == DICT_SIZE
  {
    if t.used == 0 then t else Updated(t, Index(h.text), RemoveBucket(t.buckets[Index(h.text)], h))
  }

  // ----- what a table says -------------------------------------------------------------------

  function Total(buckets: seq<Bucket>): nat {
    if buckets == [] then 0 else |buckets[0]| + Total(buckets[1..])
  }

  predicate IsBucket(bucket: Bucket, b: nat) {
    && (forall i :: 0 <= i < |bucket| ==> Index(bucket[i].handle.text) == b && bucket[i].count < UINT32)
    && (forall i, j :: 0 <= i < j < |bucket| ==> bucket[i].handle.text != bucket[j].handle.text)
  }

  /** Every record is in the bucket of its hash, once, and the records are counted. */
  predicate IsTable(t: Table) {
    && |t.buckets| == DICT_SIZE
    && (forall b :: 0 <= b < DICT_SIZE ==> IsBucket(t.buckets[b], b))
    && t.used == Total(t.buckets) % UINT32
  }

  predicate Present(t: Table, text: string)
    requires |t.buckets| == DICT_SIZE
  {
    Find(t.buckets[Index(text)], text) < |t.buckets[Index(text)]|
  }

  function Count(t: Table, text: string): nat
    requires |t.buckets| == DICT_SIZE
  {
    if Present(t, text) then t.buckets[Index(text)][Find(t.buckets[Index(text)], text)].count else 0
  }

  /** The address under which a string is interned. */
  function HandleOf(t: Table, text: string): (h: Option<Handle>)
    requires |t.buckets| == DICT_SIZE
    ensures h.Some? ==> h.value.text == text
  {
    if Present(t, text) then Some(t.buckets[Index(text)][Find(t.buckets[Index(text)], text)].handle) else None
  }

  predicate IsLive(t: Table, h: Handle)
    requires |t.buckets| == DICT_SIZE
  {
    HandleOf(t, h.text) == Some(h)
  }

  function Empty(): (t: Table)
    ensures IsTable(t) && forall text :: !Present(t, text)
  {
    NothingInEmpty(DICT_SIZE);
    Table(seq(DICT_SIZE, _ => []), 0)
  }

  lemma {:induction false} NothingInEmpty(n: nat)
    ensures Total(seq(n, _ => [])) == 0
  {
    if n > 0 {
      NothingInEmpty(n - 1);
      var all: seq<Bucket> := seq(n, _ => []);
      assert all[1..] == seq(n - 1, _ => []);
    }
  }

  // ----- one step ----------------------------------------------------------------------------

  lemma {:induction false} TotalUpdate(buckets: seq<Bucket>, b: nat, bucket: Bucket)
    requires b < |buckets|
    ensures Total(buckets[b := bucket]) == Total(buckets) + |bucket| - |buckets[b]|
    ensures Total(buckets) >= |buckets[b]|
  {
    if b > 0 {
      TotalUpdate(buckets[1..], b - 1, bucket);
      assert buckets[b := bucket][1..] == buckets[1..][b - 1 := bucket];
    } else {
      assert buckets[b := bucket][1..] == buckets[1..];
    }
  }

  lemma UpdatedIsTable(t: Table, b: nat, bucket: Bucket)
    requires IsTable(t) && b < DICT_SIZE && IsBucket(bucket, b) && |bucket| + 1 >= |t.buckets[b]|
    ensures IsTable(Updated(t, b, bucket))
  {
    hide Index;
    TotalUpdate(t.buckets, b, bucket);
    var total := Total(t.buckets);
    var grown: int := |bucket| - |t.buckets[b]|;
    assert (total % UINT32 + UINT32 + grown) % UINT32 == (total + grown) % UINT32 by {
      ModShift(total, grown);
    }
  }

  lemma ModShift(total: nat, grown: int)
    requires total + grown >= 0 && grown >= -1
    ensures (total % UINT32 + UINT32 + grown) % UINT32 == (total + grown) % UINT32
  {
    var q := total / UINT32;
    assert total == q * UINT32 + total % UINT32;
    assert (total + grown) % UINT32 == (total % UINT32 + grown) % UINT32;
  }

  lemma FindUnique(bucket: Bucket, b: nat, i: nat)
    requires IsBucket(bucket, b) && i < |bucket|
    ensures Find(bucket, bucket[i].handle.text) == i
    ensures FindHandle(bucket, bucket[i].handle) == i
  {
    hide Index;
  }

  lemma InsertBucketIsBucket(bucket: Bucket, text: string, buffer: Handle)
    requires IsBucket(bucket, Index(text)) && buffer.text == text
    ensures IsBucket(InsertBucket(bucket, text, buffer), Index(text))
    ensures |InsertBucket(bucket, text, buffer)| == |bucket| + if Find(bucket, text) < |bucket| then 0 else 1
  {
    hide Index;
  }

  lemma RemoveBucketIsBucket(bucket: Bucket, h: Handle)
    requires IsBucket(bucket, Index(h.text))
    ensures IsBucket(RemoveBucket(bucket, h), Index(h.text))
    ensures |bucket| - 1 <= |RemoveBucket(bucket, h)| <= |bucket|
  {
    hide Index;
  }

  /** What an insert changes: one count, and nothing else anybody can observe. */
  lemma InsertStep(t: Table, text: string, buffer: Handle, other: string)
    requires IsTable(t) && buffer.text == text
    ensures var t' := Insert(t, text, buffer);
            && IsTable(t')
            && Count(t', other) == (if other == text then (Count(t, text) + 1) % UINT32 else Count(t, other))
            && HandleOf(t', other) == (if other == text then Some(Inserted(t, text, buffer)) else HandleOf(t, other))
            && (Present(t, text) ==> Inserted(t, text, buffer) == HandleOf(t, text).value && t'.used == t.used)
            && (!Present(t, text) ==> Inserted(t, text, buffer) == buffer && t'.used == (t.used + 1) % UINT32)
  {
    hide Index, Find, InsertBucket, Total, IsBucket;
    var b := Index(text);
    var bucket, bucket' := t.buckets[b], InsertBucket(t.buckets[b], text, buffer);
    InsertBucketIsBucket(bucket, text, buffer);
    UpdatedIsTable(t, b, bucket');
    InsertFind(bucket, text, buffer, other);
  }

  lemma InsertFind(bucket: Bucket, text: string, buffer: Handle, other: string)
    requires IsBucket(bucket, Index(text)) && buffer.text == text
    ensures var bucket' := InsertBucket(bucket, text, buffer);
            var i, i' := Find(bucket, other), Find(bucket', other);
            && (if other == text then i' < |bucket'| && i' == i else (i' < |bucket'| <==> i < |bucket|))
            && (other != text && i < |bucket| ==> bucket'[i'] == bucket[i])
            && (other == text && i < |bucket| ==> bucket'[i'] == Entry(bucket[i].handle, (bucket[i].count + 1) % UINT32))
            && (other == text && i == |bucket| ==> bucket'[i'] == Entry(buffer, 1))
  {
    hide Index, Find;
    var k := Find(bucket, text);
    if k < |bucket| {
      FindUnique(bucket, Index(text), k);
      FindChanged(bucket, Index(text), k, Entry(bucket[k].handle, (bucket[k].count + 1) % UINT32), other);
    } else {
      FindAppended(bucket, Entry(buffer, 1), other);
    }
  }

  lemma {:induction false} FindAppended(bucket: Bucket, e: Entry, other: string)
    ensures var i, i' := Find(bucket, other), Find(bucket + [e], other);
            if i < |bucket| then i' == i
            else if e.handle.text == other then i' == |bucket|
            else i' == |bucket| + 1
    decreases |bucket|
  {
    if bucket != [] {
      assert (bucket + [e])[1..] == bucket[1..] + [e];
      FindAppended(bucket[1..], e, other);
    }
  }

  lemma RemoveFind(bucket: Bucket, h: Handle, other: string)
    requires IsBucket(bucket, Index(h.text)) && FindHandle(bucket, h) < |bucket|
    ensures var bucket' := RemoveBucket(bucket, h);
            var i, i' := Find(bucket, other), Find(bucket', other);
            && (other != h.text ==> (i' < |bucket'| <==> i < |bucket|))
            && (other != h.text && i < |bucket| ==> bucket'[i'] == bucket[i])
            && (other == h.text ==> i == FindHandle(bucket, h))
            && (other == h.text && |bucket'| < |bucket| ==> i' == |bucket'|)
            && (other == h.text && |bucket'| == |bucket| ==> i' == i)
            && (other == h.text && |bucket'| == |bucket| ==> bucket'[i] == Entry(h, (bucket[i].count + UINT32 - 1) % UINT32))
            && (|bucket'| < |bucket| <==> (bucket[FindHandle(bucket, h)].count + UINT32 - 1) % UINT32 == 0)
  {
    hide Index, Find, FindHandle, IsBucket;
    var k := FindHandle(bucket, h);
    FindUnique(bucket, Index(h.text), k);
    var count := (bucket[k].count + UINT32 - 1) % UINT32;
    if count == 0 {
      FindWithout(bucket, Index(h.text), k, other);
    } else {
      FindChanged(bucket, Index(h.text), k, Entry(h, count), other);
    }
  }

  lemma FindWithout(bucket: Bucket, b: nat, k: nat, other: string)
    requires IsBucket(bucket, b) && k < |bucket|
    ensures var bucket' := bucket[..k] + bucket[k + 1..];
            var i, i' := Find(bucket, other), Find(bucket', other);
            && (i' < |bucket'| <==> i < |bucket| && other != bucket[k].handle.text)
            && (i' < |bucket'| ==> bucket'[i'] == bucket[i])
  {
    hide Index;
    var bucket' := bucket[..k] + bucket[k + 1..];
    var i := Find(bucket, other);
    if i < |bucket| {
      FindUnique(bucket, b, i);
      if i != k {
        var j := if i < k then i else i - 1;
        assert bucket'[j] == bucket[i];
        assert IsBucket(bucket', b);
        FindUnique(bucket', b, j);
      }
    }
  }

  lemma FindChanged(bucket: Bucket, b: nat, k: nat, e: Entry, other: string)
    requires IsBucket(bucket, b) && k < |bucket| && e.handle == bucket[k].handle
    ensures Find(bucket[k := e], other) == Find(bucket, other)
  {
    hide Index;
    var bucket', i := bucket[k := e], Find(bucket, other);
    assert forall j :: 0 <= j < |bucket| ==> bucket'[j].handle == bucket[j].handle;
  }

  /** What a remove changes: one count when the address is live, and nothing otherwise. */
  lemma RemoveStep(t: Table, h: Handle, other: string)
    requires IsTable(t) && t.used != 0
    ensures var t' := Remove(t, h);
            && IsTable(t')
            && (!IsLive(t, h) ==> t' == t)
            && (IsLive(t, h) ==> Count(t', other) == if other == h.text then (Count(t, h.text) + UINT32 - 1) % UINT32 else Count(t, other))
            && (IsLive(t, h) ==> (Present(t', other) <==> Present(t, other) && (other == h.text ==> Count(t, h.text) != 1)))
            && (Present(t', other) ==> HandleOf(t', other) == HandleOf(t, other))
            && (IsLive(t, h) && Count(t, h.text) != 1 ==> t'.used == t.used)
            && (IsLive(t, h) && Count(t, h.text) == 1 ==> t'.used == t.used - 1)
  {
    hide Index, Find, FindHandle, RemoveBucket, IsBucket, Total;
    var b := Index(h.text);
    var bucket, bucket' := t.buckets[b], RemoveBucket(t.buckets[b], h);
    RemoveBucketIsBucket(bucket, h);
    UpdatedIsTable(t, b, bucket');
    LiveIsFound(t, h);
    if IsLive(t, h) {
      RemoveFind(bucket, h, other);
      RemoveFind(bucket, h, h.text);
      CountInRange(t, h.text);
      DecrementIsZero(Count(t, h.text));
    } else {
      RemoveForeign(t, h);
    }
  }

  lemma DecrementIsZero(count: nat)
    requires count < UINT32
    ensures (count + UINT32 - 1) % UINT32 == if count == 0 then UINT32 - 1 else count - 1
  {
  }

  lemma LiveIsFound(t: Table, h: Handle)
    requires IsTable(t)
    ensures IsLive(t, h) <==> FindHandle(t.buckets[Index(h.text)], h) < |t.buckets[Index(h.text)]|
  {
    hide Index;
    var bucket := t.buckets[Index(h.text)];
    var k := FindHandle(bucket, h);
    assert IsBucket(bucket, Index(h.text));
    assert IsLive(t, h) ==> exists i :: 0 <= i < |bucket| && bucket[i].handle == h;
    if k < |bucket| {
      FindUnique(bucket, Index(h.text), k);
    }
  }

  lemma CountInRange(t: Table, text: string)
    requires IsTable(t)
    ensures Count(t, text) < UINT32
  {
    hide Index;
    assert IsBucket(t.buckets[Index(text)], Index(text));
  }

  lemma RemoveForeign(t: Table, h: Handle)
    requires IsTable(t) && !IsLive(t, h)
    ensures Remove(t, h) == t
  {
    hide Index;
    LiveIsFound(t, h);
    var b := Index(h.text);
    assert t.buckets[b := t.buckets[b]] == t.buckets;
  }

  /** A remove undoes the insert before it exactly when no counter wraps: the string's own counter is not
      the 0 that 2^32 inserts leave, and the number of records is and stays above 0. */
  lemma RemoveUndoesInsert(t: Table, text: string, buffer: Handle)
    requires IsTable(t) && buffer.text == text
    ensures Remove(Insert(t, text, buffer), Inserted(t, text, buffer)) == t
       <==> if Present(t, text) then Count(t, text) != 0 && t.used != 0 else t.used + 1 < UINT32
  {
    hide Index, Total, Find, FindHandle, InsertBucket, RemoveBucket, InsertHandle;
    var b := Index(text);
    var bucket := t.buckets[b];
    var more := InsertBucket(bucket, text, buffer);
    assert IsBucket(bucket, b);
    InsertBucketIsBucket(bucket, text, buffer);
    BucketBack(bucket, text, buffer);
    var back := RemoveBucket(more, InsertHandle(bucket, text, buffer));
    TableBack(t, b, more, back);
    UsedAfter(t.used, |more| - |bucket|);
    InsertChanges(bucket, text, buffer);
  }

  lemma InsertChanges(bucket: Bucket, text: string, buffer: Handle)
    requires buffer.text == text
    ensures InsertHandle(bucket, text, buffer).text == text && InsertBucket(bucket, text, buffer) != bucket
  {
    var i, more := Find(bucket, text), InsertBucket(bucket, text, buffer);
    assert i < |bucket| ==> more[i].count != bucket[i].count;
    assert i == |bucket| ==> |more| == |bucket| + 1;
  }

  /** A bucket changed twice. */
  lemma TableBack(t: Table, b: nat, more: Bucket, back: Bucket)
    requires b < |t.buckets| && t.used < UINT32 && 0 <= |more| - |t.buckets[b]| <= 1
    ensures Updated(Updated(t, b, more), b, back) == t <==> back == t.buckets[b]
    ensures Updated(t, b, more) == t ==> more == t.buckets[b]
    ensures Updated(t, b, more).used == (t.used + |more| - |t.buckets[b]|) % UINT32
  {
    UsedBack(t.used, |more| - |t.buckets[b]|);
    assert t.buckets[b := more][b := back][b] == back;
    assert t.buckets[b := more][b := t.buckets[b]] == t.buckets;
    assert t.buckets[b := more][b] == more;
  }

  lemma UsedAfter(used: nat, grown: int)
    requires used < UINT32 && 0 <= grown <= 1
    ensures (used + grown) % UINT32 == 0 <==> used + grown == 0 || used + grown == UINT32
  {
  }

  lemma UsedBack(used: nat, grown: int)
    requires used < UINT32 && 0 <= grown <= 1
    ensures ((used + UINT32 + grown) % UINT32 + UINT32 - grown) % UINT32 == used
  {
  }

  lemma BucketBack(bucket: Bucket, text: string, buffer: Handle)
    requires IsBucket(bucket, Index(text)) && buffer.text == text
    ensures var i := Find(bucket, text);
            RemoveBucket(InsertBucket(bucket, text, buffer), InsertHandle(bucket, text, buffer)) == bucket
            <==> i < |bucket| ==> bucket[i].count != 0
  {
    hide Index, Find, FindHandle, IsBucket;
    var i := Find(bucket, text);
    if i == |bucket| {
      NewEntryBack(bucket, text, buffer);
    } else {
      OldEntryBack(bucket, Index(text), i);
    }
  }

  lemma NewEntryBack(bucket: Bucket, text: string, buffer: Handle)
    requires IsBucket(bucket, Index(text)) && buffer.text == text && Find(bucket, text) == |bucket|
    ensures RemoveBucket(bucket + [Entry(buffer, 1)], buffer) == bucket
  {
    hide Index, Find;
    var more := bucket + [Entry(buffer, 1)];
    InsertBucketIsBucket(bucket, text, buffer);
    FindUnique(more, Index(text), |bucket|);
    assert more[..|bucket|] + more[|bucket| + 1..] == bucket;
  }

  lemma OldEntryBack(bucket: Bucket, b: nat, i: nat)
    requires IsBucket(bucket, b) && i < |bucket|
    ensures var h, count := bucket[i].handle, bucket[i].count;
            RemoveBucket(bucket[i := Entry(h, (count + 1) % UINT32)], h) == bucket <==> count != 0
  {
    hide Index, Find, FindHandle;
    var more := bucket[i := Entry(bucket[i].handle, (bucket[i].count + 1) % UINT32)];
    assert IsBucket(more, b);
    FindUnique(more, b, i);
    CountBack(bucket[i].count);
    assert more[i := bucket[i]] == bucket;
  }

  lemma CountBack(count: nat)
    requires count < UINT32
    ensures ((count + 1) % UINT32 + UINT32 - 1) % UINT32 == count
  {
  }
}

/** The hash table of src/dict.c: bucket heads in a static array, chains of allocated records behind
    them. Every call is proved against the functions of Dictionary. */
module DictionaryTable {
  import opened CStrings
  import opened Dictionary

  /** struct dict_rec; an unused head has no value. */
  class Rec {
    var value: Handle?
    var refcount: nat
    var next: Rec?

    ghost var bucket: nat  // the bucket whose chain the record is in
    ghost var order: nat  // grows along a chain

    constructor (ghost b: nat)
      ensures value == null && next == null && refcount == 0 && bucket == b && order == 0
    {
      value, refcount, next := null, 0, null;
      bucket, order := b, 0;
    }
  }

  /** The records of bucket `b` from its head on. */
  ghost predicate IsChain(c: seq<Rec>, b: nat, head: Rec)
    reads c
  {
    && c != [] && c[0] == head
    && (forall i :: 0 <= i < |c| ==> c[i].bucket == b)
    && (forall i, j :: 0 <= i < j < |c| ==> c[i].order < c[j].order)
    && (forall i, j {:trigger c[i].next, c[j]} :: 0 <= i && j == i + 1 && j < |c| ==> c[i].next == c[j])
    && c[|c| - 1].next == null
    && (|c| > 1 ==> forall i :: 0 <= i < |c| ==> c[i].value != null)
  }

  /** What a chain stores; an unused head stores nothing. */
  ghost function Stored(c: seq<Rec>): (e: Bucket)
    reads c
    requires c != [] && (|c| > 1 ==> forall i :: 0 <= i < |c| ==> c[i].value != null)
    ensures c[0].value == null ==> e == []
    ensures c[0].value != null ==> |e| == |c| && forall i :: 0 <= i < |c| ==> e[i] == Entry(c[i].value, c[i].refcount)
  {
    if c[0].value == null then []
    else [Entry(c[0].value, c[0].refcount)] + if |c| == 1 then [] else Stored(c[1..])
  }

  lemma StoredIs(c: seq<Rec>, e: Bucket)
    requires c != [] && (|c| > 1 ==> forall i :: 0 <= i < |c| ==> c[i].value != null)
    requires c[0].value != null && |e| == |c| && forall i :: 0 <= i < |c| ==> e[i] == Entry(c[i].value, c[i].refcount)
    ensures Stored(c) == e
  {
  }

  // ----- inserting into a chain --------------------------------------------------------------

  /** dict_insert's search: the record with this content, or the last one. */
  method Search(text: string, head: Rec, ghost c: seq<Rec>, ghost b: nat) returns (rec: Rec, found: bool, ghost i: nat)
    requires IsChain(c, b, head) && head.value != null
    ensures i < |c| && rec == c[i]
    ensures found <==> Find(Stored(c), text) < |c|
    ensures found ==> i == Find(Stored(c), text)
    ensures !found ==> i == |c| - 1
  {
    rec, i := head, 0;
    ghost var e := Stored(c);
    while true
      invariant i < |c| && rec == c[i]
      invariant forall k :: 0 <= k < i ==> e[k].handle.text != text
      decreases |c| - i
    {
      if rec.value.text == text {
        return rec, true, i;
      }
      if rec.next == null {
        LastOfChain(c, b, head, i);
        return rec, false, i;
      }
      LinkOfChain(c, b, head, i);
      rec := rec.next;
      i := i + 1;
    }
  }

  lemma LastOfChain(c: seq<Rec>, b: nat, head: Rec, i: nat)
    requires IsChain(c, b, head) && i < |c| && c[i].next == null
    ensures i == |c| - 1
  {
    var j := if i + 1 < |c| then i + 1 else i;
    assert c[j].bucket == b;
  }

  lemma LinkOfChain(c: seq<Rec>, b: nat, head: Rec, i: nat)
    requires IsChain(c, b, head) && i < |c| && c[i].next != null
    ensures i + 1 < |c| && c[i].next == c[i + 1]
  {
    assert i + 1 < |c| ==> c[i].next == c[i + 1];
  }

  /** The buffer that is stored for a new string: the caller's own, or a copy. */
  method Buffer(text: string, zerocopy: Handle?) returns (buffer: Handle)
    requires zerocopy != null ==> zerocopy.text == text
    ensures buffer.text == text && (if zerocopy != null then buffer == zerocopy else fresh(buffer))
  {
    if zerocopy != null {
      return zerocopy;
    }
    buffer := new Handle(text);
  }

  /** The string is there: its record is counted up. */
  method CountUp(rec: Rec, ghost c: seq<Rec>, ghost b: nat, ghost head: Rec, ghost i: nat)
    requires IsChain(c, b, head) && head.value != null && i < |c| && rec == c[i]
    modifies rec`refcount
    ensures IsChain(c, b, head)
    ensures Stored(c) == old(Stored(c))[i := Entry(rec.value, (old(rec.refcount) + 1) % UINT32)]
  {
    rec.refcount := (rec.refcount + 1) % UINT32;
    Distinct(c, b, head);
    StoredIs(c, old(Stored(c))[i := Entry(rec.value, rec.refcount)]);
  }

  lemma Distinct(c: seq<Rec>, b: nat, head: Rec)
    requires IsChain(c, b, head)
    ensures forall i, j :: 0 <= i < j < |c| ==> c[i] != c[j]
  {
  }

  /** A new record behind the last one of the chain. */
  method AppendRecord(h: Handle, last: Rec, ghost c: seq<Rec>, ghost b: nat, ghost head: Rec) returns (ghost c': seq<Rec>)
    requires IsChain(c, b, head) && head.value != null && last == c[|c| - 1]
    modifies last`next
    ensures IsChain(c', b, head) && Stored(c') == old(Stored(c)) + [Entry(h, 1)]
    ensures |c'| == |c| + 1 && c <= c' && fresh(c'[|c|])
  {
    OnlyAt(c, b, head, |c| - 1);
    AllStored(c, b, head);
    hide IsChain, Stored;
    var record := new Rec(b);
    record.value, record.refcount, record.next := h, 1, null;
    record.order := last.order + 1;
    last.next := record;
    c' := c + [record];
    Appended(c, b, record);
  }

  twostate lemma Appended(c: seq<Rec>, new b: nat, new record: Rec)
    requires c != [] && old(IsChain(c, b, c[0])) && c[|c| - 1].next == record && record.next == null
    requires record.value != null && record.bucket == b && record.order == c[|c| - 1].order + 1
    requires forall k :: 0 <= k < |c| ==> c[k].value != null && c[k].value == old(c[k].value) && c[k].refcount == old(c[k].refcount)
    requires forall k :: 0 <= k < |c| ==> c[k].bucket == old(c[k].bucket) && c[k].order == old(c[k].order)
    requires forall k :: 0 <= k < |c| - 1 ==> c[k].next == old(c[k].next)
    ensures IsChain(c + [record], b, c[0])
    ensures Stored(c + [record]) == old(Stored(c)) + [Entry(record.value, record.refcount)]
  {
    assert forall k, l {:trigger c[k].next, c[l]} :: 0 <= k && l == k + 1 && l < |c| ==> old(c[k].next) == c[l];
    AppendedChain(c, record, b, c[0]);
    StoredIs(c + [record], old(Stored(c)) + [Entry(record.value, record.refcount)]);
  }

  lemma AppendedChain(c: seq<Rec>, record: Rec, b: nat, head: Rec)
    requires c != [] && c[0] == head && head.value != null
    requires forall i :: 0 <= i < |c| ==> c[i].bucket == b && c[i].value != null
    requires forall i, j :: 0 <= i < j < |c| ==> c[i].order < c[j].order
    requires forall i, j {:trigger c[i].next, c[j]} :: 0 <= i && j == i + 1 && j < |c| ==> c[i].next == c[j]
    requires c[|c| - 1].next == record && record.next == null
    requires record.value != null && record.bucket == b && record.order == c[|c| - 1].order + 1
    ensures IsChain(c + [record], b, head)
  {
    var c' := c + [record];
    assert forall i :: 0 <= i < |c| ==> c'[i] == c[i];
  }

  /** The first record of a bucket. */
  method FillHead(h: Handle, head: Rec, ghost c: seq<Rec>, ghost b: nat)
    requires IsChain(c, b, head) && head.value == null
    modifies head`value, head`refcount, head`next
    ensures IsChain(c, b, head) && Stored(c) == [Entry(h, 1)]
  {
    head.value, head.refcount, head.next := h, 1, null;
  }

  lemma HeadOfChain(c: seq<Rec>, b: nat, head: Rec)
    requires IsChain(c, b, head)
    ensures c != [] && head in c && (|c| > 1 ==> forall i :: 0 <= i < |c| ==> c[i].value != null)
    ensures head.value == null ==> Stored(c) == []
  {
  }

  /** dict_insert on the chain of the string's bucket. */
  method InsertIntoChain(text: string, zerocopy: Handle?, head: Rec, ghost c: seq<Rec>, ghost b: nat)
    returns (h: Handle, added: bool, ghost c': seq<Rec>)
    requires IsChain(c, b, head)
    requires zerocopy != null ==> zerocopy.text == text
    modifies c
    ensures h.text == text && IsChain(c', b, head)
    ensures forall r :: r in c' ==> r in c || fresh(r)
    ensures Stored(c') == InsertBucket(old(Stored(c)), text, h) && h == InsertHandle(old(Stored(c)), text, h)
    ensures added <==> Find(old(Stored(c)), text) == |old(Stored(c))|
    ensures added ==> if zerocopy != null then h == zerocopy else fresh(h)
  {
    hide IsChain, Stored, Find;
    HeadOfChain(c, b, head);
    if head.value == null {
      h := Buffer(text, zerocopy);
      FillHead(h, head, c, b);
      assert InsertBucket([], text, h) == [Entry(h, 1)];
      return h, true, c;
    }
    StoredLength(c, b, head);
    var rec, found, i := Search(text, head, c, b);
    if found {
      h := rec.value;
      CountUp(rec, c, b, head, i);
      return h, false, c;
    }
    h := Buffer(text, zerocopy);
    c' := AppendRecord(h, rec, c, b, head);
    return h, true, c';
  }

  lemma StoredLength(c: seq<Rec>, b: nat, head: Rec)
    requires IsChain(c, b, head) && head.value != null
    ensures c != [] && (|c| > 1 ==> forall i :: 0 <= i < |c| ==> c[i].value != null)
    ensures |Stored(c)| == |c| && forall i :: 0 <= i < |c| ==> c[i].value != null && Stored(c)[i] == Entry(c[i].value, c[i].refcount)
  {
  }

  // ----- removing from a chain ---------------------------------------------------------------

  /** lydict_remove's search by address. */
  method SearchHandle(h: Handle, head: Rec, ghost c: seq<Rec>, ghost b: nat)
    returns (rec: Rec?, prev: Rec?, ghost i: nat)
    requires IsChain(c, b, head)
    ensures rec == null <==> FindHandle(Stored(c), h) == |Stored(c)|
    ensures rec != null ==> head.value != null && i == FindHandle(Stored(c), h) && i < |c| && rec == c[i]
    ensures rec != null ==> if i == 0 then prev == null else prev == c[i - 1]
  {
    rec, prev, i := head, null, 0;
    ghost var e := Stored(c);
    while rec != null && rec.value != h
      invariant i <= |c| && (rec == null <==> i == |c|) && (rec != null ==> rec == c[i])
      invariant if i == 0 then prev == null else prev == c[i - 1]
      invariant forall k :: 0 <= k < i && k < |e| ==> e[k].handle != h
      decreases |c| - i
    {
      NextOfChain(c, b, head, i);
      prev := rec;
      rec := rec.next;
      i := i + 1;
    }
  }

  lemma NextOfChain(c: seq<Rec>, b: nat, head: Rec, i: nat)
    requires IsChain(c, b, head) && i < |c|
    ensures if i + 1 < |c| then c[i].next == c[i + 1] else c[i].next == null
  {
    if i + 1 < |c| {
      assert c[i].next == c[i + 1];
    }
  }

  method CountDown(rec: Rec, ghost c: seq<Rec>, ghost b: nat, ghost head: Rec, ghost i: nat)
    requires IsChain(c, b, head) && head.value != null && i < |c| && rec == c[i]
    modifies rec`refcount
    ensures IsChain(c, b, head) && rec.refcount == (old(rec.refcount) + UINT32 - 1) % UINT32
    ensures Stored(c) == old(Stored(c))[i := Entry(rec.value, rec.refcount)]
  {
    rec.refcount := (rec.refcount + UINT32 - 1) % UINT32;
    Distinct(c, b, head);
    StoredIs(c, old(Stored(c))[i := Entry(rec.value, rec.refcount)]);
  }

  function Without<A>(s: seq<A>, i: nat): seq<A>
    requires i < |s|
  {
    s[..i] + s[i + 1..]
  }

  lemma WithoutAt<A>(s: seq<A>, i: nat)
    requires i < |s|
    ensures |Without(s, i)| == |s| - 1
    ensures forall k :: 0 <= k < |s| - 1 ==> Without(s, i)[k] == s[if k < i then k else k + 1]
  {
  }

  /** A record behind the head leaves the chain. */
  method Unlink(rec: Rec, prev: Rec, ghost c: seq<Rec>, ghost b: nat, ghost head: Rec, ghost i: nat) returns (ghost c': seq<Rec>)
    requires IsChain(c, b, head) && head.value != null && 0 < i < |c| && rec == c[i] && prev == c[i - 1]
    modifies prev`next
    ensures c' == Without(c, i)
    ensures IsChain(c', b, head)
    ensures Stored(c') == Without(old(Stored(c)), i)
  {
    OnlyAt(c, b, head, i - 1);
    AllStored(c, b, head);
    hide IsChain, Stored;
    prev.next := rec.next;  // null when the last record is removed
    c' := Without(c, i);
    Unlinked(c, b, i);
  }

  lemma AllStored(c: seq<Rec>, b: nat, head: Rec)
    requires IsChain(c, b, head) && head.value != null
    ensures c != [] && c[0] == head && forall k :: 0 <= k < |c| ==> c[k].value != null
  {
  }

  twostate lemma Unlinked(c: seq<Rec>, new b: nat, new i: nat)
    requires 0 < i < |c| && old(IsChain(c, b, c[0])) && c[i - 1].next == old(c[i].next)
    requires forall k :: 0 <= k < |c| ==> c[k].value != null && c[k].value == old(c[k].value) && c[k].refcount == old(c[k].refcount)
    requires forall k :: 0 <= k < |c| ==> c[k].bucket == old(c[k].bucket) && c[k].order == old(c[k].order)
    requires forall k :: 0 <= k < |c| && k != i - 1 ==> c[k].next == old(c[k].next)
    ensures IsChain(Without(c, i), b, c[0])
    ensures Stored(Without(c, i)) == Without(old(Stored(c)), i)
  {
    assert i + 1 < |c| ==> old(c[i].next) == c[i + 1];
    UnlinkedChain(c, b, c[0], i);
    StoredWithout(c, old(Stored(c)), i);
  }

  lemma OnlyAt(c: seq<Rec>, b: nat, head: Rec, i: nat)
    requires IsChain(c, b, head) && i < |c|
    ensures forall k :: 0 <= k < |c| && k != i ==> c[k] != c[i]
  {
    Distinct(c, b, head);
  }

  lemma StoredWithout(c: seq<Rec>, was: Bucket, i: nat)
    requires i < |c| == |was| && 1 < |c|
    requires forall k :: 0 <= k < |c| ==> c[k].value != null && was[k] == Entry(c[k].value, c[k].refcount)
    ensures Stored(Without(c, i)) == Without(was, i)
  {
    WithoutAt(c, i);
    WithoutAt(was, i);
    StoredIs(Without(c, i), Without(was, i));
  }

  lemma UnlinkedChain(c: seq<Rec>, b: nat, head: Rec, i: nat)
    requires 0 < i < |c| && c[0] == head && c[i - 1].next == (if i + 1 < |c| then c[i + 1] else null)
    requires forall k :: 0 <= k < |c| ==> c[k].bucket == b && c[k].value != null
    requires forall k, l :: 0 <= k < l < |c| ==> c[k].order < c[l].order
    requires forall k, l {:trigger c[k].next, c[l]} :: 0 <= k && l == k + 1 && l < |c| && k != i - 1 ==> c[k].next == c[l]
    requires i < |c| - 1 ==> c[|c| - 1].next == null
    ensures IsChain(Without(c, i), b, head)
  {
    var c' := Without(c, i);
    WithoutAt(c, i);
    forall k, l | 0 <= k && l == k + 1 && l < |c'| ensures c'[k].next == c'[l] {
      if k < i - 1 {
        assert c[k].next == c[l];
      } else if k >= i {
        assert c[k + 1].next == c[l + 1];
      }
    }
  }

  /** The record behind the head is moved into the static array, over the head that is removed. */
  method MoveIntoHead(head: Rec, ghost c: seq<Rec>, ghost b: nat) returns (ghost c': seq<Rec>)
    requires IsChain(c, b, head) && head.value != null && |c| > 1 && head.next != null
    modifies head`value, head`refcount, head`next
    ensures c' == [head] + c[2..] && IsChain(c', b, head) && Stored(c') == Without(old(Stored(c)), 0)
  {
    OnlyAt(c, b, head, 0);
    AllStored(c, b, head);
    HeadIsFirst(c, b, head);
    NextOfChain(c, b, head, 0);
    hide IsChain, Stored;
    var record := head.next;
    head.value, head.refcount, head.next := record.value, record.refcount, record.next;
    c' := [head] + c[2..];
    Moved(c, b);
  }

  twostate lemma Moved(c: seq<Rec>, new b: nat)
    requires |c| > 1 && old(IsChain(c, b, c[0])) && old(c[0].value) != null
    requires c[0].next == old(c[1].next) && c[0].value == old(c[1].value) && c[0].refcount == old(c[1].refcount)
    requires forall k :: 0 <= k < |c| ==> c[k].value != null && c[k].bucket == old(c[k].bucket) && c[k].order == old(c[k].order)
    requires forall k :: 0 < k < |c| ==> c[k].next == old(c[k].next)
    requires forall k :: 0 < k < |c| ==> c[k].value == old(c[k].value) && c[k].refcount == old(c[k].refcount)
    ensures IsChain([c[0]] + c[2..], b, c[0])
    ensures Stored([c[0]] + c[2..]) == Without(old(Stored(c)), 0)
  {
    assert 2 < |c| ==> old(c[1].next) == c[2];
    MovedChain(c, b, c[0]);
    MovedStored(c, old(Stored(c)), c[0]);
  }

  lemma MovedChain(c: seq<Rec>, b: nat, head: Rec)
    requires |c| > 1 && c[0] == head && head.next == (if |c| > 2 then c[2] else null)
    requires forall k :: 0 <= k < |c| ==> c[k].bucket == b && c[k].value != null
    requires forall k, l :: 0 <= k < l < |c| ==> c[k].order < c[l].order
    requires forall k, l {:trigger c[k].next, c[l]} :: 0 < k && l == k + 1 && l < |c| ==> c[k].next == c[l]
    requires |c| > 2 ==> c[|c| - 1].next == null
    ensures IsChain([head] + c[2..], b, head)
  {
    var c' := [head] + c[2..];
    assert forall k :: 0 < k < |c'| ==> c'[k] == c[k + 1];
    forall k, l | 0 <= k && l == k + 1 && l < |c'| ensures c'[k].next == c'[l] {
      if k > 0 {
        assert c[k + 1].next == c[l + 1];
      }
    }
  }

  lemma MovedStored(c: seq<Rec>, was: Bucket, head: Rec)
    requires 1 < |c| == |was| && head.value != null && was[1] == Entry(head.value, head.refcount)
    requires forall k :: 1 < k < |c| ==> c[k].value != null && was[k] == Entry(c[k].value, c[k].refcount)
    ensures Stored([head] + c[2..]) == Without(was, 0)
  {
    var c' := [head] + c[2..];
    WithoutAt(was, 0);
    assert forall k :: 0 < k < |c'| ==> c'[k] == c[k + 1];
    StoredIs(c', Without(was, 0));
  }

  method ClearHead(head: Rec, ghost c: seq<Rec>, ghost b: nat)
    requires IsChain(c, b, head) && |c| == 1
    modifies head`value, head`refcount, head`next
    ensures IsChain(c, b, head) && Stored(c) == []
  {
    head.value, head.refcount, head.next := null, 0, null;
  }

  /** lydict_remove on the chain of the string's bucket. */
  method RemoveFromChain(h: Handle, head: Rec, ghost c: seq<Rec>, ghost b: nat) returns (removed: bool, ghost c': seq<Rec>)
    requires IsChain(c, b, head)
    modifies c
    ensures IsChain(c', b, head) && forall r :: r in c' ==> r in c
    ensures Stored(c') == RemoveBucket(old(Stored(c)), h)
    ensures removed <==> |Stored(c')| < |old(Stored(c))|
  {
    hide IsChain, Stored, FindHandle;
    HeadOfChain(c, b, head);
    removed, c' := false, c;
    var rec, prev, i := SearchHandle(h, head, c, b);
    if rec == null {
      return;
    }
    StoredLength(c, b, head);
    ghost var was := Stored(c);
    CountDown(rec, c, b, head, i);
    if rec.refcount == 0 {
      removed := true;
      assert Without(was, i) == Without(Stored(c), i);
      c' := DropRecord(rec, prev, head, c, b, i);
    }
  }

  method DropRecord(rec: Rec, prev: Rec?, head: Rec, ghost c: seq<Rec>, ghost b: nat, ghost i: nat) returns (ghost c': seq<Rec>)
    requires IsChain(c, b, head) && head.value != null && i < |c| && rec == c[i]
    requires if i == 0 then prev == null else prev == c[i - 1]
    modifies c
    ensures IsChain(c', b, head) && (forall r :: r in c' ==> r in c) && Stored(c') == Without(old(Stored(c)), i)
  {
    hide IsChain, Stored;
    HeadIsFirst(c, b, head);
    NextOfChain(c, b, head, i);
    if prev != null {
      c' := Unlink(rec, prev, c, b, head, i);
    } else if rec.next != null {
      c' := MoveIntoHead(head, c, b);
    } else {
      ClearHead(head, c, b);
      c' := c;
    }
  }

  lemma HeadIsFirst(c: seq<Rec>, b: nat, head: Rec)
    requires IsChain(c, b, head) && head.value != null
    ensures c != [] && c[0] == head && |Stored(c)| == |c|
  {
  }

  // ----- the table ---------------------------------------------------------------------------

  /** The chains behind the bucket heads and what they store; all records are in `owned`. */
  ghost predicate AreChains(chains: seq<seq<Rec>>, heads: seq<Rec>, buckets: seq<Bucket>, owned: set<Rec>)
    reads owned
  {
    && |chains| == |heads| == |buckets|
    && (forall b, i :: 0 <= b < |chains| && 0 <= i < |chains[b]| ==> chains[b][i] in owned)
    && (forall b :: 0 <= b < |chains| ==> IsChain(chains[b], b, heads[b]))
    && (forall b :: 0 <= b < |chains| ==> buckets[b] == Stored(chains[b]))
  }

  /** Records of different buckets are different. */
  lemma ChainsApart(chains: seq<seq<Rec>>, heads: seq<Rec>, buckets: seq<Bucket>, owned: set<Rec>, b: nat)
    requires AreChains(chains, heads, buckets, owned) && b < |chains|
    ensures forall k, i :: 0 <= k < |chains| && k != b && 0 <= i < |chains[k]| ==> chains[k][i] !in chains[b]
    ensures forall i :: 0 <= i < |chains[b]| ==> chains[b][i] in owned
    ensures IsChain(chains[b], b, heads[b]) && buckets[b] == Stored(chains[b])
  {
    assert IsChain(chains[b], b, heads[b]);
    forall k, i | 0 <= k < |chains| && k != b && 0 <= i < |chains[k]| ensures chains[k][i] !in chains[b] {
      assert IsChain(chains[k], k, heads[k]);
    }
  }

  method BucketOf(text: string) returns (b: nat)
    ensures b == Index(text)
  {
    var hash := DictHash(text);
    b := (hash & 0x3ff) as nat;
  }

  lemma EmptyBuckets()
    ensures Empty().used == 0 && |Empty().buckets| == DICT_SIZE
    ensures forall k :: 0 <= k < DICT_SIZE ==> Empty().buckets[k] == []
  {
  }

  ghost predicate IsUnused(head: Rec, b: nat)
    reads head
  {
    head.bucket == b && head.value == null && head.next == null
  }

  lemma UnusedHead(head: Rec, b: nat)
    requires IsUnused(head, b)
    ensures IsChain([head], b, head) && Stored([head]) == []
  {
  }

  ghost function Singles(all: seq<Rec>): (cs: seq<seq<Rec>>)
    ensures |cs| == |all| && forall b :: 0 <= b < |all| ==> cs[b] == [all[b]]
  {
    seq(|all|, b requires 0 <= b < |all| => [all[b]])
  }

  lemma UnusedChains(all: seq<Rec>)
    requires |all| == DICT_SIZE && forall b :: 0 <= b < DICT_SIZE ==> IsUnused(all[b], b)
    ensures Empty().used == 0 && AreChains(Singles(all), all, Empty().buckets, set r | r in all)
  {
    hide IsChain, Stored, Empty, IsUnused;
    EmptyBuckets();
    forall b | 0 <= b < DICT_SIZE ensures IsChain([all[b]], b, all[b]) && Stored([all[b]]) == [] {
      UnusedHead(all[b], b);
    }
  }

  /** The zeroed static array. */
  method UnusedHeads() returns (heads: array<Rec>, ghost all: seq<Rec>)
    ensures fresh(heads) && heads[..] == all && |all| == DICT_SIZE && fresh(all)
    ensures forall b :: 0 <= b < DICT_SIZE ==> IsUnused(all[b], b)
  {
    var first := new Rec(0);
    heads, all := new Rec[DICT_SIZE](_ => first), [];
    var b := 0;
    while b < DICT_SIZE
      invariant 0 <= b == |all| <= heads.Length == DICT_SIZE && fresh(heads) && fresh(all)
      invariant heads[..b] == all
      invariant forall k :: 0 <= k < b ==> IsUnused(all[k], k)
    {
      var head := new Rec(b);
      heads[b] := head;
      all, b := all + [head], b + 1;
    }
  }

  class Dict {
    const recs: array<Rec>
    var used: nat
    ghost var chains: seq<seq<Rec>>
    ghost var owned: set<Rec>
    ghost var table: Table  // the table of Dictionary this one implements

    ghost predicate Valid()
      reads this, recs, owned
    {
      && recs.Length == DICT_SIZE && table.used == used < UINT32
      && AreChains(chains, recs[..], table.buckets, owned)
    }

    /** lydict_init of a zeroed context. */
    constructor ()
      ensures Valid() && table == Empty()
      ensures fresh(recs) && fresh(owned)
    {
      hide AreChains, Singles, IsUnused, Empty;
      var heads;
      ghost var all;
      heads, all := UnusedHeads();
      recs, used := heads, 0;
      chains, owned, table := Singles(all), (set r | r in all), Empty();
      new;
      UnusedChains(all);
    }

    /** Everything Valid says of the chains, except for bucket `b`. */
    ghost predicate ValidExcept(b: nat)
      reads this, recs, owned
    {
      && recs.Length == DICT_SIZE == |chains| == |table.buckets| && b < DICT_SIZE
      && (forall k, i :: 0 <= k < DICT_SIZE && k != b && 0 <= i < |chains[k]| ==> chains[k][i] in owned)
      && (forall k :: 0 <= k < DICT_SIZE && k != b ==> IsChain(chains[k], k, recs[k]) && table.buckets[k] == Stored(chains[k]))
    }

    /** Changing the records of one bucket leaves the other buckets alone. */
    twostate lemma OthersStay(new b: nat)
      requires old(Valid()) && b < DICT_SIZE
      requires unchanged(this) && unchanged(recs)
      requires forall k, i :: 0 <= k < DICT_SIZE && k != b && 0 <= i < |chains[k]| ==> chains[k][i] !in chains[b]
      requires forall r :: r in owned && r !in chains[b] ==> unchanged(r)
      ensures ValidExcept(b)
    {
      hide Stored;
      forall k | 0 <= k < DICT_SIZE && k != b ensures IsChain(chains[k], k, recs[k]) && table.buckets[k] == Stored(chains[k]) {
        assert old(IsChain(chains[k], k, recs[k]));
        forall i | 0 <= i < |chains[k]| ensures unchanged(chains[k][i]) {
          assert chains[k][i] in owned;
        }
      }
    }

    /** Bucket `b` has a new chain. */
    ghost method SetChain(b: nat, c: seq<Rec>, bucket: Bucket)
      requires ValidExcept(b) && IsChain(c, b, recs[b]) && Stored(c) == bucket
      requires used == Updated(table, b, bucket).used
      modifies `chains, `owned, `table
      ensures Valid() && table == Updated(old(table), b, bucket)
      ensures owned == old(owned) + set r | r in c
    {
      hide IsChain, Stored;
      chains, owned := chains[b := c], owned + (set r | r in c);
      table := Updated(table, b, bucket);
    }

    lemma ValidBucket(b: nat)
      requires Valid() && b < DICT_SIZE
      ensures |chains| == |table.buckets| == recs.Length == DICT_SIZE && used == table.used < UINT32
      ensures IsChain(chains[b], b, recs[b]) && table.buckets[b] == Stored(chains[b])
      ensures forall r :: r in chains[b] ==> r in owned
      ensures forall k, i :: 0 <= k < DICT_SIZE && k != b && 0 <= i < |chains[k]| ==> chains[k][i] !in chains[b]
    {
      hide Stored;
      ChainsApart(chains, recs[..], table.buckets, owned, b);
    }

    /** dict_insert. */
    method DictInsert(text: string, zerocopy: Handle?) returns (h: Handle)
      requires Valid() && (zerocopy != null ==> zerocopy.text == text)
      modifies this, owned
      ensures Valid() && fresh(owned - old(owned))
      ensures h.text == text && table == Insert(old(table), text, h) && h == Inserted(old(table), text, h)
      ensures !Present(old(table), text) ==> if zerocopy != null then h == zerocopy else fresh(h)
    {
      hide IsChain, Stored, AreChains, Index, InsertBucket, InsertHandle, Find;
      var b := BucketOf(text);
      ValidBucket(b);
      ghost var bucket := table.buckets[b];
      var added;
      ghost var c;
      h, added, c := InsertIntoChain(text, zerocopy, recs[b], chains[b], b);
      OthersStay(b);
      if added {
        used := (used + 1) % UINT32;
      }
      InsertedSize(bucket, text, h);
      SetChain(b, c, InsertBucket(bucket, text, h));
    }

    /** lydict_insert; a zero length means the whole string. */
    method Intern(value: Option<string>, len: nat) returns (h: Handle?)
      requires Valid() && (value.Some? ==> IsCString(value.value) && len <= |value.value|)
      modifies this, owned
      ensures Valid() && fresh(owned - old(owned))
      ensures value.None? ==> h == null && table == old(table)
      ensures value.Some? ==>
                var text := if len == 0 then value.value else value.value[..len];
                h != null && h.text == text && table == Insert(old(table), text, h) && h == Inserted(old(table), text, h)
      ensures value.Some? && !Present(old(table), if len == 0 then value.value else value.value[..len]) ==> fresh(h)
    {
      if value.None? {
        return null;
      }
      h := DictInsert(if len == 0 then value.value else value.value[..len], null);
    }

    /** lydict_insert_zc; the caller's buffer itself is stored if the string is new. */
    method InternBuffer(value: Handle?) returns (h: Handle?)
      requires Valid()
      modifies this, owned
      ensures Valid() && fresh(owned - old(owned))
      ensures value == null ==> h == null && table == old(table)
      ensures value != null ==>
                h != null && h.text == value.text && table == Insert(old(table), value.text, value)
                && h == Inserted(old(table), value.text, value)
    {
      if value == null {
        return null;
      }
      h := DictInsert(value.text, value);
      SameInsert(old(table), value.text, value, h);
    }

    /** lydict_remove. */
    method Release(value: Handle?)
      requires Valid()
      modifies this, owned
      ensures Valid() && fresh(owned - old(owned))
      ensures table == if value == null then old(table) else Remove(old(table), value)
    {
      hide IsChain, Stored, AreChains, Index, RemoveBucket;
      if value == null || used == 0 {
        return;
      }
      var b := BucketOf(value.text);
      ValidBucket(b);
      ghost var bucket := table.buckets[b];
      var removed;
      ghost var c;
      removed, c := RemoveFromChain(value, recs[b], chains[b], b);
      OthersStay(b);
      if removed {
        used := used - 1;
      }
      RemovedSize(bucket, value);
      SetChain(b, c, RemoveBucket(bucket, value));
    }
  }

  lemma RemovedSize(bucket: Bucket, h: Handle)
    ensures |bucket| - 1 <= |RemoveBucket(bucket, h)| <= |bucket|
  {
  }

  /** An insert depends on the new buffer only when it is used. */
  lemma SameInsert(t: Table, text: string, buffer: Handle, h: Handle)
    requires |t.buckets| == DICT_SIZE && h == Inserted(t, text, h) && (!Present(t, text) ==> h == buffer)
    ensures Insert(t, text, h) == Insert(t, text, buffer) && h == Inserted(t, text, buffer)
  {
    hide Index;
  }

  lemma InsertedSize(bucket: Bucket, text: string, h: Handle)
    ensures |InsertBucket(bucket, text, h)| == |bucket| + if Find(bucket, text) == |bucket| then 1 else 0
    ensures Find(bucket, text) < |bucket| ==> InsertHandle(bucket, text, h) == bucket[Find(bucket, text)].handle
  {
  }
}

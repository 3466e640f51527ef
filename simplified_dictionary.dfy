/** A separate-chaining hash table over two parallel arrays: `buckets` holds
    the slot index of each chain's head (or -1), `entries` holds the slots,
    each with its masked hash code, the index of the next slot on its chain
    (or -1), its key and its value. Slots are appended at index `count`,
    never removed, and duplicate keys are allowed: a lookup finds the most
    recently added slot with the key. */
module DictionaryPlayground {
  import HashHelpers

  datatype Option<T> = None | Some(value: T)

  /** The 32-bit signed integers that `GetHashCode` returns. */
  newtype int32 = x: int | -0x8000_0000 <= x < 0x8000_0000

  /** On the 32 bits of a hash code, `& 0x7FFFFFFF` clears the sign bit:
      the bits of a non-negative value are kept, and a negative value (sign
      bit set) loses 2^31 from its unsigned reading. */
  lemma SignBitCleared(bits: bv32)
    ensures bits < 0x8000_0000 ==> bits & 0x7FFF_FFFF == bits
    ensures bits >= 0x8000_0000 ==> bits & 0x7FFF_FFFF == bits - 0x8000_0000
  {
  }

  /** `GetHashCode(key) & 0x7FFFFFFF` on a two's-complement hash code `h`,
      computed as the lemma above describes it: a negative `h` reads as
      h + 2^32 unsigned, and clearing the sign bit leaves h + 2^31. The
      result is non-negative and agrees with `h` modulo 2^31. */
  function Mask(h: int32): (r: int)
    ensures 0 <= r < 0x8000_0000
    ensures r % 0x8000_0000 == (h as int) % 0x8000_0000
    ensures h >= 0 ==> r == h as int
  {
    if h < 0 then h as int + 0x8000_0000 else h as int
  }

  /** The bucket of a hash code in a table of `n` buckets. The source's
      remainder truncates toward zero, so the index is in range only for a
      non-negative hash code, which the mask guarantees. */
  function BucketOf(hashCode: int, n: int): (b: int)
    requires 0 <= hashCode && 0 < n
    ensures 0 <= b < n
    ensures hashCode < n ==> b == hashCode
  {
    hashCode % n
  }

  /** One slot of the slot array. */
  datatype Entry<K, V> = Entry(hashCode: int, next: int, key: K, value: V)

  // ---------------------------------------------------------------------
  // The layout of the chains, stated on values
  // ---------------------------------------------------------------------

  /** The highest slot of `es` whose hash code falls in bucket `b` of `n`,
      or -1 when there is none. */
  function LastInBucket<K, V>(es: seq<Entry<K, V>>, n: int, b: int): (r: int)
    requires 0 < n
    ensures -1 <= r < |es|
    ensures r >= 0 ==> es[r].hashCode % n == b
    ensures forall j :: r < j < |es| ==> es[j].hashCode % n != b
  {
    if |es| == 0 then -1
    else if es[|es| - 1].hashCode % n == b then |es| - 1
    else LastInBucket(es[..|es| - 1], n, b)
  }

  /** Bucket `b`'s head is the highest slot in that bucket. */
  ghost predicate HeadOk<K, V>(bs: seq<int>, es: seq<Entry<K, V>>, b: int)
    requires 0 <= b < |bs|
  {
    bs[b] == LastInBucket(es, |bs|, b)
  }

  /** Slot `i` links to the highest earlier slot in its own bucket. */
  ghost predicate LinkOk<K, V>(es: seq<Entry<K, V>>, n: int, i: int)
    requires 0 <= i < |es| && 0 < n
  {
    es[i].next == LastInBucket(es[..i], n, es[i].hashCode % n)
  }

  /** The chain invariant: every head and every link is as above. Links
      therefore always point to earlier slots, and each bucket's chain
      lists exactly its slots, newest first. */
  ghost predicate Linked<K, V>(bs: seq<int>, es: seq<Entry<K, V>>)
  {
    0 < |bs| &&
    (forall b :: 0 <= b < |bs| ==> HeadOk(bs, es, b)) &&
    (forall i :: 0 <= i < |es| ==> LinkOk(es, |bs|, i))
  }

  /** Every link points to an earlier slot or is -1. */
  ghost predicate LinksBackward<K, V>(es: seq<Entry<K, V>>)
  {
    forall j :: 0 <= j < |es| ==> -1 <= es[j].next < j
  }

  /** The slots reached from slot `i` by following `next` links. */
  ghost function Chain<K, V>(es: seq<Entry<K, V>>, i: int): (c: seq<int>)
    requires LinksBackward(es)
    requires -1 <= i < |es|
    ensures i >= 0 ==> |c| > 0 && c[0] == i
    ensures forall x :: x in c ==> 0 <= x <= i
    decreases i + 1
  {
    if i < 0 then [] else [i] + Chain(es, es[i].next)
  }

  ghost predicate StrictlyDecreasing(c: seq<int>)
  {
    forall x, y :: 0 <= x < y < |c| ==> c[x] > c[y]
  }

  /** What a lookup needs of a bucket's head: it is -1 or a slot of that
      bucket, and no later slot is in that bucket. */
  lemma HeadFacts<K, V>(bs: seq<int>, es: seq<Entry<K, V>>, b: int)
    requires Linked(bs, es)
    requires 0 <= b < |bs|
    ensures -1 <= bs[b] < |es|
    ensures bs[b] >= 0 ==> es[bs[b]].hashCode % |bs| == b
    ensures forall j :: bs[b] < j < |es| ==> es[j].hashCode % |bs| != b
  {
    assert HeadOk(bs, es, b);
  }

  /** What a lookup needs of a link: it points to an earlier slot of the
      same bucket, or is -1, and skips only slots of other buckets. */
  lemma NextFacts<K, V>(bs: seq<int>, es: seq<Entry<K, V>>, i: int)
    requires Linked(bs, es)
    requires 0 <= i < |es|
    ensures -1 <= es[i].next < i
    ensures es[i].next >= 0 ==> es[es[i].next].hashCode % |bs| == es[i].hashCode % |bs|
    ensures forall j :: es[i].next < j < i ==> es[j].hashCode % |bs| != es[i].hashCode % |bs|
  {
    assert LinkOk(es, |bs|, i);
    var prefix := es[..i];
    assert forall j :: 0 <= j < i ==> prefix[j] == es[j];
  }

  /** Prepending a slot to the chain of its bucket keeps the chain
      invariant: this is the step shared by insertion and by the rebuild. */
  lemma InsertLinks<K, V>(bs: seq<int>, es: seq<Entry<K, V>>, e: Entry<K, V>)
    requires Linked(bs, es)
    ensures var b := e.hashCode % |bs|;
      Linked(bs[b := |es|], es + [e.(next := bs[b])])
  {
    var n, b := |bs|, e.hashCode % |bs|;
    var bs', es' := bs[b := |es|], es + [e.(next := bs[b])];
    assert es'[..|es|] == es;
    forall c | 0 <= c < n
      ensures HeadOk(bs', es', c)
    {
      assert HeadOk(bs, es, c);
    }
    forall i | 0 <= i < |es'|
      ensures LinkOk(es', n, i)
    {
      if i < |es| {
        assert LinkOk(es, n, i);
        assert es'[..i] == es[..i];
      } else {
        assert HeadOk(bs, es, b);
      }
    }
  }

  /** Following links from the highest slot of bucket `b` below `k` visits,
      in strictly decreasing order, exactly the slots of bucket `b` below `k`. */
  lemma {:induction false} ChainBelow<K, V>(bs: seq<int>, es: seq<Entry<K, V>>, b: int, k: nat)
    requires Linked(bs, es)
    requires LinksBackward(es)
    requires k <= |es|
    ensures var c := Chain(es, LastInBucket(es[..k], |bs|, b));
      StrictlyDecreasing(c) &&
      (forall x :: x in c ==> x < k) &&
      (forall x :: x in c <==> 0 <= x < k && es[x].hashCode % |bs| == b)
    decreases k
  {
    var n := |bs|;
    var prefix := es[..k];
    assert forall j :: 0 <= j < k ==> prefix[j] == es[j];
    var i := LastInBucket(prefix, n, b);
    if i >= 0 {
      assert LinkOk(es, n, i);
      assert prefix[..i] == es[..i];
      ChainBelow(bs, es, b, i);
      var tail := Chain(es, LastInBucket(es[..i], n, b));
      var c := Chain(es, i);
      assert c == [i] + tail;
      forall x, y | 0 <= x < y < |c|
        ensures c[x] > c[y]
      {
        assert c[y] == tail[y - 1] && c[y] in tail;
        if x > 0 {
          assert c[x] == tail[x - 1];
        }
      }
    }
  }

  /** Links always point backward: the walk of a chain terminates. */
  lemma LinkedBackward<K, V>(bs: seq<int>, es: seq<Entry<K, V>>)
    requires Linked(bs, es)
    ensures LinksBackward(es)
  {
    forall i | 0 <= i < |es|
      ensures -1 <= es[i].next < i
    {
      NextFacts(bs, es, i);
    }
  }

  /** Every bucket's chain holds strictly decreasing slot indices (so it is
      finite and acyclic) and lists exactly the slots in that bucket. */
  lemma ChainIsBucket<K, V>(bs: seq<int>, es: seq<Entry<K, V>>, b: int)
    requires Linked(bs, es)
    requires 0 <= b < |bs|
    ensures LinksBackward(es) && -1 <= bs[b] < |es|
    ensures StrictlyDecreasing(Chain(es, bs[b]))
    ensures forall x :: x in Chain(es, bs[b]) <==> 0 <= x < |es| && es[x].hashCode % |bs| == b
  {
    LinkedBackward(bs, es);
    assert HeadOk(bs, es, b);
    ChainBelow(bs, es, b, |es|);
    assert es[..|es|] == es;
  }

  // ---------------------------------------------------------------------
  // What a lookup means, stated on the insertion log
  // ---------------------------------------------------------------------

  /** The position of the most recent pair with key `key`, or -1. */
  function LastIndexOf<K(==), V>(log: seq<(K, V)>, key: K): (r: int)
    ensures -1 <= r < |log|
    ensures r >= 0 ==> log[r].0 == key
    ensures forall j :: r < j < |log| ==> log[j].0 != key
  {
    if |log| == 0 then -1
    else if log[|log| - 1].0 == key then |log| - 1
    else LastIndexOf(log[..|log| - 1], key)
  }

  /** A position holding `key` with no later `key`, or -1 with no `key` at
      all, is the last position of `key`. */
  lemma LastIndexOfUnique<K, V>(log: seq<(K, V)>, key: K, i: int)
    requires -1 <= i < |log|
    requires i >= 0 ==> log[i].0 == key
    requires forall j :: i < j < |log| ==> log[j].0 != key
    ensures LastIndexOf(log, key) == i
  {
  }

  /** The value most recently added with `key`, or None (the default value)
      when `key` was never added. */
  function Lookup<K(==), V>(log: seq<(K, V)>, key: K): (r: Option<V>)
    ensures r.None? <==> forall j :: 0 <= j < |log| ==> log[j].0 != key
    ensures r.Some? ==> exists i :: 0 <= i < |log| && log[i] == (key, r.value) &&
                          forall j :: i < j < |log| ==> log[j].0 != key
  {
    var i := LastIndexOf(log, key);
    if i < 0 then None else Some(log[i].1)
  }

  /** The most recent insert of a key wins. */
  lemma LookupAfterAdd<K, V>(log: seq<(K, V)>, key: K, value: V)
    ensures Lookup(log + [(key, value)], key) == Some(value)
  {
  }

  /** Adding another key leaves a lookup unchanged. */
  lemma LookupAfterOtherAdd<K, V>(log: seq<(K, V)>, key: K, other: K, value: V)
    requires other != key
    ensures Lookup(log + [(other, value)], key) == Lookup(log, key)
  {
  }

  /** A value stays the answer for its key until the key is added again,
      however many other keys are added after it. */
  lemma {:induction false} LookupUntilShadowed<K, V>(log: seq<(K, V)>, key: K, value: V, later: seq<(K, V)>)
    requires forall j :: 0 <= j < |later| ==> later[j].0 != key
    ensures Lookup(log + [(key, value)] + later, key) == Some(value)
    decreases |later|
  {
    if |later| == 0 {
      assert log + [(key, value)] + later == log + [(key, value)];
      LookupAfterAdd(log, key, value);
    } else {
      var front := later[..|later| - 1];
      LookupUntilShadowed(log, key, value, front);
      assert log + [(key, value)] + later == (log + [(key, value)] + front) + [later[|later| - 1]];
      LookupAfterOtherAdd(log + [(key, value)] + front, key, later[|later| - 1].0, later[|later| - 1].1);
    }
  }

  // ---------------------------------------------------------------------
  // The table
  // ---------------------------------------------------------------------

  /** The slots of `es` carry exactly the pairs of `log`, in order, each
      with the masked hash of its key. */
  ghost predicate Stores<K, V>(es: seq<Entry<K, V>>, log: seq<(K, V)>, hash: K -> int32)
  {
    |es| == |log| &&
    forall i :: 0 <= i < |es| ==>
      es[i].key == log[i].0 && es[i].value == log[i].1 && es[i].hashCode == Mask(hash(log[i].0))
  }

  /** Changing a slot's link keeps what the slots store. */
  lemma StoresRelinked<K, V>(es: seq<Entry<K, V>>, log: seq<(K, V)>, hash: K -> int32, i: int, next: int)
    requires Stores(es, log, hash)
    requires 0 <= i < |es|
    ensures Stores(es[i := es[i].(next := next)], log, hash)
  {
  }

  /** With every bucket empty, no slot is linked yet. */
  lemma EmptyLinked<K, V>(bs: seq<int>)
    requires 0 < |bs|
    requires forall b :: 0 <= b < |bs| ==> bs[b] == -1
    ensures Linked<K, V>(bs, [])
  {
  }

  /** One insertion: a slot for (key, value) appended after the stored
      slots and made the head of its bucket keeps the chain invariant and
      stores the log extended by the pair. */
  lemma Append<K, V>(bs: seq<int>, es: seq<Entry<K, V>>, log: seq<(K, V)>, hash: K -> int32, key: K, value: V)
    requires Stores(es, log, hash)
    requires Linked(bs, es)
    ensures var h := Mask(hash(key));
      var b := h % |bs|;
      var es' := es + [Entry(h, bs[b], key, value)];
      Linked(bs[b := |es|], es') && Stores(es', log + [(key, value)], hash)
  {
    InsertLinks(bs, es, Entry(Mask(hash(key)), 0, key, value));
  }

  /** One step of the rebuild: linking slot `i` at the head of its bucket
      extends the chain invariant to slots `0..i` and keeps what the slots
      store. */
  lemma Relink<K, V>(bs: seq<int>, es: seq<Entry<K, V>>, i: nat, count: nat, log: seq<(K, V)>, hash: K -> int32)
    requires i < count <= |es|
    requires Stores(es[..count], log, hash)
    requires Linked(bs, es[..i])
    ensures var b := es[i].hashCode % |bs|;
      var es' := es[i := es[i].(next := bs[b])];
      Linked(bs[b := i], es'[..i + 1]) && Stores(es'[..count], log, hash)
  {
    var b := es[i].hashCode % |bs|;
    var es' := es[i := es[i].(next := bs[b])];
    InsertLinks(bs, es[..i], es[i]);
    assert es'[..i + 1] == es[..i] + [es[i].(next := bs[b])];
    StoresRelinked(es[..count], log, hash, i, bs[b]);
    assert es'[..count] == es[..count][i := es[i].(next := bs[b])];
  }

  /** A fresh bucket array of `size` buckets, every one empty (-1). */
  method NewEmptyBuckets(size: nat) returns (bs: array<int>)
    ensures fresh(bs) && bs.Length == size
    ensures forall b :: 0 <= b < size ==> bs[b] == -1
  {
    bs := new int[size];
    var i := 0;
    while i < bs.Length
      invariant 0 <= i <= bs.Length
      invariant forall b :: 0 <= b < i ==> bs[b] == -1
    {
      bs[i] := -1;
      i := i + 1;
    }
  }

  class EducationalDictionary<K(==, 0), V(0)> {
    var buckets: array<int>
    var entries: array<Entry<K, V>>
    var count: nat
    /** The key type's hash function; key equality is Dafny's `==`. */
    const hash: K -> int32
    /** Every pair added so far, oldest first. */
    ghost var Log: seq<(K, V)>

    ghost predicate Valid()
      reads this, buckets, entries
    {
      0 < buckets.Length == entries.Length &&
      count <= entries.Length &&
      Stores(entries[..count], Log, hash) &&
      Linked(buckets[..], entries[..count])
    }

    /** An empty dictionary at the policy's smallest capacity. */
    constructor (hash: K -> int32)
      ensures Valid() && fresh(buckets) && fresh(entries)
      ensures this.hash == hash && Log == [] && count == 0
      ensures buckets.Length == entries.Length == 3
      ensures forall b :: 0 <= b < buckets.Length ==> buckets[b] == -1
    {
      this.hash := hash;
      var size := HashHelpers.GetPrime(0);
      HashHelpers.InitialCapacities();
      var bs := NewEmptyBuckets(size);
      buckets := bs;
      entries := new Entry<K, V>[size];
      count := 0;
      Log := [];
    }

    /** The value most recently added with `key`, or None (the default
        value) when `key` was never added. */
    method GetValueOrDefault(key: K) returns (v: Option<V>)
      requires Valid()
      ensures v == Lookup(Log, key)
    {
      var i := FindEntry(key);
      v := if i >= 0 then Some(entries[i].value) else None;
    }

    /** Appends (key, value) at slot `count` and makes it the head of its
        bucket's chain, after growing the table when it is full. */
    method Add(key: K, value: V)
      requires Valid()
      modifies this, buckets, entries
      ensures Valid()
      ensures Log == old(Log) + [(key, value)]
      ensures count == old(count) + 1
      ensures old(count) == old(entries.Length) ==>
        fresh(buckets) && fresh(entries) && entries.Length == HashHelpers.ExpandPrime(old(count))
      ensures old(count) < old(entries.Length) ==>
        buckets == old(buckets) && entries == old(entries) &&
        var b := Mask(hash(key)) % buckets.Length;
        entries[old(count)] == Entry(Mask(hash(key)), old(buckets[b]), key, value) &&
        buckets[b] == old(count) &&
        (forall c :: 0 <= c < buckets.Length && c != b ==> buckets[c] == old(buckets[c])) &&
        (forall i :: 0 <= i < entries.Length && i != old(count) ==> entries[i] == old(entries[i]))
    {
      var hashCode := Mask(hash(key));
      var targetBucket := BucketOf(hashCode, buckets.Length);

      if count == entries.Length {
        Resize(HashHelpers.ExpandPrime(count));
        targetBucket := BucketOf(hashCode, buckets.Length);
      }

      ghost var es, bs := entries[..count], buckets[..];
      Append(bs, es, Log, hash, key, value);
      var index := count;
      count := count + 1;

      entries[index] := Entry(hashCode, buckets[targetBucket], key, value);
      buckets[targetBucket] := index;
      Log := Log + [(key, value)];
      assert buckets[..] == bs[targetBucket := index];
      assert entries[..count] == es + [Entry(hashCode, bs[targetBucket], key, value)];
    }

    /** Replaces both arrays by arrays of `newSize` slots, copies the used
        slots and relinks them in ascending slot order. */
    method Resize(newSize: int)
      requires Valid()
      requires count <= newSize && 0 < newSize
      modifies this
      ensures Valid() && fresh(buckets) && fresh(entries)
      ensures entries.Length == newSize
      ensures count == old(count) && Log == old(Log)
      ensures forall i :: 0 <= i < count ==>
        entries[i].hashCode == old(entries[i].hashCode) &&
        entries[i].key == old(entries[i].key) &&
        entries[i].value == old(entries[i].value)
    {
      var newBuckets := NewEmptyBuckets(newSize);
      var newEntries := new Entry<K, V>[newSize];
      forall i | 0 <= i < count {
        newEntries[i] := entries[i];
      }
      assert newEntries[..count] == entries[..count];
      EmptyLinked<K, V>(newBuckets[..]);
      assert newEntries[..0] == [];

      var i := 0;
      while i < count
        invariant 0 <= i <= count
        invariant Stores(newEntries[..count], Log, hash)
        invariant Linked(newBuckets[..], newEntries[..i])
        modifies newBuckets, newEntries
      {
        assert newEntries[..count][i] == newEntries[i];
        if newEntries[i].hashCode >= 0 {
          ghost var es, bs := newEntries[..], newBuckets[..];
          var bucket := BucketOf(newEntries[i].hashCode, newSize);
          Relink(bs, es, i, count, Log, hash);
          newEntries[i] := newEntries[i].(next := newBuckets[bucket]);
          newBuckets[bucket] := i;
          assert newBuckets[..] == bs[bucket := i];
          assert newEntries[..] == es[i := es[i].(next := bs[bucket])];
        }
        i := i + 1;
      }

      buckets := newBuckets;
      entries := newEntries;
    }

    /** The slot of the most recent `key`, found by walking its bucket's
        chain, or -1 when `key` was never added. */
    method FindEntry(key: K) returns (i: int)
      requires Valid()
      ensures i == LastIndexOf(Log, key)
      ensures i >= 0 ==> entries[i].key == key
    {
      var hashCode := Mask(hash(key));
      var initialBucketIndex := BucketOf(hashCode, buckets.Length);

      ghost var es := entries[..count];
      HeadFacts(buckets[..], es, initialBucketIndex);
      i := buckets[initialBucketIndex];
      while i >= 0
        invariant -1 <= i < count
        invariant i >= 0 ==> es[i].hashCode % buckets.Length == initialBucketIndex
        invariant forall j :: i < j < count ==> es[j].key != key
        decreases i + 1
      {
        if entries[i].hashCode == hashCode && entries[i].key == key {
          LastIndexOfUnique(Log, key, i);
          return;
        }
        NextFacts(buckets[..], es, i);
        i := entries[i].next;
      }
      LastIndexOfUnique(Log, key, -1);
      return -1;
    }
  }
}

# EducationalDictionary in Dafny

This project models the hand-written hash table of the DictionaryPlayground
project, `EducationalDictionary<TKey, TValue>`, and its capacity policy
`HashHelpers`. The table does separate chaining over two parallel arrays:

- `buckets` holds, for each bucket, the slot index of the head of its chain, or -1.
- `entries` holds the slots. Each slot is a record of the masked hash code,
  the index of the next slot on the chain (or -1), the key and the value.
- `count` is the next free slot.

`Add` always prepends a new slot to its bucket's chain. It never looks for
an equal key, so duplicate keys are allowed. When the table is full, `Add`
first calls `Resize` with the next capacity from the prime table. `Resize`
copies the slots and relinks them in ascending slot order. `FindEntry`
walks a chain through the `next` indices.

Files:

- `hash_helpers.dfy` (module `HashHelpers`): the prime table, `GetPrime`
  and `ExpandPrime` as functions, and the proof that the table is strictly
  ascending.
- `simplified_dictionary.dfy` (module `DictionaryPlayground`): the hash
  mask, the slot record, the chain invariant stated on sequences, the
  meaning of a lookup stated on the insertion log, and the class
  `EducationalDictionary` with its arrays, its invariant `Valid()` and its
  methods.
- `unit_tests.dfy` (module `DictionaryPlaygroundTests`): the two unit tests
  as client methods whose postconditions are the tests' expectations.

The class keeps a ghost field `Log`, the sequence of all (key, value) pairs
added so far. `Valid()` ties the arrays to it in two ways:

- The slots `entries[0..count)` store exactly the pairs of `Log`, in order,
  each with the masked hash of its key.
- Chains: each bucket's head is the highest slot in that bucket. Each slot
  links to the highest earlier slot in its own bucket (`Linked`).

From this invariant the model proves:

- Every chain holds strictly decreasing indices below `count`, so the chain
  walk terminates.
- Each chain lists exactly the slots of its bucket.
- `FindEntry` returns the last slot whose key equals the key looked up.
- `GetValueOrDefault` returns the most recently added value for the key.
- `Resize` keeps every pair.

`GetValueOrDefault` and `FindEntry` have no `modifies` clause, so a lookup
never changes the table.

The key type's hash function is a constructor parameter, `hash: K -> int32`.
It stands for `EqualityComparer<TKey>.Default.GetHashCode`, and Dafny's
`==` on keys stands for its `Equals`. `GetValueOrDefault` returns
`Option<V>`. `None` stands for `default(TValue)`.

## Model

| member | source | states |
|---|---|---|
| `HashHelpers.FirstIndexAtLeast` | dictionary/DictionaryPlayground/SimplifiedDictionary.cs:146-149 | the scan stops at the first table entry at least `min`: every entry before it is below `min`, or it runs off the end of the table |
| `HashHelpers.PrimesAscending` | dictionary/DictionaryPlayground/SimplifiedDictionary.cs:137-142 | the prime table has 72 entries and is strictly ascending |
| `HashHelpers.GetPrime` | dictionary/DictionaryPlayground/SimplifiedDictionary.cs:144-152 | the result is the smallest table prime at least `min`: it is at least `min`, it is a table prime whenever some table prime is at least `min`, and it is no larger than any such prime; it is `min` itself when no table prime qualifies |
| `HashHelpers.ExpandPrime` | dictionary/DictionaryPlayground/SimplifiedDictionary.cs:154-157 | growth at least doubles the capacity; the new capacity is the smallest table prime at least `2 * oldSize` when one exists, and `2 * oldSize` otherwise |
| `HashHelpers.InitialCapacities` | dictionary/DictionaryPlayground/SimplifiedDictionary.cs:27 | a new table gets capacity `GetPrime(0) == 3`, and growth from 3 gives `ExpandPrime(3) == 7` |
| `DictionaryPlayground.SignBitCleared` | dictionary/DictionaryPlayground/SimplifiedDictionary.cs:41 | on the 32 bits of a hash code, `& 0x7FFFFFFF` keeps a value with a clear sign bit and subtracts 2^31 from one with the sign bit set |
| `DictionaryPlayground.Mask` | dictionary/DictionaryPlayground/SimplifiedDictionary.cs:41 | the masked hash code is in `[0, 2^31)`, agrees with the hash code modulo 2^31, and equals it when it is non-negative |
| `DictionaryPlayground.BucketOf` | dictionary/DictionaryPlayground/SimplifiedDictionary.cs:42 | for a non-negative hash code, the remainder by the bucket count is a valid bucket index |
| `DictionaryPlayground.LastInBucket` | dictionary/DictionaryPlayground/SimplifiedDictionary.cs:54-57 | the head of a chain is a slot of that bucket, or -1, and no later slot is in that bucket |
| `DictionaryPlayground.Linked` | dictionary/DictionaryPlayground/SimplifiedDictionary.cs:54-57 | the chain invariant: every bucket's head is the highest slot in that bucket, or -1, and every slot links to the highest earlier slot in its own bucket, or -1 |
| `DictionaryPlayground.Chain` | dictionary/DictionaryPlayground/SimplifiedDictionary.cs:91 | the walk `i = entries[i].next` from slot `i`: it starts at `i` when `i >= 0` and visits only slots from 0 to `i` |
| `DictionaryPlayground.HeadFacts` | dictionary/DictionaryPlayground/SimplifiedDictionary.cs:86-91 | under the chain invariant, a bucket's head is -1 or a stored slot of that bucket, and no later stored slot is in that bucket |
| `DictionaryPlayground.NextFacts` | dictionary/DictionaryPlayground/SimplifiedDictionary.cs:91 | under the chain invariant, a link points to an earlier slot of the same bucket, or is -1, and skips only slots of other buckets |
| `DictionaryPlayground.InsertLinks` | dictionary/DictionaryPlayground/SimplifiedDictionary.cs:54-57 | prepending a slot to its bucket's chain (`next` := old head, head := new slot) keeps the chain invariant |
| `DictionaryPlayground.ChainBelow` | dictionary/DictionaryPlayground/SimplifiedDictionary.cs:91 | following links from the highest slot of a bucket below `k` visits, in strictly decreasing order, exactly the slots of that bucket below `k` |
| `DictionaryPlayground.LinkedBackward` | dictionary/DictionaryPlayground/SimplifiedDictionary.cs:91 | under the chain invariant every link points to an earlier slot or is -1, so the chain walk terminates |
| `DictionaryPlayground.ChainIsBucket` | dictionary/DictionaryPlayground/SimplifiedDictionary.cs:91 | each bucket's chain is finite and acyclic: its indices strictly decrease; it lists exactly the stored slots whose hash code falls in that bucket |
| `DictionaryPlayground.LastIndexOf` | dictionary/DictionaryPlayground/SimplifiedDictionary.cs:83-110 | the position of the most recent pair with the key, or -1: that position holds the key and no later one does |
| `DictionaryPlayground.LastIndexOfUnique` | dictionary/DictionaryPlayground/SimplifiedDictionary.cs:96-100 | a position holding the key with no later position holding it, or -1 with no position holding it, is the last position of the key |
| `DictionaryPlayground.Lookup` | dictionary/DictionaryPlayground/SimplifiedDictionary.cs:35-38 | the lookup finds nothing exactly when the key was never added; otherwise it finds the value of the last pair added with the key |
| `DictionaryPlayground.LookupAfterAdd` | dictionary/DictionaryPlayground/SimplifiedDictionary.cs:40-57 | right after `Add(k, v)`, a lookup of `k` finds `v`, whatever was added before |
| `DictionaryPlayground.LookupAfterOtherAdd` | dictionary/DictionaryPlayground/SimplifiedDictionary.cs:40-57 | adding another key does not change the lookup of `k` |
| `DictionaryPlayground.LookupUntilShadowed` | dictionary/DictionaryPlayground/SimplifiedDictionary.cs:40-57 | after `Add(k, v)`, a lookup of `k` finds `v` until `k` is added again, however many other keys are added |
| `DictionaryPlayground.StoresRelinked` | dictionary/DictionaryPlayground/SimplifiedDictionary.cs:72 | rewriting a slot's `next` keeps its hash code, key and value |
| `DictionaryPlayground.EmptyLinked` | dictionary/DictionaryPlayground/SimplifiedDictionary.cs:64-65 | all buckets at -1 with no slots linked satisfies the chain invariant |
| `DictionaryPlayground.Append` | dictionary/DictionaryPlayground/SimplifiedDictionary.cs:50-57 | appending the new slot at `count` with `next` = old head, and making it the head, keeps the chain invariant and stores the log extended by the pair |
| `DictionaryPlayground.Relink` | dictionary/DictionaryPlayground/SimplifiedDictionary.cs:69-75 | one step of the rebuild: linking slot `i` at the head of its bucket extends the chain invariant from slots `0..i-1` to `0..i` and keeps what the slots store |
| `DictionaryPlayground.NewEmptyBuckets` | dictionary/DictionaryPlayground/SimplifiedDictionary.cs:64-65 | a fresh bucket array of the requested size with every bucket -1 |
| `DictionaryPlayground.EducationalDictionary.constructor` | dictionary/DictionaryPlayground/SimplifiedDictionary.cs:25-33 | a new table is valid and empty: `count == 0`, both arrays have length 3, every bucket is -1 |
| `DictionaryPlayground.EducationalDictionary.GetValueOrDefault` | dictionary/DictionaryPlayground/SimplifiedDictionary.cs:35-38 | returns the value most recently added with the key, or `None` (the default) when the key was never added |
| `DictionaryPlayground.EducationalDictionary.Add` | dictionary/DictionaryPlayground/SimplifiedDictionary.cs:40-61 | keeps `Valid()`; appends the pair to the log and increases `count` by 1. When `count == entries.Length` it resizes first, to `ExpandPrime(count)` fresh slots. Otherwise the arrays stay the same: the new slot at old `count` holds the masked hash, the old head of its bucket as `next`, the key and the value; it becomes the head; no other bucket or slot changes |
| `DictionaryPlayground.EducationalDictionary.Resize` | dictionary/DictionaryPlayground/SimplifiedDictionary.cs:63-81 | keeps `Valid()` with fresh arrays of `newSize` slots and buckets; keeps `count`, the log, and every stored slot's hash code, key and value; the chains are rebuilt for the new bucket count |
| `DictionaryPlayground.EducationalDictionary.FindEntry` | dictionary/DictionaryPlayground/SimplifiedDictionary.cs:83-110 | walking the key's chain returns the last slot whose key equals the key, or -1 when no stored slot has it |
| `DictionaryPlaygroundTests.FindsSingularKey` | dictionary/DictionaryPlayground/UnitTest1.cs:8-15 | after adding ("one", "John") to a new table, looking up "one" finds "John", whatever the string hash |
| `DictionaryPlaygroundTests.FourKeysLookups` | dictionary/DictionaryPlayground/UnitTest1.cs:26-30 | in the log of the four inserts, each key finds its own value and 50 finds nothing |
| `DictionaryPlaygroundTests.AddFourKeys` | dictionary/DictionaryPlayground/UnitTest1.cs:17-24 | the four inserts of the test leave a valid table of capacity 7 whose log is the four pairs in order |
| `DictionaryPlaygroundTests.FindsMultipleKeys` | dictionary/DictionaryPlayground/UnitTest1.cs:17-31 | after four inserts into a new table, the capacity is 7, each key finds its value, and the missing key 50 finds the default |

## Left out

- Console and debug output is not modelled. This covers `PrintFullState`, `ToString(string)`, `Entry.ToString`, `ValueString` and every `Console.WriteLine`. They are I/O and do not change the state.
- `EqualityComparer<TKey>.Default` is not modelled. It is a runtime call. The model takes the hash function as a constructor parameter and uses Dafny's `==` for key equality.
- Null keys are not modelled. Their behaviour depends on the runtime comparer.
- `HashHelpers.ExpandPrime`: capacities are unbounded integers. The Int32 overflow of `2 * oldSize` past the end of the prime table is not modelled. The fallback `return min` is kept as written.
- `DictionaryPlayground.Mask` computes `& 0x7FFFFFFF` arithmetically: `h + 2^31` for a negative `h`, and `h` otherwise. `SignBitCleared` proves the bit-level identity this follows on `bv32`. No lemma connects a signed `int32` to its `bv32` pattern, because the verifier's conversions between integers and bit-vectors are too costly here.
- `DictionaryPlayground.BucketOf` uses Dafny's `%`. This agrees with C#'s truncating `%` because both operands are non-negative, and the requires clause demands that.
- `default(TValue)` is modelled as `None`. For a value type, the source cannot tell a stored default value from a missing key. The model can.
- Slot writes are modelled as one record assignment. `Add` writes the four fields of the new slot one at a time, and `Resize` writes the `next` field in place.
- `Array.Copy` in `Resize` is modelled as a `forall` statement that copies slots `0..count-1`.
- `count` is a `nat` rather than an `int`. It never goes below 0.

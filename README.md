# Separate-chaining hash table of sfcUtil, modelled in Dafny

This project models the hash table in `sfcUtil/hashtable.c`. The table is
an array of `numOfBuckets` slots, each holding a linked chain of key/value
pairs, plus a running count `numOfElements`. A key lives in the slot
`hashFunction(key) % numOfBuckets`. Put links a new pair at the head of its
chain. Remove unlinks a pair. Either one can trigger an automatic rehash
when the element-to-bucket ratio crosses a threshold. The rehash moves every
pair into a freshly sized array whose size is the smallest odd number at or
above `numOfElements / idealRatio` (at least 5) that trial division by 3..49
calls "probably prime". A two-field iterator (slot, pair) walks the table
slot by slot.

The model has three modules:

- `Buckets` (`buckets.dfy`): the bucket array as a value. Each chain is a
  `seq` of pairs, and the element at index 0 is the chain's head. The module
  states the table invariant: every pair sits in its key's slot, no key
  repeats within a chain, the chain lookup agrees with an abstract
  `map<K, V>` on every key, and the pairs number exactly the map's keys. It
  proves that each chain edit the table makes preserves the invariant:
  linking at the head, replacing a value, unlinking, and redistributing all
  pairs into a new array.
- `ProbablePrime` (`probable_prime.dfy`): `isProbablePrime` and
  `calculateIdealNumOfBuckets`. The search is proved to terminate, and its
  result is characterised as the least passing odd candidate.
- `Hashtable` (`hashtable.dfy`): the table as a class. The buckets are an
  `array` of chains, and the count and the deallocator hooks are mutable
  fields. A ghost `contents` map is the abstract state. A ghost `released`
  log records every call of the key and value deallocators, in order. The
  iterator is a class with fields `bucket` and `pair`. Every operation is a
  method with a loop where the C code has one, proved against `contents`,
  `released` and the value-level functions of `Buckets`.

Modelling choices:

- A node pointer becomes a position in its chain, and the chain's length
  stands for `NULL`.
- The comparators are the default `pointercmp`: identity, which is Dafny's
  `==` on the type parameters.
- The hash function is a parameter `hash: K -> nat` of the constructor. It
  stands for `pointerHashFunction` or any later replacement.
- The three ratios keep the values the creator gives them (3, 0, 15). They
  are constants of the object, and the proofs do not depend on those values.
- The float comparisons `numOfElements / numOfBuckets > upperRehashThreshold`
  and `< lowerRehashThreshold` are stated exactly on integers
  (`GrowthDue`, `ShrinkDue`).
- C's truncating `%` agrees with Dafny's Euclidean `%` on every operand the
  table produces. The hash is unsigned and the bucket count is positive. For
  trial division, only whether the remainder is zero matters, and that is
  the same under both conventions.

## Model

| member | source | states |
|---|---|---|
| Hashtable.HashTable.constructor | sfcUtil/hashtable.c:75-110 | a fresh table with the requested number of empty slots, no elements, ratios 3/0/15, no deallocators, the invariant established |
| Hashtable.HashTable.IsEmpty | sfcUtil/hashtable.c:417-420 | true exactly when the abstract map is empty |
| Hashtable.HashTable.Size | sfcUtil/hashtable.c:438-441 | the count equals the number of keys of the abstract map |
| Hashtable.HashTable.GetNumBuckets | sfcUtil/hashtable.c:460-463 | the bucket count is the array's length and is positive |
| Hashtable.HashTable.Get | sfcUtil/hashtable.c:301-311 | the chain scan answers the map's value for the key, or none when the key is absent |
| Hashtable.HashTable.ContainsKey | sfcUtil/hashtable.c:170-173 | true exactly when the key is in the map |
| Hashtable.HashTable.ContainsValue | sfcUtil/hashtable.c:196-210 | the scan of all chains answers true exactly when some key maps to the value |
| Hashtable.HashTable.Put | sfcUtil/hashtable.c:233-281 | the map gets key := value and the count rises only for a new key; a present key's pair is edited in place and only a differing old value is released; a new key's pair heads its chain in the same array, unless the upper threshold forces a rehash to the ideal size; the invariant is kept |
| Hashtable.HashTable.Remove | sfcUtil/hashtable.c:330-362 | the key leaves the map and the count falls by one if it was present; its key and value are released through the installed deallocators; the pair is unlinked from its chain, unless the lower threshold forces a rehash to the ideal size; an absent key changes nothing |
| Hashtable.HashTable.Unlink | sfcUtil/hashtable.c:342-352 | unlinking at the previous pair or at the slot head gives the chain without that pair, releases its key then its value, and keeps the invariant |
| Hashtable.HashTable.Rehash | sfcUtil/hashtable.c:578-618 | map, count and log unchanged; the requested count, or the ideal count for 0; the same array when the count is already right; otherwise a fresh array holding every pair relinked in slot order |
| Hashtable.HashTable.Relinked | sfcUtil/hashtable.c:600-613 | the new array equals the pairs in slot order, each linked at the head of its new slot |
| Hashtable.LinkChain | sfcUtil/hashtable.c:604-612 | the inner relink loop links one chain's pairs in order at the heads of their new slots |
| Hashtable.HashTable.Destroy | sfcUtil/hashtable.c:131-150 | the log grows by the key and value releases of every pair, slot by slot, chain order |
| Hashtable.HashTable.RemoveAll | sfcUtil/hashtable.c:379-399 | every pair released in slot order, the map empty, 5 empty slots, the invariant kept |
| Hashtable.HashTable.ClearSlots | sfcUtil/hashtable.c:383-395 | every slot emptied and every pair released in slot order |
| Hashtable.HashTable.ClearSlot | sfcUtil/hashtable.c:384-394 | one slot's pairs released in chain order and the slot emptied, the other slots untouched |
| Hashtable.HashTable.ReleaseChain | sfcUtil/hashtable.c:137-145 | the releases of one chain's pairs, in chain order |
| Hashtable.HashTable.ReleasePair | sfcUtil/hashtable.c:139-142 | the key deallocator is called before the value deallocator, each only when installed |
| Hashtable.HashTable.SetDeallocationFunctions | sfcUtil/hashtable.c:701-709 | both hooks are replaced by the given ones |
| Hashtable.HashTable.KeysReleasedOnce | sfcUtil/hashtable.c:131-150 | with a key deallocator, releasing all pairs frees each stored key exactly once and no other key |
| Hashtable.KeyReleases | sfcUtil/hashtable.c:139-140 | each key is released as many times as it occurs among the released pairs |
| Hashtable.ReleasesAppend | sfcUtil/hashtable.c:135-146 | the releases of two runs of pairs are those of the first run followed by those of the second |
| Hashtable.HashTable.GetFirst | sfcUtil/hashtable.c:847-861 | null exactly when the table has no pairs; otherwise the iterator stands on the first pair in slot order |
| Hashtable.HashTable.GetNext | sfcUtil/hashtable.c:864-883 | null exactly when the current pair was the last; otherwise the iterator stands on the next pair in slot order |
| ProbablePrime.IsProbablePrime | sfcUtil/hashtable.c:746-757 | "maybe prime" exactly when no odd number from 3 to 49 other than the number divides it |
| ProbablePrime.PositiveSmallOddFactor | sfcUtil/hashtable.c:746-757 | for a positive number, failing the test is the same as having an odd divisor from 3 to 49 below it |
| ProbablePrime.FirstCandidate | sfcUtil/hashtable.c:762-767 | the starting candidate is the least odd number at or above both 5 and numOfElements / idealRatio |
| ProbablePrime.CalculateIdealNumOfBuckets | sfcUtil/hashtable.c:760-771 | the search ends, and its result is the least odd number at or above the starting candidate that passes trial division |
| ProbablePrime.CongruentCandidatePasses | sfcUtil/hashtable.c:768-769 | every number one above a multiple of twice the lcm of 3..49 passes trial division, so the search of lines 768-769 ends |
| ProbablePrime.PassingCandidateAbove | sfcUtil/hashtable.c:768-769 | above every odd candidate lies an odd number that passes trial division |
| Buckets.FindIndex | sfcUtil/hashtable.c:307-308 | the scan stops at the first pair with the key, or at the chain's end |
| Buckets.BucketIndex | sfcUtil/hashtable.c:241 | the slot of a key is within the array |
| Buckets.EmptyTable | sfcUtil/hashtable.c:96-97 | all-empty slots stand for the empty map |
| Buckets.InsertNew | sfcUtil/hashtable.c:264-267 | a new pair at the head of its slot's chain keeps the invariant, with the key added to the map |
| Buckets.ReplaceValue | sfcUtil/hashtable.c:253-257 | replacing the value of a stored pair keeps the invariant, with the key remapped |
| Buckets.RemovePair | sfcUtil/hashtable.c:347-350 | unlinking a pair keeps the invariant, with its key taken out of the map |
| Buckets.NothingStored | sfcUtil/hashtable.c:397-398 | a table standing for the empty map has only empty slots |
| Buckets.LookupRemoved | sfcUtil/hashtable.c:347-350 | after unlinking, the removed key is absent from its chain and every other key's answer is unchanged |
| Buckets.EntriesAreContents | sfcUtil/hashtable.c:200-207 | the pairs in slot order are exactly the map's entries, each key once |
| Buckets.Redistribute | sfcUtil/hashtable.c:603-613 | relinking all pairs into any positive number of slots keeps the invariant with the same map |
| Buckets.ScatterInvariant | sfcUtil/hashtable.c:603-613 | pairs with distinct keys, each linked at the head of its slot, form a table of the map they describe |
| Buckets.MapOfEntries | sfcUtil/hashtable.c:603-613 | a table's pairs in slot order describe exactly its map |

## Left out

- Allocation failures are not modelled: the `NULL` return of the creator, Put's `-1`, and Rehash's early return when the new array cannot be allocated. Every allocation succeeds, and Put has no result.
- The `assert(key != NULL)` and `assert(value != NULL)` of Put are not modelled, because keys and values are plain values without a null.
- Hashtable.HashTable.Put: the branch that releases and replaces a stored key that compares equal but is not the same pointer cannot happen under the identity comparator this model fixes, so it is not modelled.
- `HashTableSetKeyComparisonFunction`, `HashTableSetValueComparisonFunction` and `HashTableSetHashFunction` (lines 485-560) are left out. Comparison is identity, and the hash function is fixed when the table is created.
- `HashTableSetIdealRatio` is commented out in the source. The ratios therefore keep their creation values, and the model does not expose a setter.
- The ratios and the rehash tests use `float` in the source. The model compares the exact rational ratios on integers and ignores float rounding.
- `pointerHashFunction`, `pointercmp` (pointer identity and a shift of the address) and the empty `mcs()` are not modelled.
- The `UtilHashTable` wrappers and function table (lines 774-949), `NotSupported`, and `sfcUtil/utilFactory.c` are not part of this model. Only the two iterator functions are modelled, and they work on the table directly.
- Hashtable.HashTable.Destroy: freeing the nodes, the array and the table is not modelled, only the deallocator calls. Using a table after destroying it is not ruled out by the model.
- Hashtable.HashTable.GetNext: the iterator must stand on a pair of the table. Calling it on an iterator left over from before a Put or Remove is a use-after-free in the source, and it is excluded here by that precondition.
- `long`, `int` and `unsigned long` widths are not modelled: counts, hash values and the bucket count are unbounded integers.
- Keys and values are the deallocators' only arguments. The deallocators' own effects are outside the table and are recorded only as the `released` log.

/**
 * The separate-chaining hash table: an array of numOfBuckets chains of
 * key/value pairs and a running count of elements. Keys and values are
 * compared by identity (Dafny's ==, as the default comparator does), the
 * hash function is a parameter, and the calls of the key and value
 * deallocators are recorded in a ghost log.
 */
module Hashtable {
  import opened Buckets
  import opened ProbablePrime

  /** One call of a deallocator: on a key, or on a value. */
  datatype Released<K, V> = ReleasedKey(key: K) | ReleasedValue(value: V)

  /** The deallocator calls made for one pair: key first, then value, each only if that deallocator is set. */
  function PairReleases<K, V>(p: (K, V), keys: bool, values: bool): seq<Released<K, V>>
  {
    (if keys then [ReleasedKey(p.0)] else []) + (if values then [ReleasedValue(p.1)] else [])
  }

  /** The deallocator calls made for the pairs ps, in order. */
  function ReleasesOf<K, V>(ps: seq<(K, V)>, keys: bool, values: bool): seq<Released<K, V>>
  {
    if ps == [] then []
    else ReleasesOf(ps[..|ps| - 1], keys, values) + PairReleases(ps[|ps| - 1], keys, values)
  }

  lemma {:induction false} ReleasesAppend<K, V>(a: seq<(K, V)>, c: seq<(K, V)>, keys: bool, values: bool)
    ensures ReleasesOf(a + c, keys, values) == ReleasesOf(a, keys, values) + ReleasesOf(c, keys, values)
    decreases |c|
  {
    if c == [] {
      assert a + c == a;
    } else {
      var c0 := c[..|c| - 1];
      assert (a + c)[..|a + c| - 1] == a + c0;
      ReleasesAppend(a, c0, keys, values);
    }
  }

  /** Releasing the chains before slot i and then chain i releases the chains before slot i + 1. */
  lemma ReleasedThrough<K, V>(s: seq<seq<(K, V)>>, i: nat, keys: bool, values: bool,
                              log0: seq<Released<K, V>>, before: seq<Released<K, V>>, after: seq<Released<K, V>>)
    requires i < |s|
    requires before == log0 + ReleasesOf(Concat(s[..i]), keys, values)
    requires after == before + ReleasesOf(s[i], keys, values)
    ensures after == log0 + ReleasesOf(Concat(s[..i + 1]), keys, values)
  {
    OffsetStep(s, i);
    ReleasesAppend(Concat(s[..i]), s[i], keys, values);
  }

  /** With the key deallocator set, each key is released as often as it occurs among the pairs. */
  lemma {:induction false} KeyReleases<K, V>(ps: seq<(K, V)>, values: bool, k: K)
    ensures multiset(ReleasesOf(ps, true, values))[ReleasedKey(k)] == Occurrences(ps, k)
    decreases |ps|
  {
    if ps != [] {
      KeyReleases(ps[..|ps| - 1], values, k);
    }
  }

  /** The chain with the value of key's pair, if it has one, replaced by value. */
  function WithValue<K(==), V>(chain: seq<(K, V)>, key: K, value: V): seq<(K, V)>
  {
    var j := FindIndex(chain, key);
    if j < |chain| then chain[j := (key, value)] else chain
  }

  /** The chain without key's pair, if it has one. */
  function Without<K(==), V>(chain: seq<(K, V)>, key: K): seq<(K, V)>
  {
    var j := FindIndex(chain, key);
    if j < |chain| then chain[..j] + chain[j + 1..] else chain
  }

  class HashTableIterator {
    /** The slot of the current pair. */
    var bucket: int
    /** The position of the current pair in that slot's chain; the chain's length stands for NULL. */
    var pair: int

    constructor ()
      ensures bucket == 0 && pair == 0
    {
      bucket := 0;
      pair := 0;
    }
  }

  /**
   * The inner loop of rehashing: links each pair of one old chain, in chain
   * order, at the head of its slot in the new bucket array.
   */
  method LinkChain<K, V>(newBucketArray: array<seq<(K, V)>>, chain: seq<(K, V)>, ghost done: seq<(K, V)>, hash: K -> nat)
    requires newBucketArray.Length > 0
    requires newBucketArray[..] == Scatter(done, hash, newBucketArray.Length)
    modifies newBucketArray
    ensures newBucketArray[..] == Scatter(done + chain, hash, newBucketArray.Length)
  {
    var n := newBucketArray.Length;
    var pair := 0;
    assert done + chain[..0] == done;
    while pair < |chain|
      invariant 0 <= pair <= |chain|
      invariant newBucketArray[..] == Scatter(done + chain[..pair], hash, n)
    {
      var p := chain[pair];
      var hashValue := BucketIndex(hash, p.0, n);
      ScatterAppend(done + chain[..pair], p, hash, n);
      assert done + chain[..pair + 1] == done + chain[..pair] + [p];
      ghost var before := newBucketArray[..];
      newBucketArray[hashValue] := [p] + newBucketArray[hashValue];
      assert newBucketArray[..] == before[hashValue := [p] + before[hashValue]];
      pair := pair + 1;
    }
    assert chain[..|chain|] == chain;
  }

  class HashTable<K(==, !new), V(==)> {
    var bucketArray: array<seq<(K, V)>>
    var numOfBuckets: int
    var numOfElements: int
    const idealRatio: nat
    const lowerRehashThreshold: nat
    const upperRehashThreshold: nat
    const hash: K -> nat
    /** Whether a key deallocator, and a value deallocator, is installed. */
    var keyDeallocator: bool
    var valueDeallocator: bool

    /** The map the table stands for. */
    ghost var contents: map<K, V>
    /** Every deallocator call made so far, in order. */
    ghost var released: seq<Released<K, V>>

    ghost predicate Valid()
      reads this, bucketArray
    {
      && numOfBuckets == bucketArray.Length
      && numOfElements == |contents|
      && TableInvariant(bucketArray[..], hash, contents)
      && idealRatio > 0
    }

    /** The pairs in slot order, head of each chain first: the order an iteration visits them. */
    ghost function Entries(): seq<(K, V)>
      reads this, bucketArray
    {
      Concat(bucketArray[..])
    }

    /** Creates a table with numOfBuckets empty slots and the default ratios 3, 0 and 15. */
    constructor (numOfBuckets: int, hash: K -> nat)
      requires numOfBuckets > 0
      ensures Valid() && fresh(bucketArray)
      ensures contents == map[] && this.numOfBuckets == numOfBuckets && numOfElements == 0
      ensures forall b :: 0 <= b < numOfBuckets ==> bucketArray[b] == []
      ensures idealRatio == 3 && lowerRehashThreshold == 0 && upperRehashThreshold == 15
      ensures this.hash == hash && !keyDeallocator && !valueDeallocator && released == []
    {
      bucketArray := new seq<(K, V)>[numOfBuckets];
      this.numOfBuckets := numOfBuckets;
      numOfElements := 0;
      idealRatio := 3;
      lowerRehashThreshold := 0;
      upperRehashThreshold := 15;
      this.hash := hash;
      keyDeallocator := false;
      valueDeallocator := false;
      contents := map[];
      released := [];
      new;
      for i := 0 to numOfBuckets
        modifies bucketArray
        invariant forall b :: 0 <= b < i ==> bucketArray[b] == []
      {
        bucketArray[i] := [];
      }
      EmptyTable(bucketArray[..], hash);
    }

    function IsEmpty(): (r: bool)
      requires Valid()
      reads this, bucketArray
      ensures r <==> contents == map[]
    {
      numOfElements == 0
    }

    function Size(): (r: int)
      requires Valid()
      reads this, bucketArray
      ensures r == |contents|
    {
      numOfElements
    }

    function GetNumBuckets(): (r: int)
      requires Valid()
      reads this, bucketArray
      ensures r == bucketArray.Length && r > 0
    {
      numOfBuckets
    }

    /** Scans the chain of key's slot for a pair with the key and answers its value. */
    method Get(key: K) returns (r: Option<V>)
      requires Valid()
      ensures r == MapGet(contents, key)
    {
      var hashValue := BucketIndex(hash, key, numOfBuckets);
      var chain := bucketArray[hashValue];
      var pair := 0;
      while pair < |chain| && chain[pair].0 != key
        invariant 0 <= pair <= |chain|
        invariant forall i :: 0 <= i < pair ==> chain[i].0 != key
      {
        pair := pair + 1;
      }
      ScanStops(chain, key, pair);
      assert TableGet(bucketArray[..], hash, key) == MapGet(contents, key);
      r := if pair == |chain| then None else Some(chain[pair].1);
    }

    method ContainsKey(key: K) returns (r: bool)
      requires Valid()
      ensures r <==> key in contents
    {
      var v := Get(key);
      r := v != None;
    }

    /** Walks every chain of every slot looking for a pair whose value is value. */
    method ContainsValue(value: V) returns (r: bool)
      requires Valid()
      ensures r <==> value in contents.Values
    {
      ghost var s := bucketArray[..];
      EntriesAreContents(s, hash, contents);
      for i := 0 to numOfBuckets
        invariant forall q :: 0 <= q < Offset(s, i) && q < |Concat(s)| ==> Concat(s)[q].1 != value
      {
        var chain := bucketArray[i];
        var pair := 0;
        while pair < |chain|
          invariant 0 <= pair <= |chain|
          invariant forall q :: 0 <= q < Offset(s, i) + pair && q < |Concat(s)| ==> Concat(s)[q].1 != value
        {
          ConcatAt(s, i, pair);
          if chain[pair].1 == value {
            ghost var p := Concat(s)[Offset(s, i) + pair];
            assert p in Concat(s);
            return true;
          }
          pair := pair + 1;
        }
        OffsetStep(s, i);
      }
      OffsetEnd(s);
      forall k | k in contents ensures contents[k] != value {
        var q :| 0 <= q < |Concat(s)| && Concat(s)[q] == (k, contents[k]);
      }
      return false;
    }

    /** Put's and Remove's automatic-rehash test, the ratio numOfElements / numOfBuckets compared exactly. */
    predicate GrowthDue(elements: int, buckets: int)
    {
      upperRehashThreshold > idealRatio && elements > upperRehashThreshold * buckets
    }

    predicate ShrinkDue(elements: int, buckets: int)
    {
      lowerRehashThreshold > 0 && elements < lowerRehashThreshold * buckets
    }

    /**
     * Maps key to value. A present key keeps its pair, whose value is
     * replaced (and the old value released) when it differs; an absent key
     * gets a new pair at the head of its chain, after which the table grows
     * to the ideal bucket count if the upper threshold is passed.
     */
    method Put(key: K, value: V)
      requires Valid()
      modifies this, bucketArray
      ensures Valid()
      ensures contents == old(contents)[key := value]
      ensures numOfElements == old(numOfElements) + (if key in old(contents) then 0 else 1)
      ensures keyDeallocator == old(keyDeallocator) && valueDeallocator == old(valueDeallocator)
      ensures key in old(contents) ==>
        var b := BucketIndex(hash, key, old(numOfBuckets));
        var chain := old(bucketArray[..])[b];
        && bucketArray == old(bucketArray) && numOfBuckets == old(numOfBuckets)
        && bucketArray[..] == old(bucketArray[..])[b := WithValue(chain, key, value)]
        && released == old(released) + (if valueDeallocator && old(contents)[key] != value
                                         then [ReleasedValue(old(contents)[key])] else [])
      ensures key !in old(contents) ==> released == old(released)
      ensures key !in old(contents) && !GrowthDue(numOfElements, old(numOfBuckets)) ==>
        var b := BucketIndex(hash, key, old(numOfBuckets));
        && bucketArray == old(bucketArray) && numOfBuckets == old(numOfBuckets)
        && bucketArray[..] == old(bucketArray[..])[b := [(key, value)] + old(bucketArray[..])[b]]
      ensures key !in old(contents) && GrowthDue(numOfElements, old(numOfBuckets)) ==>
        IsIdealNumOfBuckets(numOfBuckets, numOfElements, idealRatio)
    {
      var hashValue := BucketIndex(hash, key, numOfBuckets);
      var chain := bucketArray[hashValue];
      var pair := 0;
      while pair < |chain| && chain[pair].0 != key
        invariant 0 <= pair <= |chain|
        invariant forall i :: 0 <= i < pair ==> chain[i].0 != key
      {
        pair := pair + 1;
      }
      ScanStops(chain, key, pair);
      assert TableGet(bucketArray[..], hash, key) == MapGet(contents, key);
      if pair < |chain| {
        // The comparator is identity, so the stored key is key itself and only the value may change.
        if chain[pair].1 != value {
          if valueDeallocator {
            released := released + [ReleasedValue(chain[pair].1)];
          }
          ReplaceValue(bucketArray[..], hash, contents, hashValue, pair, value);
          bucketArray[hashValue] := chain[pair := (key, value)];
          contents := contents[key := value];
        } else {
          assert chain[pair := (key, value)] == chain;
          assert contents[key := value] == contents;
        }
      } else {
        InsertNew(bucketArray[..], hash, contents, key, value);
        bucketArray[hashValue] := [(key, value)] + chain;
        contents := contents[key := value];
        numOfElements := numOfElements + 1;
        if upperRehashThreshold > idealRatio {
          if numOfElements > upperRehashThreshold * numOfBuckets {
            Rehash(0);
          }
        }
      }
    }

    /**
     * Rehashes into requested buckets, or into the ideal number when 0 is
     * requested; a request for the current number changes nothing. Every pair
     * is taken in slot order and linked at the head of its new slot's chain.
     */
    method Rehash(requested: int)
      requires Valid() && requested >= 0
      modifies this
      ensures Valid()
      ensures contents == old(contents) && numOfElements == old(numOfElements) && released == old(released)
      ensures keyDeallocator == old(keyDeallocator) && valueDeallocator == old(valueDeallocator)
      ensures requested > 0 ==> numOfBuckets == requested
      ensures requested == 0 ==> IsIdealNumOfBuckets(numOfBuckets, numOfElements, idealRatio)
      ensures numOfBuckets == old(numOfBuckets) ==> bucketArray == old(bucketArray)
      ensures numOfBuckets != old(numOfBuckets) ==>
        fresh(bucketArray) && bucketArray[..] == Scatter(old(Entries()), hash, numOfBuckets)
    {
      var n := requested;
      if n == 0 {
        n := CalculateIdealNumOfBuckets(numOfElements, idealRatio);
      }
      if n == numOfBuckets {
        return;
      }
      var newBucketArray := Relinked(n);
      ghost var s := bucketArray[..];
      Redistribute(s, hash, contents, n);
      bucketArray := newBucketArray;
      numOfBuckets := n;
    }

    /**
     * The bucket array Rehash builds: n cleared slots, then every pair of
     * every chain, in slot order, linked at the head of its new slot.
     */
    method Relinked(n: int) returns (newBucketArray: array<seq<(K, V)>>)
      requires numOfBuckets == bucketArray.Length && n > 0
      ensures fresh(newBucketArray)
      ensures newBucketArray[..] == Scatter(Entries(), hash, n)
    {
      newBucketArray := new seq<(K, V)>[n];
      for i := 0 to n
        modifies newBucketArray
        invariant forall b :: 0 <= b < i ==> newBucketArray[b] == []
      {
        newBucketArray[i] := [];
      }
      ghost var s := bucketArray[..];
      assert newBucketArray[..] == Scatter(Concat(s[..0]), hash, n);
      for i := 0 to numOfBuckets
        modifies newBucketArray
        invariant newBucketArray[..] == Scatter(Concat(s[..i]), hash, n)
      {
        LinkChain(newBucketArray, bucketArray[i], Concat(s[..i]), hash);
        OffsetStep(s, i);
      }
      assert s[..numOfBuckets] == s;
    }

    /**
     * Unmaps key. The scan keeps the position of the previous pair (-1 for
     * none) for the unlinking; after it the table shrinks to the ideal
     * bucket count if the lower threshold is passed. An absent key changes
     * nothing.
     */
    method Remove(key: K)
      requires Valid()
      modifies this, bucketArray
      ensures Valid()
      ensures contents == old(contents) - {key}
      ensures numOfElements == old(numOfElements) - (if key in old(contents) then 1 else 0)
      ensures keyDeallocator == old(keyDeallocator) && valueDeallocator == old(valueDeallocator)
      ensures key !in old(contents) ==>
        && bucketArray == old(bucketArray) && numOfBuckets == old(numOfBuckets)
        && bucketArray[..] == old(bucketArray[..]) && released == old(released)
      ensures key in old(contents) ==>
        released == old(released) + PairReleases((key, old(contents)[key]), keyDeallocator, valueDeallocator)
      ensures key in old(contents) && !ShrinkDue(numOfElements, old(numOfBuckets)) ==>
        var b := BucketIndex(hash, key, old(numOfBuckets));
        && bucketArray == old(bucketArray) && numOfBuckets == old(numOfBuckets)
        && bucketArray[..] == old(bucketArray[..])[b := Without(old(bucketArray[..])[b], key)]
      ensures key in old(contents) && ShrinkDue(numOfElements, old(numOfBuckets)) ==>
        IsIdealNumOfBuckets(numOfBuckets, numOfElements, idealRatio)
    {
      var hashValue := BucketIndex(hash, key, numOfBuckets);
      var chain := bucketArray[hashValue];
      var pair := 0;
      var previousPair := -1;
      while pair < |chain| && chain[pair].0 != key
        invariant 0 <= pair <= |chain| && previousPair == pair - 1
        invariant forall i :: 0 <= i < pair ==> chain[i].0 != key
      {
        previousPair := pair;
        pair := pair + 1;
      }
      ScanStops(chain, key, pair);
      assert TableGet(bucketArray[..], hash, key) == MapGet(contents, key);
      if pair < |chain| {
        PairInContents(bucketArray[..], hash, contents, hashValue, pair);
        assert Without(chain, key) == chain[..pair] + chain[pair + 1..];
        Unlink(hashValue, pair, previousPair);
        if lowerRehashThreshold > 0 {
          if numOfElements < lowerRehashThreshold * numOfBuckets {
            Rehash(0);
          }
        }
      } else {
        assert contents - {key} == contents;
      }
    }

    /**
     * Remove's unlinking of the pair at position pair of slot hashValue:
     * its key and then its value are released, and it is unlinked from the
     * previous pair or, when there is none (-1), from the slot.
     */
    method Unlink(hashValue: int, pair: int, previousPair: int)
      requires Valid()
      requires 0 <= hashValue < numOfBuckets && 0 <= pair < |bucketArray[hashValue]|
      requires previousPair == pair - 1
      modifies this, bucketArray
      ensures Valid()
      ensures var chain := old(bucketArray[hashValue]);
        && contents == old(contents) - {chain[pair].0}
        && numOfElements == old(numOfElements) - 1
        && bucketArray == old(bucketArray) && numOfBuckets == old(numOfBuckets)
        && bucketArray[..] == old(bucketArray[..])[hashValue := chain[..pair] + chain[pair + 1..]]
        && released == old(released) + PairReleases(chain[pair], keyDeallocator, valueDeallocator)
      ensures keyDeallocator == old(keyDeallocator) && valueDeallocator == old(valueDeallocator)
    {
      ghost var s := bucketArray[..];
      var chain := bucketArray[hashValue];
      ReleasePair(chain[pair]);
      PairInContents(s, hash, contents, hashValue, pair);
      RemovePair(s, hash, contents, hashValue, pair);
      if previousPair >= 0 {
        bucketArray[hashValue] := chain[..pair] + chain[pair + 1..];
      } else {
        assert chain[..pair] + chain[pair + 1..] == chain[1..];
        bucketArray[hashValue] := chain[1..];
      }
      assert bucketArray[..] == s[hashValue := chain[..pair] + chain[pair + 1..]];
      contents := contents - {chain[pair].0};
      numOfElements := numOfElements - 1;
    }

    /** Calls the installed key deallocator on the pair's key, then the value deallocator on its value. */
    method ReleasePair(p: (K, V))
      modifies this`released
      ensures released == old(released) + PairReleases(p, keyDeallocator, valueDeallocator)
    {
      if keyDeallocator {
        released := released + [ReleasedKey(p.0)];
      }
      if valueDeallocator {
        released := released + [ReleasedValue(p.1)];
      }
    }

    /** Calls the installed deallocators on the key and the value of every pair of chain, in order. */
    method ReleaseChain(chain: seq<(K, V)>)
      modifies this`released
      ensures released == old(released) + ReleasesOf(chain, keyDeallocator, valueDeallocator)
    {
      var pair := 0;
      while pair < |chain|
        invariant 0 <= pair <= |chain|
        invariant released == old(released) + ReleasesOf(chain[..pair], keyDeallocator, valueDeallocator)
      {
        ReleasePair(chain[pair]);
        assert chain[..pair + 1][..pair] == chain[..pair];
        pair := pair + 1;
      }
      assert chain[..|chain|] == chain;
    }

    /** Releases the key and value of every pair, slot by slot; the memory itself is not modelled. */
    method Destroy()
      requires numOfBuckets == bucketArray.Length
      modifies this`released
      ensures released == old(released) + ReleasesOf(Entries(), keyDeallocator, valueDeallocator)
    {
      ghost var s := bucketArray[..];
      ghost var r0 := released;
      for i := 0 to numOfBuckets
        invariant released == r0 + ReleasesOf(Concat(s[..i]), keyDeallocator, valueDeallocator)
      {
        ghost var before := released;
        ReleaseChain(bucketArray[i]);
        ReleasedThrough(s, i, keyDeallocator, valueDeallocator, r0, before, released);
      }
      assert s[..|s|] == s;
    }

    /**
     * Releases every pair's key and value and clears every slot, then
     * rehashes the empty table to 5 buckets.
     */
    method RemoveAll()
      requires Valid()
      modifies this, bucketArray
      ensures Valid()
      ensures contents == map[] && numOfElements == 0
      ensures numOfBuckets == 5 && forall b :: 0 <= b < numOfBuckets ==> bucketArray[b] == []
      ensures released == old(released) + ReleasesOf(old(Entries()), keyDeallocator, valueDeallocator)
      ensures keyDeallocator == old(keyDeallocator) && valueDeallocator == old(valueDeallocator)
    {
      ClearSlots();
      numOfElements := 0;
      contents := map[];
      EmptyTable(bucketArray[..], hash);
      Rehash(5);
      NothingStored(bucketArray[..], hash);
    }

    /** RemoveAll's loop: releases the pairs of each slot in turn and empties the slot. */
    method ClearSlots()
      requires numOfBuckets == bucketArray.Length
      modifies this`released, bucketArray
      ensures forall b :: 0 <= b < bucketArray.Length ==> bucketArray[b] == []
      ensures released == old(released) + ReleasesOf(old(Entries()), keyDeallocator, valueDeallocator)
    {
      ghost var s := bucketArray[..];
      ghost var r0 := released;
      for i := 0 to numOfBuckets
        modifies this`released, bucketArray
        invariant released == r0 + ReleasesOf(Concat(s[..i]), keyDeallocator, valueDeallocator)
        invariant forall b :: 0 <= b < numOfBuckets ==> bucketArray[b] == if b < i then [] else s[b]
      {
        ghost var before := released;
        ClearSlot(i);
        ReleasedThrough(s, i, keyDeallocator, valueDeallocator, r0, before, released);
      }
      assert s[..|s|] == s;
    }

    /** One round of RemoveAll's loop: releases the pairs of slot i and empties it. */
    method ClearSlot(i: int)
      requires 0 <= i < bucketArray.Length
      modifies this`released, bucketArray
      ensures released == old(released) + ReleasesOf(old(bucketArray[i]), keyDeallocator, valueDeallocator)
      ensures bucketArray[..] == old(bucketArray[..])[i := []]
    {
      ghost var slots := bucketArray[..];
      ReleaseChain(bucketArray[i]);
      assert bucketArray[..] == slots;
      bucketArray[i] := [];
    }

    method SetDeallocationFunctions(keyDeallocator: bool, valueDeallocator: bool)
      modifies this`keyDeallocator, this`valueDeallocator
      ensures this.keyDeallocator == keyDeallocator && this.valueDeallocator == valueDeallocator
    {
      this.keyDeallocator := keyDeallocator;
      this.valueDeallocator := valueDeallocator;
    }

    /** With the key deallocator installed, releasing all pairs releases each stored key exactly once and no other key. */
    lemma KeysReleasedOnce(values: bool)
      requires Valid()
      ensures forall k :: multiset(ReleasesOf(Entries(), true, values))[ReleasedKey(k)]
                       == if k in contents then 1 else 0
    {
      EntriesAreContents(bucketArray[..], hash, contents);
      forall k ensures multiset(ReleasesOf(Entries(), true, values))[ReleasedKey(k)]
                       == if k in contents then 1 else 0 {
        KeyReleases(Entries(), values, k);
      }
    }

    // -------------------------------------------------------------------
    // Iteration

    /** The iterator stands on a pair of this table. */
    ghost predicate Points(iter: HashTableIterator)
      reads this, bucketArray, iter
    {
      0 <= iter.bucket < bucketArray.Length && 0 <= iter.pair < |bucketArray[iter.bucket]|
    }

    /** The place in Entries() of the pair the iterator stands on. */
    ghost function Position(iter: HashTableIterator): nat
      requires Points(iter)
      reads this, bucketArray, iter
    {
      Offset(bucketArray[..], iter.bucket) + iter.pair
    }

    /**
     * Starts an iteration at the head of the first non-empty slot, answering
     * its pair; null when every slot is empty.
     */
    method GetFirst() returns (iter: HashTableIterator?, entry: Option<(K, V)>)
      requires Valid()
      ensures iter == null <==> Entries() == []
      ensures iter == null ==> entry == None
      ensures iter != null ==>
        && fresh(iter) && Points(iter) && Position(iter) == 0 && entry == Some(Entries()[0])
    {
      ghost var s := bucketArray[..];
      var it := new HashTableIterator();
      it.bucket := 0;
      while it.bucket < numOfBuckets
        invariant 0 <= it.bucket <= numOfBuckets
        invariant Offset(s, it.bucket) == 0
        decreases numOfBuckets - it.bucket
      {
        it.pair := 0;
        if it.pair < |bucketArray[it.bucket]| {
          ConcatAt(s, it.bucket, 0);
          return it, Some(bucketArray[it.bucket][it.pair]);
        }
        OffsetStep(s, it.bucket);
        it.bucket := it.bucket + 1;
      }
      OffsetEnd(s);
      return null, None;
    }

    /**
     * Advances to the next pair of the chain, or else to the head of the
     * next non-empty slot, answering its pair; null after the last pair.
     */
    method GetNext(iter: HashTableIterator) returns (r: HashTableIterator?, entry: Option<(K, V)>)
      requires Valid() && Points(iter)
      modifies iter
      ensures r == null <==> old(Position(iter)) + 1 == |Entries()|
      ensures r == null ==> entry == None
      ensures r != null ==>
        && r == iter && Points(iter) && Position(iter) == old(Position(iter)) + 1
        && Position(iter) < |Entries()| && entry == Some(Entries()[Position(iter)])
    {
      ghost var s := bucketArray[..];
      ghost var p0 := Position(iter);
      ConcatAt(s, iter.bucket, iter.pair);
      iter.pair := iter.pair + 1;
      while iter.bucket < numOfBuckets
        invariant 0 <= iter.bucket < numOfBuckets
        invariant 0 <= iter.pair <= |s[iter.bucket]|
        invariant Offset(s, iter.bucket) + iter.pair == p0 + 1
        decreases numOfBuckets - iter.bucket
      {
        if iter.pair == |bucketArray[iter.bucket]| {
          OffsetStep(s, iter.bucket);
          if iter.bucket + 1 < numOfBuckets {
            iter.bucket := iter.bucket + 1;
            iter.pair := 0;
          } else {
            OffsetEnd(s);
            break;
          }
          continue;
        }
        ConcatAt(s, iter.bucket, iter.pair);
        return iter, Some(bucketArray[iter.bucket][iter.pair]);
      }
      return null, None;
    }
  }
}

/**
 * The bucket array of a separate-chaining hash table, as a value: a sequence
 * of chains, each chain a sequence of key/value pairs whose head is the pair
 * the bucket slot points to. This module states the table invariant on such
 * values and proves that the edits the table makes to one chain (link a new
 * pair at the head, replace a value, unlink a pair) preserve it.
 */
module Buckets {

  datatype Option<T> = None | Some(value: T)

  /** The map's answer for key, in the shape of the table's Get. */
  function MapGet<K, V>(m: map<K, V>, key: K): Option<V>
  {
    if key in m then Some(m[key]) else None
  }

  /**
   * The scan every operation does on one chain: the position of the first
   * pair whose key is key, or |chain| when the scan falls off the end.
   */
  function FindIndex<K(==), V>(chain: seq<(K, V)>, key: K): (j: nat)
    ensures j <= |chain|
    ensures forall i :: 0 <= i < j ==> chain[i].0 != key
    ensures j < |chain| ==> chain[j].0 == key
  {
    if chain == [] then 0
    else if chain[0].0 == key then 0
    else 1 + FindIndex(chain[1..], key)
  }

  /** The value of the first pair in chain with this key. */
  function Lookup<K(==), V>(chain: seq<(K, V)>, key: K): Option<V>
  {
    var j := FindIndex(chain, key);
    if j < |chain| then Some(chain[j].1) else None
  }

  /** The slot a key lives in: `hashFunction(key) % numOfBuckets`. */
  function BucketIndex<K>(hash: K -> nat, key: K, numOfBuckets: nat): (b: nat)
    requires numOfBuckets > 0
    ensures b < numOfBuckets
  {
    hash(key) % numOfBuckets
  }

  /** What Get answers for key: the lookup in the chain of key's slot. */
  function TableGet<K(==), V>(buckets: seq<seq<(K, V)>>, hash: K -> nat, key: K): Option<V>
    requires |buckets| > 0
  {
    Lookup(buckets[BucketIndex(hash, key, |buckets|)], key)
  }

  /** All chains one after the other, in slot order. */
  function Concat<K, V>(buckets: seq<seq<(K, V)>>): seq<(K, V)>
  {
    if buckets == [] then []
    else Concat(buckets[..|buckets| - 1]) + buckets[|buckets| - 1]
  }

  /** Number of pairs in the slots before b: where chain b starts in Concat. */
  function Offset<K, V>(buckets: seq<seq<(K, V)>>, b: nat): nat
    requires b <= |buckets|
  {
    |Concat(buckets[..b])|
  }

  /** Every pair sits in the slot its key hashes to. */
  ghost predicate Placed<K, V>(buckets: seq<seq<(K, V)>>, hash: K -> nat)
  {
    forall b, j :: 0 <= b < |buckets| && 0 <= j < |buckets[b]| ==>
      BucketIndex(hash, buckets[b][j].0, |buckets|) == b
  }

  /** No key occurs twice in one chain. */
  ghost predicate DistinctKeys<K, V>(chain: seq<(K, V)>)
  {
    forall i, j :: 0 <= i < |chain| && 0 <= j < |chain| && chain[i].0 == chain[j].0 ==> i == j
  }

  ghost predicate ChainsDistinct<K, V>(buckets: seq<seq<(K, V)>>)
  {
    forall b :: 0 <= b < |buckets| ==> DistinctKeys(buckets[b])
  }

  /**
   * The table invariant: at least one slot, every pair in its key's slot,
   * keys unique, Get agrees with the abstract map on every key, and the
   * number of pairs in all chains is the number of keys of the map.
   */
  ghost predicate TableInvariant<K(!new), V>(buckets: seq<seq<(K, V)>>, hash: K -> nat, contents: map<K, V>)
  {
    && |buckets| > 0
    && Placed(buckets, hash)
    && ChainsDistinct(buckets)
    && (forall k :: TableGet(buckets, hash, k) == MapGet(contents, k))
    && |Concat(buckets)| == |contents|
  }

  // ---------------------------------------------------------------------
  // Chains

  lemma {:induction false} FindIndexPrepend<K(!new), V>(p: (K, V), chain: seq<(K, V)>, key: K)
    ensures FindIndex([p] + chain, key) == if p.0 == key then 0 else 1 + FindIndex(chain, key)
  {
    assert ([p] + chain)[1..] == chain;
  }

  /** A scan loop that stops at the first pair with the key, or at the end, stops where FindIndex does. */
  lemma ScanStops<K(!new), V>(chain: seq<(K, V)>, key: K, j: nat)
    requires j <= |chain|
    requires forall i :: 0 <= i < j ==> chain[i].0 != key
    requires j < |chain| ==> chain[j].0 == key
    ensures j == FindIndex(chain, key)
  {
  }

  /** In a chain without repeated keys the scan for a stored key stops at its pair. */
  lemma FindStored<K(!new), V>(chain: seq<(K, V)>, j: nat)
    requires DistinctKeys(chain) && j < |chain|
    ensures FindIndex(chain, chain[j].0) == j
    ensures Lookup(chain, chain[j].0) == Some(chain[j].1)
  {
  }

  /** Replacing the value of the pair at j changes Lookup only for its key. */
  lemma LookupReplaced<K(!new), V>(chain: seq<(K, V)>, j: nat, value: V, key: K)
    requires DistinctKeys(chain) && j < |chain|
    ensures Lookup(chain[j := (chain[j].0, value)], key)
         == if key == chain[j].0 then Some(value) else Lookup(chain, key)
  {
    var c' := chain[j := (chain[j].0, value)];
    var r, r' := FindIndex(chain, key), FindIndex(c', key);
    if key == chain[j].0 {
      assert c'[j].0 == key;
      assert forall i :: 0 <= i < j ==> c'[i] == chain[i];
    } else {
      assert forall i :: 0 <= i < |c'| ==> c'[i].0 == chain[i].0;
      assert r' == r;
    }
  }

  /** Unlinking the pair at j makes its key absent and leaves every other key's answer. */
  lemma LookupRemoved<K(!new), V>(chain: seq<(K, V)>, j: nat, key: K)
    requires DistinctKeys(chain) && j < |chain|
    ensures Lookup(chain[..j] + chain[j + 1..], key)
         == if key == chain[j].0 then None else Lookup(chain, key)
  {
    var c' := chain[..j] + chain[j + 1..];
    assert |c'| == |chain| - 1;
    assert forall i :: 0 <= i < j ==> c'[i] == chain[i];
    assert forall i :: j <= i < |c'| ==> c'[i] == chain[i + 1];
    var r, r' := FindIndex(chain, key), FindIndex(c', key);
    if key == chain[j].0 {
    } else if r < j {
      assert c'[r].0 == key;
      assert r' == r;
    } else if r < |chain| {
      assert r > j;
      assert c'[r - 1].0 == key;
      assert r' == r - 1;
    }
  }

  // ---------------------------------------------------------------------
  // Concatenation of the chains

  lemma {:induction false} ConcatAppend<K, V>(a: seq<seq<(K, V)>>, c: seq<seq<(K, V)>>)
    ensures Concat(a + c) == Concat(a) + Concat(c)
    decreases |c|
  {
    if c == [] {
      assert a + c == a;
    } else {
      var c0 := c[..|c| - 1];
      assert (a + c)[..|a + c| - 1] == a + c0;
      ConcatAppend(a, c0);
    }
  }

  /** Chain b starts at Offset(b) and the next one right after it. */
  lemma OffsetStep<K, V>(s: seq<seq<(K, V)>>, b: nat)
    requires b < |s|
    ensures Concat(s[..b + 1]) == Concat(s[..b]) + s[b]
    ensures Offset(s, b + 1) == Offset(s, b) + |s[b]|
  {
    assert s[..b + 1][..b] == s[..b];
  }

  lemma OffsetEnd<K, V>(s: seq<seq<(K, V)>>)
    ensures Offset(s, |s|) == |Concat(s)|
  {
    assert s[..|s|] == s;
  }

  /** The pair at position t of chain b is the entry at Offset(b) + t of Concat. */
  lemma ConcatAt<K, V>(s: seq<seq<(K, V)>>, b: nat, t: nat)
    requires b < |s| && t < |s[b]|
    ensures Offset(s, b) + t < |Concat(s)|
    ensures Concat(s)[Offset(s, b) + t] == s[b][t]
  {
    assert s == s[..b + 1] + s[b + 1..];
    ConcatAppend(s[..b + 1], s[b + 1..]);
    OffsetStep(s, b);
  }

  /** Replacing one chain changes the total length by the difference of the chains. */
  lemma {:induction false} ConcatUpdateLength<K, V>(s: seq<seq<(K, V)>>, b: nat, x: seq<(K, V)>)
    requires b < |s|
    ensures |Concat(s[b := x])| == |Concat(s)| - |s[b]| + |x|
    decreases |s|
  {
    var n := |s| - 1;
    var u := s[b := x];
    if b == n {
      assert u[..n] == s[..n];
    } else {
      assert u[..n] == s[..n][b := x];
      ConcatUpdateLength(s[..n], b, x);
    }
  }

  /** The slots before b are all empty exactly when nothing precedes chain b. */
  lemma {:induction false} OffsetZero<K, V>(s: seq<seq<(K, V)>>, b: nat)
    requires b <= |s|
    ensures Offset(s, b) == 0 <==> forall i :: 0 <= i < b ==> s[i] == []
    decreases b
  {
    if b > 0 {
      OffsetStep(s, b - 1);
      OffsetZero(s, b - 1);
    }
  }

  // ---------------------------------------------------------------------
  // The table invariant and the edits that preserve it

  /** A table whose slots are all empty holds nothing. */
  lemma EmptyTable<K(!new), V>(s: seq<seq<(K, V)>>, hash: K -> nat)
    requires |s| > 0
    requires forall b :: 0 <= b < |s| ==> s[b] == []
    ensures TableInvariant(s, hash, map[])
  {
    OffsetZero(s, |s|);
    OffsetEnd(s);
  }

  /** Every pair in the table is an entry of the map. */
  lemma PairInContents<K(!new), V>(s: seq<seq<(K, V)>>, hash: K -> nat, m: map<K, V>, b: nat, t: nat)
    requires TableInvariant(s, hash, m)
    requires b < |s| && t < |s[b]|
    ensures s[b][t].0 in m && m[s[b][t].0] == s[b][t].1
  {
    FindStored(s[b], t);
    assert TableGet(s, hash, s[b][t].0) == MapGet(m, s[b][t].0);
  }

  /** Every entry of the map is a pair of the chain of its key's slot. */
  lemma ContentsInChain<K(!new), V>(s: seq<seq<(K, V)>>, hash: K -> nat, m: map<K, V>, key: K)
    requires TableInvariant(s, hash, m)
    requires key in m
    ensures var b := BucketIndex(hash, key, |s|);
      FindIndex(s[b], key) < |s[b]| && s[b][FindIndex(s[b], key)] == (key, m[key])
  {
    assert TableGet(s, hash, key) == MapGet(m, key);
  }

  /**
   * Put of an absent key: linking the new pair at the head of its slot's
   * chain keeps the invariant, with the key added to the map.
   */
  lemma InsertNew<K(!new), V>(s: seq<seq<(K, V)>>, hash: K -> nat, m: map<K, V>, key: K, value: V)
    requires TableInvariant(s, hash, m)
    requires key !in m
    ensures var b := BucketIndex(hash, key, |s|);
      TableInvariant(s[b := [(key, value)] + s[b]], hash, m[key := value])
  {
    var b := BucketIndex(hash, key, |s|);
    var c' := [(key, value)] + s[b];
    assert TableGet(s, hash, key) == None;
    PrependDistinct(s[b], key, value);
    PrependPlaced(s, hash, b, (key, value));
    InsertedLookups(s, hash, m, b, key, value, s[b := c']);
    ConcatUpdateLength(s, b, c');
  }

  lemma PrependDistinct<K(!new), V>(c: seq<(K, V)>, key: K, value: V)
    requires DistinctKeys(c) && Lookup(c, key) == None
    ensures DistinctKeys([(key, value)] + c)
  {
    var c' := [(key, value)] + c;
    assert forall i :: 0 <= i < |c| ==> c[i].0 != key;
    assert forall i :: 0 < i < |c'| ==> c'[i] == c[i - 1];
  }

  lemma PrependPlaced<K(!new), V>(s: seq<seq<(K, V)>>, hash: K -> nat, b: nat, p: (K, V))
    requires Placed(s, hash) && b < |s| && BucketIndex(hash, p.0, |s|) == b
    ensures Placed(s[b := [p] + s[b]], hash)
  {
    var c' := [p] + s[b];
    assert forall i :: 0 < i < |c'| ==> c'[i] == s[b][i - 1];
  }

  lemma InsertedLookups<K(!new), V>(s: seq<seq<(K, V)>>, hash: K -> nat, m: map<K, V>, b: nat, key: K, value: V,
                                    s': seq<seq<(K, V)>>)
    requires |s| > 0 && b == BucketIndex(hash, key, |s|)
    requires s' == s[b := [(key, value)] + s[b]]
    requires forall k :: TableGet(s, hash, k) == MapGet(m, k)
    ensures forall k :: TableGet(s', hash, k) == MapGet(m[key := value], k)
  {
    forall k
      ensures TableGet(s', hash, k) == MapGet(m[key := value], k)
    {
      assert TableGet(s, hash, k) == MapGet(m, k);
      if BucketIndex(hash, k, |s|) == b {
        FindIndexPrepend((key, value), s[b], k);
      }
    }
  }

  /**
   * Put of a present key: replacing the value of its pair keeps the
   * invariant, with the key mapped to the new value.
   */
  lemma ReplaceValue<K(!new), V>(s: seq<seq<(K, V)>>, hash: K -> nat, m: map<K, V>, b: nat, j: nat, value: V)
    requires TableInvariant(s, hash, m)
    requires b < |s| && j < |s[b]|
    ensures TableInvariant(s[b := s[b][j := (s[b][j].0, value)]], hash, m[s[b][j].0 := value])
  {
    var c := s[b];
    var key := c[j].0;
    var s' := s[b := c[j := (key, value)]];
    PairInContents(s, hash, m, b, j);
    forall k
      ensures TableGet(s', hash, k) == MapGet(m[key := value], k)
    {
      assert TableGet(s, hash, k) == MapGet(m, k);
      if BucketIndex(hash, k, |s|) == b {
        LookupReplaced(c, j, value, k);
      }
    }
    ConcatUpdateLength(s, b, c[j := (key, value)]);
  }

  /**
   * Remove of a present key: unlinking its pair keeps the invariant, with
   * the key taken out of the map.
   */
  lemma RemovePair<K(!new), V>(s: seq<seq<(K, V)>>, hash: K -> nat, m: map<K, V>, b: nat, j: nat)
    requires TableInvariant(s, hash, m)
    requires b < |s| && j < |s[b]|
    ensures TableInvariant(s[b := s[b][..j] + s[b][j + 1..]], hash, m - {s[b][j].0})
  {
    var c := s[b];
    var key := c[j].0;
    var c' := c[..j] + c[j + 1..];
    var s' := s[b := c'];
    PairInContents(s, hash, m, b, j);
    assert forall i :: 0 <= i < j ==> c'[i] == c[i];
    assert forall i :: j <= i < |c'| ==> c'[i] == c[i + 1];
    assert DistinctKeys(c');
    assert Placed(s', hash);
    forall k
      ensures TableGet(s', hash, k) == MapGet(m - {key}, k)
    {
      assert TableGet(s, hash, k) == MapGet(m, k);
      if BucketIndex(hash, k, |s|) == b {
        LookupRemoved(c, j, k);
      }
    }
    ConcatUpdateLength(s, b, c');
  }

  /** A table that holds nothing has only empty slots. */
  lemma NothingStored<K(!new), V>(s: seq<seq<(K, V)>>, hash: K -> nat)
    requires TableInvariant(s, hash, map[])
    ensures forall b :: 0 <= b < |s| ==> s[b] == []
  {
    forall b | 0 <= b < |s| ensures s[b] == [] {
      if s[b] != [] {
        ConcatAt(s, b, 0);
      }
    }
  }

  // ---------------------------------------------------------------------
  // The pairs in slot order, as an iteration visits them

  /** Number of pairs in ps whose key is key. */
  function Occurrences<K(==), V>(ps: seq<(K, V)>, key: K): nat
  {
    if ps == [] then 0
    else Occurrences(ps[..|ps| - 1], key) + (if ps[|ps| - 1].0 == key then 1 else 0)
  }

  lemma {:induction false} OccurrencesAppend<K(!new), V>(a: seq<(K, V)>, c: seq<(K, V)>, key: K)
    ensures Occurrences(a + c, key) == Occurrences(a, key) + Occurrences(c, key)
    decreases |c|
  {
    if c == [] {
      assert a + c == a;
    } else {
      var c0 := c[..|c| - 1];
      assert (a + c)[..|a + c| - 1] == a + c0;
      OccurrencesAppend(a, c0, key);
    }
  }

  /** In a chain without repeated keys a key occurs once if the scan finds it, else never. */
  lemma {:induction false} OccurrencesInChain<K(!new), V>(chain: seq<(K, V)>, key: K)
    requires DistinctKeys(chain)
    ensures Occurrences(chain, key) == if FindIndex(chain, key) < |chain| then 1 else 0
    decreases |chain|
  {
    if chain != [] {
      var n := |chain| - 1;
      var c0 := chain[..n];
      assert DistinctKeys(c0);
      OccurrencesInChain(c0, key);
      var r, r0 := FindIndex(chain, key), FindIndex(c0, key);
      if r0 < n {
        assert chain[r0].0 == key;
        assert r == r0;
      } else if chain[n].0 == key {
        assert r == n;
      } else {
        assert r == |chain|;
      }
    }
  }

  /** Each pair of the slots before i agrees with the map, and a stored key occurs in them once iff its slot is before i. */
  lemma {:induction false} PrefixEntries<K(!new), V>(s: seq<seq<(K, V)>>, hash: K -> nat, m: map<K, V>, i: nat)
    requires TableInvariant(s, hash, m)
    requires i <= |s|
    ensures forall p :: p in Concat(s[..i]) ==> p.0 in m && m[p.0] == p.1
    ensures forall k :: Occurrences(Concat(s[..i]), k)
                     == if k in m && BucketIndex(hash, k, |s|) < i then 1 else 0
    decreases i
  {
    if i == 0 {
      assert s[..0] == [];
    } else {
      var b := i - 1;
      PrefixEntries(s, hash, m, b);
      OffsetStep(s, b);
      ChainAgrees(s, hash, m, b);
      forall k
        ensures Occurrences(Concat(s[..i]), k)
             == if k in m && BucketIndex(hash, k, |s|) < i then 1 else 0
      {
        OccurrencesAppend(Concat(s[..b]), s[b], k);
        ChainOccurrences(s, hash, m, b, k);
      }
    }
  }

  /** Every pair of chain b agrees with the map. */
  lemma ChainAgrees<K(!new), V>(s: seq<seq<(K, V)>>, hash: K -> nat, m: map<K, V>, b: nat)
    requires TableInvariant(s, hash, m)
    requires b < |s|
    ensures forall p :: p in s[b] ==> p.0 in m && m[p.0] == p.1
  {
    forall p | p in s[b] ensures p.0 in m && m[p.0] == p.1 {
      var t :| 0 <= t < |s[b]| && s[b][t] == p;
      PairInContents(s, hash, m, b, t);
    }
  }

  /** A key occurs in chain b once if it is stored and hashes to b, and otherwise not at all. */
  lemma ChainOccurrences<K(!new), V>(s: seq<seq<(K, V)>>, hash: K -> nat, m: map<K, V>, b: nat, k: K)
    requires TableInvariant(s, hash, m)
    requires b < |s|
    ensures Occurrences(s[b], k) == if k in m && BucketIndex(hash, k, |s|) == b then 1 else 0
  {
    OccurrencesInChain(s[b], k);
    assert TableGet(s, hash, k) == MapGet(m, k);
    if FindIndex(s[b], k) < |s[b]| {
      var t := FindIndex(s[b], k);
      assert s[b][t].0 == k;
    }
  }

  /**
   * The pairs in slot order are exactly the entries of the map: each one
   * agrees with the map, each stored key occurs exactly once and no other
   * key occurs, and there are as many pairs as keys.
   */
  lemma EntriesAreContents<K(!new), V>(s: seq<seq<(K, V)>>, hash: K -> nat, m: map<K, V>)
    requires TableInvariant(s, hash, m)
    ensures |Concat(s)| == |m|
    ensures forall p :: p in Concat(s) ==> p.0 in m && m[p.0] == p.1
    ensures forall k :: k in m ==> (k, m[k]) in Concat(s)
    ensures forall k :: Occurrences(Concat(s), k) == if k in m then 1 else 0
  {
    assert s[..|s|] == s;
    PrefixEntries(s, hash, m, |s|);
    forall k | k in m ensures (k, m[k]) in Concat(s) {
      ContentsInChain(s, hash, m, k);
      var b := BucketIndex(hash, k, |s|);
      ConcatAt(s, b, FindIndex(s[b], k));
    }
  }

  // ---------------------------------------------------------------------
  // Redistribution into a new bucket array, as Rehash relinks the pairs

  /** n empty slots, as a freshly cleared bucket array. */
  function EmptyBuckets<K, V>(n: nat): (s: seq<seq<(K, V)>>)
    ensures |s| == n && forall b :: 0 <= b < n ==> s[b] == []
  {
    seq(n, _ => [])
  }

  /**
   * The bucket array that results from taking the pairs ps in order and
   * linking each at the head of the chain of its key's slot among n slots.
   */
  function Scatter<K, V>(ps: seq<(K, V)>, hash: K -> nat, n: nat): (s: seq<seq<(K, V)>>)
    requires n > 0
    ensures |s| == n
    decreases |ps|
  {
    if ps == [] then EmptyBuckets(n)
    else
      var s := Scatter(ps[..|ps| - 1], hash, n);
      var p := ps[|ps| - 1];
      var b := BucketIndex(hash, p.0, n);
      s[b := [p] + s[b]]
  }

  /** Scattering one more pair links it at the head of its slot's chain. */
  lemma ScatterAppend<K, V>(ps: seq<(K, V)>, p: (K, V), hash: K -> nat, n: nat)
    requires n > 0
    ensures var s := Scatter(ps, hash, n);
      var b := BucketIndex(hash, p.0, n);
      Scatter(ps + [p], hash, n) == s[b := [p] + s[b]]
  {
    assert (ps + [p])[..|ps|] == ps;
  }

  /** The map the pairs ps describe, a later pair winning over an earlier one. */
  function MapOf<K, V>(ps: seq<(K, V)>): map<K, V>
  {
    if ps == [] then map[]
    else MapOf(ps[..|ps| - 1])[ps[|ps| - 1].0 := ps[|ps| - 1].1]
  }

  lemma {:induction false} MapOfKeys<K(!new), V>(ps: seq<(K, V)>, k: K)
    ensures k in MapOf(ps) <==> Occurrences(ps, k) > 0
    decreases |ps|
  {
    if ps != [] {
      MapOfKeys(ps[..|ps| - 1], k);
    }
  }

  lemma {:induction false} MapOfPair<K(!new), V>(ps: seq<(K, V)>, k: K)
    requires k in MapOf(ps)
    ensures (k, MapOf(ps)[k]) in ps
    decreases |ps|
  {
    var n := |ps| - 1;
    if ps[n].0 != k {
      MapOfPair(ps[..n], k);
      assert ps[..n] <= ps;
    }
  }

  /**
   * Scattering pairs with pairwise distinct keys into n slots gives a table
   * that satisfies the invariant and holds exactly those pairs.
   */
  lemma {:induction false} ScatterInvariant<K(!new), V>(ps: seq<(K, V)>, hash: K -> nat, n: nat)
    requires n > 0
    requires forall k :: Occurrences(ps, k) <= 1
    ensures TableInvariant(Scatter(ps, hash, n), hash, MapOf(ps))
    decreases |ps|
  {
    if ps == [] {
      EmptyTable(EmptyBuckets<K, V>(n), hash);
    } else {
      var ps0 := ps[..|ps| - 1];
      var p := ps[|ps| - 1];
      assert forall k :: Occurrences(ps0, k) <= Occurrences(ps, k);
      ScatterInvariant(ps0, hash, n);
      MapOfKeys(ps0, p.0);
      InsertNew(Scatter(ps0, hash, n), hash, MapOf(ps0), p.0, p.1);
    }
  }

  /** A table's pairs in slot order describe exactly its map. */
  lemma MapOfEntries<K(!new), V>(s: seq<seq<(K, V)>>, hash: K -> nat, m: map<K, V>)
    requires TableInvariant(s, hash, m)
    ensures MapOf(Concat(s)) == m
  {
    EntriesAreContents(s, hash, m);
    var ps := Concat(s);
    forall k ensures k in MapOf(ps) <==> k in m {
      MapOfKeys(ps, k);
    }
    forall k | k in m ensures MapOf(ps)[k] == m[k] {
      MapOfKeys(ps, k);
      MapOfPair(ps, k);
    }
  }

  /**
   * Rehash: scattering a table's pairs, in slot order, into any positive
   * number of new slots gives a table for the same map.
   */
  lemma Redistribute<K(!new), V>(s: seq<seq<(K, V)>>, hash: K -> nat, m: map<K, V>, n: nat)
    requires TableInvariant(s, hash, m)
    requires n > 0
    ensures TableInvariant(Scatter(Concat(s), hash, n), hash, m)
  {
    EntriesAreContents(s, hash, m);
    ScatterInvariant(Concat(s), hash, n);
    MapOfEntries(s, hash, m);
  }
}

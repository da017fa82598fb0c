/** What a census keeps over every run, and what its proofs are worth. */
module CensusLaws {
  import opened Bytes
  import opened Results
  import opened Trie
  import opened Types
  import opened Census

  /** The last index the codec can hold is 2^63, so a census has at most 2^63 + 1 keys. */
  const MAX_SIZE := TWO_63 + 1

  function LeafOf(pubK: PubKey, weight: nat): KeyHash
  {
    KeyHash(pubK.x, pubK.y, weight)
  }

  /** A stored entry decodes to an index in use whose leaf is this key with this weight. */
  ghost predicate Entry(s: CensusState, pubK: PubKey)
    requires pubK in s.table
  {
    var d := BytesToIndexAndWeight(s.table[pubK]);
    && d.Success? && d.value.0 < s.nextIndex
    && InField(pubK.x) && InField(pubK.y) && InField(d.value.1)
    && d.value.0 in Contents(s.tree) && Contents(s.tree)[d.value.0] == LeafOf(pubK, d.value.1)
  }

  /** The leaves are exactly 0 .. nextIndex - 1; table and tree name the same keys. */
  ghost predicate Valid(s: CensusState)
  {
    && s.nextIndex <= MAX_SIZE
    && WellFormed(s.tree, [])
    && (forall k: nat :: k in Contents(s.tree) <==> k < s.nextIndex)
    && (forall pubK | pubK in s.table :: Entry(s, pubK))
    && (forall k | k in Contents(s.tree) :: PubKey(Contents(s.tree)[k].x, Contents(s.tree)[k].y) in s.table)
  }

  // ---------------------------------------------------------------- one batch

  ghost predicate Hashable(pubKs: seq<PubKey>, weights: seq<int>, n: nat)
    requires n <= |pubKs|
  {
    && n <= |weights|
    && forall i | 0 <= i < n :: InField(pubKs[i].x) && InField(pubKs[i].y) && InField(weights[i])
  }

  /** The last position of `pubK` among the first `n` keys of a batch, or -1. */
  function LastPos(pubKs: seq<PubKey>, n: nat, pubK: PubKey): (i: int)
    requires n <= |pubKs|
    ensures -1 <= i < n
    ensures 0 <= i ==> pubKs[i] == pubK
    ensures forall j | i < j < n :: pubKs[j] != pubK
  {
    if n == 0 then -1 else if pubKs[n - 1] == pubK then n - 1 else LastPos(pubKs, n - 1, pubK)
  }

  /** The batch `b` gathered from the first `n` keys: a later key overwrites the entry of an equal earlier one. */
  ghost predicate Gathered(b: Batch, table: map<PubKey, seq<byte>>, next: uint64, pubKs: seq<PubKey>, weights: seq<int>, n: nat)
    requires n <= |pubKs| && Hashable(pubKs, weights, n)
  {
    && |b.keys| == |b.hashes| == n
    && (forall i | 0 <= i < n :: b.keys[i] == IndexKey(Wrap64(next + i)))
    && (forall i | 0 <= i < n :: b.hashes[i] == LeafOf(pubKs[i], weights[i]))
    && (forall pubK :: EntryGathered(b.table, table, next, pubKs, weights, n, pubK))
  }

  ghost predicate EntryGathered(table': map<PubKey, seq<byte>>, table: map<PubKey, seq<byte>>, next: uint64,
                                pubKs: seq<PubKey>, weights: seq<int>, n: nat, pubK: PubKey)
    requires n <= |pubKs| && n <= |weights|
  {
    var i := LastPos(pubKs, n, pubK);
    if i >= 0 then pubK in table' && table'[pubK] == IndexAndWeightToBytes(Wrap64(next + i), weights[i])
    else if pubK in table then pubK in table' && table'[pubK] == table[pubK]
    else pubK !in table'
  }

  lemma {:induction false} GatherSpec(table: map<PubKey, seq<byte>>, next: uint64, pubKs: seq<PubKey>, weights: seq<int>, n: nat)
    requires n <= |pubKs|
    ensures var r := Gather(table, next, pubKs, weights, n);
            && (r.Success? <==> Hashable(pubKs, weights, n))
            && (r.Success? ==> Gathered(r.value, table, next, pubKs, weights, n))
  {
    if n > 0 {
      GatherSpec(table, next, pubKs, weights, n - 1);
      var r := Gather(table, next, pubKs, weights, n);
      if Hashable(pubKs, weights, n) {
        var b := Gather(table, next, pubKs, weights, n - 1).value;
        var index := Wrap64(next + (n - 1));
        GatheredStep(b, r.value, table, next, pubKs, weights, n, IndexAndWeightToBytes(index, weights[n - 1]), IndexKey(index));
      }
    }
  }

  lemma GatheredStep(b: Batch, b': Batch, table: map<PubKey, seq<byte>>, next: uint64, pubKs: seq<PubKey>, weights: seq<int>, n: nat,
                     entry: seq<byte>, key: nat)
    requires 0 < n <= |pubKs| && Hashable(pubKs, weights, n) && Gathered(b, table, next, pubKs, weights, n - 1)
    requires entry == IndexAndWeightToBytes(Wrap64(next + (n - 1)), weights[n - 1]) && key == IndexKey(Wrap64(next + (n - 1)))
    requires b' == Batch(b.table[pubKs[n - 1] := entry], b.keys + [key], b.hashes + [LeafOf(pubKs[n - 1], weights[n - 1])])
    ensures Gathered(b', table, next, pubKs, weights, n)
  {
    assert forall i | 0 <= i < n :: b'.keys[i] == IndexKey(Wrap64(next + i));
    assert forall i | 0 <= i < n :: b'.hashes[i] == LeafOf(pubKs[i], weights[i]);
    forall pubK ensures EntryGathered(b'.table, table, next, pubKs, weights, n, pubK) {
      assert EntryGathered(b.table, table, next, pubKs, weights, n - 1, pubK);
    }
  }

  /** The new indexes get leaves of their own exactly while they stay within the codec's range. */
  lemma {:induction false} SeparateIff(tree: Tree, next: uint64, keys: seq<nat>)
    requires next <= MAX_SIZE && |keys| < TWO_63
    requires forall k: nat :: k in Contents(tree) <==> k < next
    requires forall i | 0 <= i < |keys| :: keys[i] == IndexKey(Wrap64(next + i))
    ensures Separate(tree, keys, MAX_LEVELS) <==> next + |keys| <= MAX_SIZE
  {
    if next + |keys| <= MAX_SIZE {
      assert forall i | 0 <= i < |keys| :: keys[i] == next + i;
      SeparateInRange(tree, next, keys);
    } else {
      Collision(tree, next, keys);
    }
  }

  lemma PathInjective64(a: nat, b: nat)
    requires a < TWO_64 && b < TWO_64 && Path(a, MAX_LEVELS) == Path(b, MAX_LEVELS)
    ensures a == b
  {
    Pow2OfBytes(8);
    Pow256Values();
    PathInjective(a, b, MAX_LEVELS);
  }

  lemma SeparateInRange(tree: Tree, next: uint64, keys: seq<nat>)
    requires next + |keys| <= MAX_SIZE
    requires forall k: nat :: k in Contents(tree) <==> k < next
    requires forall i | 0 <= i < |keys| :: keys[i] == next + i
    ensures Separate(tree, keys, MAX_LEVELS)
  {
    forall i, a | 0 <= i < |keys| && a in Contents(tree) ensures Path(a, MAX_LEVELS) != Path(keys[i], MAX_LEVELS) {
      if Path(a, MAX_LEVELS) == Path(keys[i], MAX_LEVELS) { PathInjective64(a, keys[i]); }
    }
    forall i, j | 0 <= i < j < |keys| ensures Path(keys[i], MAX_LEVELS) != Path(keys[j], MAX_LEVELS) {
      if Path(keys[i], MAX_LEVELS) == Path(keys[j], MAX_LEVELS) { PathInjective64(keys[i], keys[j]); }
    }
  }

  /** The first index past 2^63 takes the key of its mirror image 2^63 - 1. */
  lemma Collision(tree: Tree, next: uint64, keys: seq<nat>)
    requires next <= MAX_SIZE < next + |keys|
    requires forall k: nat :: k in Contents(tree) <==> k < next
    requires forall i | 0 <= i < |keys| :: keys[i] == IndexKey(Wrap64(next + i))
    ensures !Separate(tree, keys, MAX_LEVELS)
  {
    var i := MAX_SIZE - next;
    assert keys[i] == TWO_63 - 1;
    if next < TWO_63 {
      var j := TWO_63 - 1 - next;
      assert keys[j] == TWO_63 - 1;
      assert Path(keys[j], MAX_LEVELS) == Path(keys[i], MAX_LEVELS);
    } else {
      assert TWO_63 - 1 in Contents(tree);
    }
  }

  /** A batch is accepted exactly when the census is open, all keys and weights hash, and the indexes last. */
  ghost predicate Accepts(s: CensusState, pubKs: seq<PubKey>, weights: seq<int>)
  {
    !s.closed && Hashable(pubKs, weights, |pubKs|) && s.nextIndex + |pubKs| <= MAX_SIZE
  }

  /** Leaf `next + i` of the new tree is key `i` of the batch; the old leaves are all there. */
  ghost predicate LeavesAppended(c: map<nat, KeyHash>, c': map<nat, KeyHash>, next: nat, pubKs: seq<PubKey>, weights: seq<int>)
    requires Hashable(pubKs, weights, |pubKs|)
  {
    && (forall k: nat :: k in c' <==> k in c || next <= k < next + |pubKs|)
    && (forall k: nat | k < next && k in c :: c'[k] == c[k])
    && (forall k: nat | next <= k < next + |pubKs| :: c'[k] == LeafOf(pubKs[k - next], weights[k - next]))
  }

  /** A key of the batch now points to its last position in it, with its weight there; other entries stay. */
  ghost predicate EntryUpdated(s: CensusState, s': CensusState, pubKs: seq<PubKey>, weights: seq<int>, pubK: PubKey)
    requires Hashable(pubKs, weights, |pubKs|)
  {
    var i := LastPos(pubKs, |pubKs|, pubK);
    if i >= 0 then pubK in s'.table && BytesToIndexAndWeight(s'.table[pubK]) == Success((s.nextIndex + i, weights[i]))
    else if pubK in s.table then pubK in s'.table && s'.table[pubK] == s.table[pubK]
    else pubK !in s'.table
  }

  ghost predicate TableUpdated(s: CensusState, s': CensusState, pubKs: seq<PubKey>, weights: seq<int>)
    requires Hashable(pubKs, weights, |pubKs|)
  {
    forall pubK :: EntryUpdated(s, s', pubKs, weights, pubK)
  }

  ghost predicate Appended(s: CensusState, s': CensusState, pubKs: seq<PubKey>, weights: seq<int>)
    requires Hashable(pubKs, weights, |pubKs|)
  {
    && s'.nextIndex == s.nextIndex + |pubKs| && s'.closed == s.closed && s'.errMsg == s.errMsg
    && LeavesAppended(Contents(s.tree), Contents(s'.tree), s.nextIndex, pubKs, weights)
    && TableUpdated(s, s', pubKs, weights)
  }

  /**
   The batch operation, whole: when it succeeds, what it then did, and that it keeps the census valid.
   No bound on the counter is assumed: the tree refuses the batch that would pass 2^63 + 1 keys.
   */
  lemma AddKeysSpec(s: CensusState, pubKs: seq<PubKey>, weights: seq<int>)
    requires Valid(s) && |pubKs| < TWO_63
    ensures AddKeys(s, pubKs, weights).Success? <==> Accepts(s, pubKs, weights)
    ensures Accepts(s, pubKs, weights) ==>
      Appended(s, AddKeys(s, pubKs, weights).value, pubKs, weights) && Valid(AddKeys(s, pubKs, weights).value)
  {
    GatherSpec(s.table, s.nextIndex, pubKs, weights, |pubKs|);
    var g := Gather(s.table, s.nextIndex, pubKs, weights, |pubKs|);
    if !s.closed && g.Success? {
      var b := g.value;
      AddBatchSpec(s.tree, b.keys, b.hashes, MAX_LEVELS);
      SeparateIff(s.tree, s.nextIndex, b.keys);
      if s.nextIndex + |pubKs| <= MAX_SIZE {
        var s' := AddKeys(s, pubKs, weights).value;
        LeavesOfBatch(Contents(s.tree), s.nextIndex, b.keys, b.hashes, pubKs, weights);
        TableOfBatch(s, s', b, pubKs, weights);
        AppendedValid(s, s', pubKs, weights);
      }
    }
  }

  lemma LeavesOfBatch(c: map<nat, KeyHash>, next: nat, keys: seq<nat>, hashes: seq<KeyHash>, pubKs: seq<PubKey>, weights: seq<int>)
    requires Hashable(pubKs, weights, |pubKs|) && |keys| == |hashes| == |pubKs| && next + |pubKs| <= MAX_SIZE
    requires forall k: nat :: k in c <==> k < next
    requires forall i | 0 <= i < |pubKs| :: keys[i] == IndexKey(Wrap64(next + i))
    requires forall i | 0 <= i < |pubKs| :: hashes[i] == LeafOf(pubKs[i], weights[i])
    ensures LeavesAppended(c, c + Entries(keys, hashes), next, pubKs, weights)
  {
    assert forall i | 0 <= i < |pubKs| :: keys[i] == next + i;
    ConsecutiveEntries(next, keys, hashes);
  }

  lemma ConsecutiveEntries(n: nat, keys: seq<nat>, hashes: seq<KeyHash>)
    requires |keys| == |hashes| && forall i | 0 <= i < |keys| :: keys[i] == n + i
    ensures forall k: nat :: k in Entries(keys, hashes) <==> n <= k < n + |keys|
    ensures forall k: nat | n <= k < n + |keys| :: Entries(keys, hashes)[k] == hashes[k - n]
  {
    EntriesAre(keys, hashes);
    forall k: nat ensures k in keys <==> n <= k < n + |keys| {
      if n <= k < n + |keys| { assert keys[k - n] == k; }
    }
    forall k: nat | n <= k < n + |keys| ensures Entries(keys, hashes)[k] == hashes[k - n] {
      assert keys[k - n] == k;
    }
  }

  lemma TableOfBatch(s: CensusState, s': CensusState, b: Batch, pubKs: seq<PubKey>, weights: seq<int>)
    requires Accepts(s, pubKs, weights)
    requires Gathered(b, s.table, s.nextIndex, pubKs, weights, |pubKs|)
    requires s'.table == b.table
    ensures TableUpdated(s, s', pubKs, weights)
  {
    forall pubK ensures EntryUpdated(s, s', pubKs, weights, pubK) {
      assert EntryGathered(b.table, s.table, s.nextIndex, pubKs, weights, |pubKs|, pubK);
      var i := LastPos(pubKs, |pubKs|, pubK);
      if i >= 0 { EntryDecodes(s.nextIndex + i, weights[i], s'.table[pubK]); }
    }
  }

  lemma EntryDecodes(index: nat, weight: int, entry: seq<byte>)
    requires index <= TWO_63 && InField(weight) && entry == IndexAndWeightToBytes(Wrap64(index), weight)
    ensures BytesToIndexAndWeight(entry) == Success((index, weight))
  {
    CodecRoundTripIff(index, weight);
  }

  lemma AppendedValid(s: CensusState, s': CensusState, pubKs: seq<PubKey>, weights: seq<int>)
    requires Valid(s) && Accepts(s, pubKs, weights) && Appended(s, s', pubKs, weights) && WellFormed(s'.tree, [])
    ensures Valid(s')
  {
    forall pubK | pubK in s'.table ensures Entry(s', pubK) {
      EntryKept(s, s', pubKs, weights, pubK);
    }
    var c := Contents(s'.tree);
    forall k | k in c ensures PubKey(c[k].x, c[k].y) in s'.table {
      LeafNamed(s, s', pubKs, weights, k);
    }
  }

  lemma EntryKept(s: CensusState, s': CensusState, pubKs: seq<PubKey>, weights: seq<int>, pubK: PubKey)
    requires Accepts(s, pubKs, weights) && Appended(s, s', pubKs, weights)
    requires pubK in s.table ==> Entry(s, pubK)
    requires pubK in s'.table
    ensures Entry(s', pubK)
  {
    assert EntryUpdated(s, s', pubKs, weights, pubK);
    var i := LastPos(pubKs, |pubKs|, pubK);
    if i >= 0 {
      assert s.nextIndex <= s.nextIndex + i < s'.nextIndex;
    }
  }

  lemma LeafNamed(s: CensusState, s': CensusState, pubKs: seq<PubKey>, weights: seq<int>, k: nat)
    requires Accepts(s, pubKs, weights) && Appended(s, s', pubKs, weights) && k in Contents(s'.tree)
    requires k in Contents(s.tree) ==> k < s.nextIndex && PubKey(Contents(s.tree)[k].x, Contents(s.tree)[k].y) in s.table
    ensures PubKey(Contents(s'.tree)[k].x, Contents(s'.tree)[k].y) in s'.table
  {
    var leaf := Contents(s'.tree)[k];
    assert EntryUpdated(s, s', pubKs, weights, PubKey(leaf.x, leaf.y));
  }
}

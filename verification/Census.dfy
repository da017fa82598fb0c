/** census/census.go: one census, from its first key to the proofs it serves. */
module Census {
  import opened Bytes
  import opened Results
  import opened Trie
  import opened Types

  /** What one census keeps in its database. */
  datatype CensusState = CensusState(
    nextIndex: uint64,
    table: map<PubKey, seq<byte>>,
    tree: Tree,
    closed: bool,
    errMsg: string)

  const EMPTY := CensusState(0, map[], Tree.Empty, false, "")

  datatype Info = Info(errMsg: string, size: uint64, closed: bool, root: Digest)

  /** What the loop over a batch gathers before it touches the tree. */
  datatype Batch = Batch(table: map<PubKey, seq<byte>>, keys: seq<nat>, hashes: seq<KeyHash>)

  /** One round of the loop: the key's table entry, its tree key and its leaf value. */
  function GatherOne(b: Batch, index: uint64, pubK: PubKey, weight: int): Result<Batch, Error>
  {
    match HashPubKBytes(pubK, Some(weight))
    case Failure(e) => Failure(e)
    case Success(h) => Success(Batch(b.table[pubK := IndexAndWeightToBytes(index, weight)], b.keys + [IndexKey(index)], b.hashes + [h]))
  }

  function Gather(table: map<PubKey, seq<byte>>, next: uint64, pubKs: seq<PubKey>, weights: seq<int>, n: nat): (r: Result<Batch, Error>)
    requires n <= |pubKs|
    ensures r.Success? ==> |r.value.keys| == |r.value.hashes| == n
  {
    if n == 0 then Success(Batch(table, [], []))
    else
      match Gather(table, next, pubKs, weights, n - 1)
      case Failure(e) => Failure(e)
      case Success(b) =>
        if n > |weights| then Failure(IndexOutOfRange)
        else GatherOne(b, Wrap64(next + (n - 1)), pubKs[n - 1], weights[n - 1])
  }

  function AddKeys(s: CensusState, pubKs: seq<PubKey>, weights: seq<int>): Result<CensusState, Error>
  {
    if s.closed then Failure(CensusClosed)
    else if Wrap64(s.nextIndex + |pubKs|) > MAX_N_LEAFS then Failure(MaxNLeafsReached)
    else
      match Gather(s.table, s.nextIndex, pubKs, weights, |pubKs|)
      case Failure(e) => Failure(e)
      case Success(b) =>
        var (tree, invalids) := AddBatch(s.tree, b.keys, b.hashes, MAX_LEVELS);
        if invalids != [] then Failure(CannotAdd(|invalids|))
        else Success(s.(nextIndex := Wrap64(s.nextIndex + |pubKs|), table := b.table, tree := tree))
  }

  function CensusRoot(s: CensusState): Result<Digest, Error>
  {
    if s.closed then Success(Root(s.tree)) else Failure(CensusNotClosed)
  }

  function ServeProof(s: CensusState, pubK: PubKey): Result<(uint64, PackedProof), Error>
  {
    if !s.closed then Failure(CensusNotClosed)
    else if pubK !in s.table then Failure(UnknownKey)
    else
      match BytesToIndexAndWeight(s.table[pubK])
      case Failure(e) => Failure(e)
      case Success((index, weight)) =>
        var siblings, leaf := Siblings(s.tree, IndexKey(index), 0), Find(s.tree, IndexKey(index), 0);
        if siblings.None? || leaf.None? then Failure(KeyNotInTree)
        else
          match HashPubKBytes(pubK, Some(weight))
          case Failure(e) => Failure(e)
          case Success(h) =>
            if leaf.value != h then Failure(LeafMismatch) else Success((index, Packed(siblings.value, 0)))
  }

  class Census {
    var nextIndex: uint64
    var table: map<PubKey, seq<byte>>
    var tree: Tree
    var closed: bool
    var errMsg: string

    ghost function State(): CensusState
      reads this
    {
      CensusState(nextIndex, table, tree, closed, errMsg)
    }

    /** Loads a stored census. Whatever the stored flag says, the loaded census is open. */
    constructor (stored: CensusState)
      ensures State() == stored.(closed := false)
    {
      nextIndex, table, tree, errMsg := stored.nextIndex, stored.table, stored.tree, stored.errMsg;
      closed := false;
    }

    method Size() returns (size: uint64)
      ensures size == State().nextIndex
    {
      size := nextIndex;
    }

    method SetErrMsg(status: string)
      modifies this`errMsg
      ensures State() == old(State()).(errMsg := status)
    {
      errMsg := status;
    }

    method Close() returns (r: Result<(), Error>)
      modifies this`closed
      ensures State() == old(State()).(closed := true)
      ensures r == if old(State()).closed then Failure(CensusAlreadyClosed) else Success(())
    {
      if closed { return Failure(CensusAlreadyClosed); }
      closed := true;
      r := Success(());
    }

    method GetRoot() returns (r: Result<Digest, Error>)
      ensures r == CensusRoot(State())
    {
      if !closed { return Failure(CensusNotClosed); }
      r := Success(Root(tree));
    }

    method GetInfo() returns (info: Info)
      ensures info.errMsg == State().errMsg && info.size == State().nextIndex && info.closed == State().closed
      ensures CensusRoot(State()) == if info.closed then Success(info.root) else Failure(CensusNotClosed)
      ensures !info.closed ==> info.root == Zero
    {
      var root := Zero;
      if closed {
        var r := GetRoot();
        root := r.value;
      }
      info := Info(errMsg, nextIndex, closed, root);
    }

    /** Works on copies, as the transaction does, and commits them only when every step went well. */
    method AddPublicKeys(pubKs: seq<PubKey>, weights: seq<int>) returns (r: Result<(), Error>)
      modifies this
      ensures var after := AddKeys(old(State()), pubKs, weights);
              && (after.Success? ==> r == Success(()) && State() == after.value)
              && (after.Failure? ==> r == Failure(after.error) && State() == old(State()))
    {
      if closed { return Failure(CensusClosed); }
      if Wrap64(nextIndex + |pubKs|) > MAX_N_LEAFS { return Failure(MaxNLeafsReached); }
      var txTable, indexes, pubKHashes := table, [], [];
      for i := 0 to |pubKs|
        invariant State() == old(State())
        invariant |indexes| == |pubKHashes|
        invariant Gather(table, nextIndex, pubKs, weights, i) == Success(Batch(txTable, indexes, pubKHashes))
      {
        GatherNext(table, nextIndex, pubKs, weights, i, Batch(txTable, indexes, pubKHashes));
        if i >= |weights| {
          GatherStops(table, nextIndex, pubKs, weights, i + 1);
          return Failure(IndexOutOfRange);
        }
        var index := Wrap64(nextIndex + i);
        txTable := txTable[pubKs[i] := IndexAndWeightToBytes(index, weights[i])];
        indexes := indexes + [IndexKey(index)];
        var hash := HashPubKBytes(pubKs[i], Some(weights[i]));
        if hash.Failure? {
          GatherStops(table, nextIndex, pubKs, weights, i + 1);
          return Failure(hash.error);
        }
        pubKHashes := pubKHashes + [hash.value];
      }
      var (tree', invalids) := AddBatch(tree, indexes, pubKHashes, MAX_LEVELS);
      if invalids != [] { return Failure(CannotAdd(|invalids|)); }
      nextIndex, table, tree := Wrap64(nextIndex + |pubKs|), txTable, tree';
      r := Success(());
    }

    method GetProof(pubK: PubKey) returns (r: Result<(uint64, PackedProof), Error>)
      ensures r == ServeProof(State(), pubK)
    {
      if !closed { return Failure(CensusNotClosed); }
      if pubK !in table { return Failure(UnknownKey); }
      var decoded := BytesToIndexAndWeight(table[pubK]);
      if decoded.Failure? { return Failure(decoded.error); }
      var (index, weight) := decoded.value;
      var siblings, leaf := Siblings(tree, IndexKey(index), 0), Find(tree, IndexKey(index), 0);
      if siblings.None? || leaf.None? { return Failure(KeyNotInTree); }
      var hash := HashPubKBytes(pubK, Some(weight));
      if hash.Failure? { return Failure(hash.error); }
      if leaf.value != hash.value { return Failure(LeafMismatch); }
      r := Success((index, Packed(siblings.value, 0)));
    }
  }

  lemma GatherNext(table: map<PubKey, seq<byte>>, next: uint64, pubKs: seq<PubKey>, weights: seq<int>, i: nat, b: Batch)
    requires i < |pubKs| && Gather(table, next, pubKs, weights, i) == Success(b)
    ensures Gather(table, next, pubKs, weights, i + 1)
            == if i >= |weights| then Failure(IndexOutOfRange) else GatherOne(b, Wrap64(next + i), pubKs[i], weights[i])
  {}

  /** The first failure of the loop is the failure of the whole batch. */
  lemma {:induction false} GatherStops(table: map<PubKey, seq<byte>>, next: uint64, pubKs: seq<PubKey>, weights: seq<int>, n: nat)
    requires n <= |pubKs| && Gather(table, next, pubKs, weights, n).Failure?
    ensures Gather(table, next, pubKs, weights, |pubKs|) == Gather(table, next, pubKs, weights, n)
    decreases |pubKs| - n
  {
    if n < |pubKs| { GatherStops(table, next, pubKs, weights, n + 1); }
  }
}

/** Runs of a census: proofs served and accepted, finality of closing, batching. */
module CensusRuns {
  import opened Bytes
  import opened Results
  import opened Trie
  import opened Types
  import opened Census
  import opened CensusLaws

  // ---------------------------------------------------------------- proofs

  /**
   A closed census serves a proof for exactly the keys in its table, and each proof it serves, with the
   weight on record, passes both verifiers against its root.
   */
  lemma ServedProofsAccepted(s: CensusState, pubK: PubKey)
    requires Valid(s) && s.closed
    ensures ServeProof(s, pubK).Success? <==> pubK in s.table
    ensures pubK in s.table ==>
      var (index, proof) := ServeProof(s, pubK).value;
      var (index', weight) := BytesToIndexAndWeight(s.table[pubK]).value;
      && index == index' < s.nextIndex
      && CheckCensusProof(CensusRoot(s).value, proof, index, pubK, Some(weight)) == Success(true)
      && |proof.siblings| <= Depth(s.tree)
  {
    if pubK in s.table {
      assert Entry(s, pubK);
      var (index, weight) := BytesToIndexAndWeight(s.table[pubK]).value;
      ProofComplete(s.tree, index, []);
      ProofShape(s.tree, index, []);
      FindSpec(s.tree, index, []);
    }
  }

  /** The leaf holds this key with this weight; a voter who names no weight claims the weight 1. */
  ghost predicate IsLeafFor(leaf: KeyHash, pubK: PubKey, weight: Option<int>)
  {
    && leaf.x == pubK.x < FIELD && leaf.y == pubK.y < FIELD && leaf.weight < FIELD
    && leaf.weight == if weight.Some? then weight.value else 1
  }

  /**
   The converse: what a verifier accepts against the root of a census is a leaf of it, with the one proof
   that leaf has.
   */
  lemma AcceptedProofIff(s: CensusState, proof: PackedProof, index: uint64, pubK: PubKey, weight: Option<int>)
    requires Valid(s)
    ensures CheckCensusProof(Root(s.tree), proof, index, pubK, weight) == Success(true)
      <==> && proof.Packed? && IndexKey(index) < s.nextIndex
           && IsLeafFor(Contents(s.tree)[IndexKey(index)], pubK, weight)
           && Siblings(s.tree, IndexKey(index), 0) == Some(proof.siblings)
  {
    if proof.Packed? && HashPubKBytes(pubK, weight).Success? {
      ProofIff(s.tree, IndexKey(index), HashPubKBytes(pubK, weight).value, proof.siblings);
    }
  }

  /** A registered key can leave out its weight exactly when it is 1. */
  lemma ServedWithoutWeightIff(s: CensusState, pubK: PubKey)
    requires Valid(s) && s.closed && pubK in s.table
    ensures ServeProof(s, pubK).Success? && BytesToIndexAndWeight(s.table[pubK]).Success?
    ensures var (index, proof) := ServeProof(s, pubK).value;
            CheckCensusProof(Root(s.tree), proof, index, pubK, None) == Success(true)
            <==> BytesToIndexAndWeight(s.table[pubK]).value.1 == 1
  {
    ServedProofsAccepted(s, pubK);
    assert Entry(s, pubK);
    var (index, proof) := ServeProof(s, pubK).value;
    var weight := BytesToIndexAndWeight(s.table[pubK]).value.1;
    AcceptedProofIff(s, proof, index, pubK, None);
    AcceptedProofIff(s, proof, index, pubK, Some(weight));
  }

  /** An accepted proof belongs to a registered key. */
  lemma AcceptedKeyRegistered(s: CensusState, proof: PackedProof, index: uint64, pubK: PubKey, weight: Option<int>)
    requires Valid(s) && CheckCensusProof(Root(s.tree), proof, index, pubK, weight) == Success(true)
    ensures pubK in s.table
  {
    AcceptedProofIff(s, proof, index, pubK, weight);
    var leaf := Contents(s.tree)[IndexKey(index)];
    assert PubKey(leaf.x, leaf.y) == pubK;
  }

  /**
   The index of an accepted proof lies below the size of the census exactly when it is within the codec's
   range; beyond 2^63 the verifier also accepts the mirror image of every index in use.
   */
  lemma AcceptedIndexIff(s: CensusState, proof: PackedProof, index: uint64, pubK: PubKey, weight: Option<int>)
    requires Valid(s) && CheckCensusProof(Root(s.tree), proof, index, pubK, weight) == Success(true)
    ensures index < s.nextIndex <==> index <= TWO_63
  {
    AcceptedProofIff(s, proof, index, pubK, weight);
  }

  lemma MirrorAccepted(s: CensusState, proof: PackedProof, index: uint64, pubK: PubKey, weight: Option<int>)
    requires 0 < index < TWO_63
    ensures CheckCensusProof(Root(s.tree), proof, TWO_64 - index, pubK, weight) == CheckCensusProof(Root(s.tree), proof, index, pubK, weight)
  {
    assert IndexKey(TWO_64 - index) == IndexKey(index);
  }

  // ---------------------------------------------------------------- runs

  datatype Op = Add(pubKs: seq<PubKey>, weights: seq<int>) | Close | SetErrMsg(status: string)

  /** Batches come from Go slices, whose length is a signed 64-bit number. */
  predicate GoSlices(ops: seq<Op>)
  {
    forall op | op in ops && op.Add? :: |op.pubKs| < TWO_63
  }

  function Step(s: CensusState, op: Op): CensusState
  {
    match op
    case Add(pubKs, weights) => (match AddKeys(s, pubKs, weights) case Failure(_) => s case Success(s') => s')
    case Close => s.(closed := true)
    case SetErrMsg(status) => s.(errMsg := status)
  }

  function Run(s: CensusState, ops: seq<Op>): CensusState
    decreases |ops|
  {
    if ops == [] then s else Step(Run(s, ops[..|ops| - 1]), ops[|ops| - 1])
  }

  lemma EmptyValid()
    ensures Valid(EMPTY)
  {}

  lemma {:induction false} RunValid(s: CensusState, ops: seq<Op>)
    requires Valid(s) && GoSlices(ops)
    ensures Valid(Run(s, ops))
    decreases |ops|
  {
    if ops != [] {
      var front, op := ops[..|ops| - 1], ops[|ops| - 1];
      assert op in ops && forall o | o in front :: o in ops;
      RunValid(s, front);
      StepValid(Run(s, front), op);
    }
  }

  lemma StepValid(s: CensusState, op: Op)
    requires Valid(s) && (op.Add? ==> |op.pubKs| < TWO_63)
    ensures Valid(Step(s, op))
  {
    if op.Add? {
      AddKeysSpec(s, op.pubKs, op.weights);
    } else {
      var s' := Step(s, op);
      forall pubK | pubK in s'.table ensures Entry(s', pubK) {
        assert Entry(s, pubK);
      }
    }
  }

  /** What the batches accepted in a run assign to each key: its last index, and its weight there. */
  ghost function Assigned(s: CensusState, ops: seq<Op>): map<PubKey, (int, int)>
    decreases |ops|
  {
    if ops == [] then map[]
    else
      var front, op := ops[..|ops| - 1], ops[|ops| - 1];
      Assigned(s, front) + StepAssigns(Run(s, front), op)
  }

  ghost function StepAssigns(s: CensusState, op: Op): map<PubKey, (int, int)>
  {
    if op.Add? && Accepts(s, op.pubKs, op.weights) then
      map k | k in op.pubKs :: var i := LastPos(op.pubKs, |op.pubKs|, k); (s.nextIndex + i, op.weights[i])
    else map[]
  }

  /** The table says what the accepted batches assigned, decoded. */
  ghost predicate TableSays(table: map<PubKey, seq<byte>>, given: map<PubKey, (int, int)>)
  {
    forall pubK :: EntrySays(table, given, pubK)
  }

  ghost predicate EntrySays(table: map<PubKey, seq<byte>>, given: map<PubKey, (int, int)>, pubK: PubKey)
  {
    && (pubK in table <==> pubK in given)
    && (pubK in given ==>
          var d := BytesToIndexAndWeight(table[pubK]);
          d.Success? && d.value.0 == given[pubK].0 && d.value.1 == given[pubK].1)
  }

  /** What the table of a census says, decoded. */
  ghost function Recorded(s: CensusState): map<PubKey, (int, int)>
  {
    map k | k in s.table && BytesToIndexAndWeight(s.table[k]).Success? ::
      (BytesToIndexAndWeight(s.table[k]).value.0 as int, BytesToIndexAndWeight(s.table[k]).value.1 as int)
  }

  /** Over every run from any census, an entry is what the run last assigned to the key, or what was on record. */
  lemma {:induction false} TableIsAssigned(s: CensusState, ops: seq<Op>)
    requires Valid(s) && GoSlices(ops)
    ensures TableSays(Run(s, ops).table, Recorded(s) + Assigned(s, ops))
    decreases |ops|
  {
    if ops == [] {
      RecordedIsSaid(s);
      assert Recorded(s) + map[] == Recorded(s);
    } else {
      var front, op := ops[..|ops| - 1], ops[|ops| - 1];
      assert op in ops && forall o | o in front :: o in ops;
      TableIsAssigned(s, front);
      RunValid(s, front);
      StepTable(Run(s, front), op, Recorded(s) + Assigned(s, front));
      Overwrites(Recorded(s), Assigned(s, front), StepAssigns(Run(s, front), op));
    }
  }

  lemma Overwrites(a: map<PubKey, (int, int)>, b: map<PubKey, (int, int)>, c: map<PubKey, (int, int)>)
    ensures a + b + c == a + (b + c)
  {}

  lemma RecordedIsSaid(s: CensusState)
    requires Valid(s)
    ensures TableSays(s.table, Recorded(s))
  {
    forall pubK ensures EntrySays(s.table, Recorded(s), pubK) {
      if pubK in s.table { assert Entry(s, pubK); }
    }
  }

  lemma StepTable(s: CensusState, op: Op, given: map<PubKey, (int, int)>)
    requires Valid(s) && (op.Add? ==> |op.pubKs| < TWO_63) && TableSays(s.table, given)
    ensures TableSays(Step(s, op).table, given + StepAssigns(s, op))
  {
    if op.Add? { AddKeysSpec(s, op.pubKs, op.weights); }
    if op.Add? && Accepts(s, op.pubKs, op.weights) {
      forall pubK ensures EntrySays(Step(s, op).table, given + StepAssigns(s, op), pubK) {
        assert EntrySays(s.table, given, pubK);
        assert EntryUpdated(s, Step(s, op), op.pubKs, op.weights, pubK);
        AddedEntrySays(s, Step(s, op), op, given, pubK);
      }
    } else {
      assert given + StepAssigns(s, op) == given;
    }
  }

  lemma AddedEntrySays(s: CensusState, s': CensusState, op: Op, given: map<PubKey, (int, int)>, pubK: PubKey)
    requires op.Add? && Accepts(s, op.pubKs, op.weights)
    requires EntryUpdated(s, s', op.pubKs, op.weights, pubK) && EntrySays(s.table, given, pubK)
    ensures EntrySays(s'.table, given + StepAssigns(s, op), pubK)
  {
    assert pubK in StepAssigns(s, op) <==> LastPos(op.pubKs, |op.pubKs|, pubK) >= 0;
  }

  /**
   End to end over every run that ends closed: proofs are served to exactly the keys on record at the start and
   those of the accepted batches, each for the index its last batch gave it, and each is accepted with the
   weight given there.
   */
  lemma ServedOverRuns(s: CensusState, ops: seq<Op>, pubK: PubKey)
    requires Valid(s) && GoSlices(ops) && Run(s, ops).closed
    ensures var s', given := Run(s, ops), Recorded(s) + Assigned(s, ops);
            && (ServeProof(s', pubK).Success? <==> pubK in given)
            && (pubK in given ==>
                  var (index, proof) := ServeProof(s', pubK).value;
                  index == given[pubK].0 && CheckCensusProof(Root(s'.tree), proof, index, pubK, Some(given[pubK].1)) == Success(true))
  {
    RunValid(s, ops);
    TableIsAssigned(s, ops);
    assert EntrySays(Run(s, ops).table, Recorded(s) + Assigned(s, ops), pubK);
    ServedProofsAccepted(Run(s, ops), pubK);
  }

  /** From an empty census these are the keys of the accepted batches. */
  lemma NothingRecorded()
    ensures Valid(EMPTY) && Recorded(EMPTY) == map[]
  {}

  // ---------------------------------------------------------------- closing

  /** A loaded census is closed exactly when it was closed before or the run closes it. */
  lemma {:induction false} ClosedIff(s: CensusState, ops: seq<Op>)
    ensures Run(s, ops).closed <==> s.closed || Close in ops
    decreases |ops|
  {
    if ops != [] {
      var front, op := ops[..|ops| - 1], ops[|ops| - 1];
      ClosedIff(s, front);
      assert Close in ops <==> Close in front || op == Close by { assert ops == front + [op]; }
      StepCloses(Run(s, front), op);
    }
  }

  lemma StepCloses(s: CensusState, op: Op)
    ensures Step(s, op).closed <==> s.closed || op == Close
  {}

  lemma {:induction false} RunAppend(s: CensusState, a: seq<Op>, b: seq<Op>)
    ensures Run(s, a + b) == Run(Run(s, a), b)
    decreases |b|
  {
    if b == [] {
      assert a + b == a;
    } else {
      assert (a + b)[..|a + b| - 1] == a + b[..|b| - 1];
      RunAppend(s, a, b[..|b| - 1]);
    }
  }

  /** Before the first close nothing is served; from then on every answer but the error message is fixed. */
  lemma {:induction false} CloseIsFinal(s: CensusState, before: seq<Op>, after: seq<Op>, pubK: PubKey, pubKs: seq<PubKey>, weights: seq<int>)
    requires !s.closed && Close !in before
    ensures CensusRoot(Run(s, before)) == Failure(CensusNotClosed) && ServeProof(Run(s, before), pubK) == Failure(CensusNotClosed)
    ensures var atClose, later := Run(s, before + [Close]), Run(s, before + [Close] + after);
            && CensusRoot(atClose).Success? && CensusRoot(later) == CensusRoot(atClose)
            && ServeProof(later, pubK) == ServeProof(atClose, pubK)
            && later.nextIndex == atClose.nextIndex
            && AddKeys(later, pubKs, weights) == Failure(CensusClosed)
  {
    ClosedIff(s, before);
    ClosedIff(s, before + [Close]);
    RunAppend(s, before + [Close], after);
    ClosedStays(Run(s, before + [Close]), after);
  }

  lemma {:induction false} ClosedStays(s: CensusState, ops: seq<Op>)
    requires s.closed
    ensures Run(s, ops) == s.(errMsg := Run(s, ops).errMsg)
    decreases |ops|
  {
    if ops != [] { ClosedStays(s, ops[..|ops| - 1]); }
  }

  /** Not across a restart: loading a closed census reopens it, and its root can then change. */
  lemma ReloadReopens(s: CensusState, pubK: PubKey)
    requires Valid(s) && s.closed && InField(pubK.x) && InField(pubK.y) && s.nextIndex < MAX_SIZE
    ensures var grown := Step(Step(s.(closed := false), Add([pubK], [0])), Close);
            CensusRoot(grown).Success? && CensusRoot(grown) != CensusRoot(s)
  {
    var reloaded := s.(closed := false);
    ReopenedValid(s);
    AddKeysSpec(reloaded, [pubK], [0]);
    var grown := AddKeys(reloaded, [pubK], [0]).value;
    assert s.nextIndex in Contents(grown.tree) && s.nextIndex !in Contents(s.tree);
    if Root(grown.tree) == Root(s.tree) { RootInjective(grown.tree, s.tree); }
  }

  /** The operation is a batch with keys in it, and the census takes it. */
  ghost predicate Grows(s: CensusState, op: Op)
  {
    op.Add? && op.pubKs != [] && Accepts(s, op.pubKs, op.weights)
  }

  ghost predicate NeverGrows(s: CensusState, ops: seq<Op>)
  {
    forall i | 0 <= i < |ops| :: !GrowsAt(s, ops, i)
  }

  /** Operation `i` of the run grows the census it finds. */
  ghost predicate GrowsAt(s: CensusState, ops: seq<Op>, i: nat)
    requires i < |ops|
  {
    Grows(Run(s, ops[..i]), ops[i])
  }

  /** A run keeps the root of a census exactly when no batch with keys in it is accepted. */
  lemma RootKeptIff(s: CensusState, ops: seq<Op>)
    requires Valid(s) && GoSlices(ops)
    ensures Root(Run(s, ops).tree) == Root(s.tree) <==> NeverGrows(s, ops)
  {
    RunGrows(s, ops);
    RunValid(s, ops);
    RootsAgreeIff(s, Run(s, ops));
    if !NeverGrows(s, ops) {
      assert s.nextIndex in Contents(Run(s, ops).tree) && s.nextIndex !in Contents(s.tree);
    }
  }

  lemma {:induction false} RunGrows(s: CensusState, ops: seq<Op>)
    requires Valid(s) && GoSlices(ops)
    ensures if NeverGrows(s, ops) then Run(s, ops).tree == s.tree else Run(s, ops).nextIndex > s.nextIndex
    ensures Run(s, ops).nextIndex >= s.nextIndex
    decreases |ops|
  {
    if ops != [] {
      var front, op := ops[..|ops| - 1], ops[|ops| - 1];
      assert op in ops && forall o | o in front :: o in ops;
      RunGrows(s, front);
      RunValid(s, front);
      StepGrows(Run(s, front), op);
      NeverGrowsSplits(s, ops);
    }
  }

  lemma NeverGrowsSplits(s: CensusState, ops: seq<Op>)
    requires ops != []
    ensures NeverGrows(s, ops) <==> NeverGrows(s, ops[..|ops| - 1]) && !Grows(Run(s, ops[..|ops| - 1]), ops[|ops| - 1])
  {
    var front := ops[..|ops| - 1];
    forall i | 0 <= i < |front| ensures GrowsAt(s, front, i) == GrowsAt(s, ops, i) {
      assert front[..i] == ops[..i];
    }
    assert GrowsAt(s, ops, |front|) == Grows(Run(s, front), ops[|front|]);
  }

  lemma StepGrows(s: CensusState, op: Op)
    requires Valid(s) && (op.Add? ==> |op.pubKs| < TWO_63)
    ensures if Grows(s, op) then Step(s, op).nextIndex > s.nextIndex else Step(s, op).tree == s.tree && Step(s, op).nextIndex == s.nextIndex
  {
    if op.Add? { AddKeysSpec(s, op.pubKs, op.weights); }
  }

  /**
   What a restart leaves of finality, exactly: after any run of the reloaded census the published root is the
   one published before exactly when the run closes it again and accepts no key on the way.
   */
  lemma PublishedRootSurvivesIff(s: CensusState, ops: seq<Op>)
    requires Valid(s) && s.closed && GoSlices(ops)
    ensures var reloaded := s.(closed := false);
            CensusRoot(Run(reloaded, ops)) == CensusRoot(s) <==> Close in ops && NeverGrows(reloaded, ops)
  {
    var reloaded := s.(closed := false);
    ReopenedValid(s);
    ClosedIff(reloaded, ops);
    RootKeptIff(reloaded, ops);
  }

  lemma ReopenedValid(s: CensusState)
    requires Valid(s)
    ensures Valid(s.(closed := false))
  {
    forall pubK | pubK in s.table ensures Entry(s.(closed := false), pubK) {
      assert Entry(s, pubK);
    }
  }

  /** Two censuses publish the same root exactly when they hold the same leaves. */
  lemma RootsAgreeIff(s: CensusState, s': CensusState)
    requires Valid(s) && Valid(s')
    ensures Root(s.tree) == Root(s'.tree) <==> Contents(s.tree) == Contents(s'.tree)
  {
    if Root(s.tree) == Root(s'.tree) { RootInjective(s.tree, s'.tree); }
    if Contents(s.tree) == Contents(s'.tree) { Canonical(s.tree, s'.tree, []); }
  }

  // ---------------------------------------------------------------- batching

  /** Adding two batches at once is adding them in turn, provided both go in; and one batch is refused only if a part is. */
  lemma BatchingDoesNotMatter(s: CensusState, ks: seq<PubKey>, ws: seq<int>, ks': seq<PubKey>, ws': seq<int>)
    requires Valid(s) && |ks| == |ws| && |ks| + |ks'| < TWO_63
    ensures var one, first := AddKeys(s, ks + ks', ws + ws'), AddKeys(s, ks, ws);
            && (one.Success? <==> first.Success? && AddKeys(first.value, ks', ws').Success?)
            && (one.Success? ==> one == AddKeys(first.value, ks', ws'))
  {
    AddKeysSpec(s, ks + ks', ws + ws');
    AddKeysSpec(s, ks, ws);
    var first := AddKeys(s, ks, ws);
    HashableAppend(ks, ws, ks', ws');
    if first.Success? {
      AddKeysSpec(first.value, ks', ws');
      if AddKeys(first.value, ks', ws').Success? {
        BatchesCompose(s, ks, ws, ks', ws');
      }
    }
  }

  lemma HashableAppend(ks: seq<PubKey>, ws: seq<int>, ks': seq<PubKey>, ws': seq<int>)
    requires |ks| == |ws|
    ensures Hashable(ks + ks', ws + ws', |ks + ks'|) <==> Hashable(ks, ws, |ks|) && Hashable(ks', ws', |ks'|)
  {
    var kk, ww := ks + ks', ws + ws';
    if Hashable(kk, ww, |kk|) {
      assert forall i | 0 <= i < |ks| :: ks[i] == kk[i] && ws[i] == ww[i];
      assert forall i | 0 <= i < |ks'| :: ks'[i] == kk[|ks| + i] && ws'[i] == ww[|ks| + i];
    }
  }

  lemma BatchesCompose(s: CensusState, ks: seq<PubKey>, ws: seq<int>, ks': seq<PubKey>, ws': seq<int>)
    requires |ks| == |ws| && s.nextIndex + |ks| + |ks'| <= MAX_SIZE
    requires AddKeys(s, ks, ws).Success? && AddKeys(s, ks + ks', ws + ws').Success?
    requires AddKeys(AddKeys(s, ks, ws).value, ks', ws').Success?
    ensures AddKeys(s, ks + ks', ws + ws') == AddKeys(AddKeys(s, ks, ws).value, ks', ws')
  {
    var s1, one := AddKeys(s, ks, ws).value, AddKeys(s, ks + ks', ws + ws').value;
    Commits(s, ks, ws);
    Commits(s, ks + ks', ws + ws');
    Commits(s1, ks', ws');
    var b, b' := Gather(s.table, s.nextIndex, ks, ws, |ks|).value, Gather(s1.table, s1.nextIndex, ks', ws', |ks'|).value;
    assert Gather(s.table, s.nextIndex, ks + ks', ws + ws', |ks + ks'|).value == Batch(b'.table, b.keys + b'.keys, b.hashes + b'.hashes) by {
      GatherAppend(s.table, s.nextIndex, ks, ws, ks', ws', b, s1.nextIndex, |ks'|, |ks + ks'|);
    }
    AddBatchAppend(s.tree, b.keys, b.hashes, b'.keys, b'.hashes, MAX_LEVELS);
    var two := AddKeys(s1, ks', ws').value;
    assert one.nextIndex == two.nextIndex && one.table == two.table;
    assert one.tree == two.tree;
    assert one.closed == two.closed && one.errMsg == two.errMsg;
  }

  /** A batch that succeeds commits what its loop gathered. */
  lemma Commits(s: CensusState, ks: seq<PubKey>, ws: seq<int>)
    requires AddKeys(s, ks, ws).Success? && s.nextIndex + |ks| <= MAX_SIZE
    ensures var g := Gather(s.table, s.nextIndex, ks, ws, |ks|);
            && g.Success?
            && AddKeys(s, ks, ws).value
               == s.(nextIndex := s.nextIndex + |ks|, table := g.value.table, tree := AddBatch(s.tree, g.value.keys, g.value.hashes, MAX_LEVELS).0)
  {}

  lemma {:induction false} GatherPrefix(table: map<PubKey, seq<byte>>, next: uint64, ks: seq<PubKey>, ws: seq<int>, ks': seq<PubKey>, ws': seq<int>, n: nat)
    requires |ks| == |ws| && n <= |ks|
    ensures Gather(table, next, ks + ks', ws + ws', n) == Gather(table, next, ks, ws, n)
  {
    if n > 0 { GatherPrefix(table, next, ks, ws, ks', ws', n - 1); }
  }

  /** The loop over ks + ks' goes on where the loop over ks stopped. */
  lemma {:induction false} GatherAppend(table: map<PubKey, seq<byte>>, next: uint64, ks: seq<PubKey>, ws: seq<int>,
                                        ks': seq<PubKey>, ws': seq<int>, b: Batch, next': uint64, n: nat, m: nat)
    requires |ks| == |ws| && n <= |ks'| && m == |ks| + n && next' == next + |ks| && next' + |ks'| <= MAX_SIZE
    requires Gather(table, next, ks, ws, |ks|) == Success(b)
    ensures Joined(b, Gather(table, next, ks + ks', ws + ws', m), Gather(b.table, next', ks', ws', n))
    decreases n
  {
    if n == 0 {
      GatherPrefix(table, next, ks, ws, ks', ws', |ks|);
    } else {
      GatherAppend(table, next, ks, ws, ks', ws', b, next', n - 1, m - 1);
      GatherAppendStep(table, next, ks + ks', ws + ws', ks', ws', b, next', n, m);
    }
  }

  /** One more round of both loops. */
  lemma GatherAppendStep(table: map<PubKey, seq<byte>>, next: uint64, all: seq<PubKey>, weights: seq<int>,
                         ks': seq<PubKey>, ws': seq<int>, b: Batch, next': uint64, n: nat, m: nat)
    requires 0 < n <= |ks'| && n <= m <= |all| && next' == next + (m - n) && next' + |ks'| <= MAX_SIZE
    requires all[m - 1] == ks'[n - 1] && (m <= |weights| <==> n <= |ws'|) && (n <= |ws'| ==> weights[m - 1] == ws'[n - 1])
    requires Joined(b, Gather(table, next, all, weights, m - 1), Gather(b.table, next', ks', ws', n - 1))
    ensures Joined(b, Gather(table, next, all, weights, m), Gather(b.table, next', ks', ws', n))
  {
    var r' := Gather(b.table, next', ks', ws', n - 1);
    if r'.Success? && n <= |ws'| {
      GatherOneAppend(b, r'.value, next' + (n - 1), ks'[n - 1], ws'[n - 1]);
    }
  }

  /** `r` is `r'` with the batch `b` gathered before it. */
  ghost predicate Joined(b: Batch, r: Result<Batch, Error>, r': Result<Batch, Error>)
  {
    && (r.Success? <==> r'.Success?)
    && (r.Success? ==> r.value == Batch(r'.value.table, b.keys + r'.value.keys, b.hashes + r'.value.hashes))
  }

  lemma GatherOneAppend(b: Batch, b': Batch, index: uint64, pubK: PubKey, weight: int)
    ensures Joined(b, GatherOne(Batch(b'.table, b.keys + b'.keys, b.hashes + b'.hashes), index, pubK, weight), GatherOne(b', index, pubK, weight))
  {}
}

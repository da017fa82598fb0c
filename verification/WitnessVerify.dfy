/** What the assembled witness says about the election: every row verifies, and the tally counts the votes. */
module WitnessVerify {
  import opened Bytes
  import opened Results
  import opened Trie
  import opened Types
  import opened Census
  import opened CensusLaws
  import opened CensusRuns
  import opened Database
  import opened VoteTable
  import opened Witness
  import opened Votes
  import opened WitnessLaws

  // ---------------------------------------------------------------- reading a witness as the circuit does

  /** Siblings without the zeros that fill them up. */
  function Unpad(s: seq<Digest>): seq<Digest>
  {
    if s != [] && s[|s| - 1] == Zero then Unpad(s[..|s| - 1]) else s
  }

  lemma {:induction false} UnpadPadded(p: seq<Digest>, k: nat)
    requires p != [] ==> p[|p| - 1] != Zero
    ensures Unpad(p + Zeros(k)) == p
  {
    if k == 0 {
      assert p + Zeros(0) == p;
    } else {
      assert (p + Zeros(k))[..|p| + k - 1] == p + Zeros(k - 1);
      UnpadPadded(p, k - 1);
    }
  }

  function LeafOfRow(row: Row): KeyHash
  {
    KeyHash(row.pkX, row.pkY, row.weight)
  }

  /** Voter `i` proves a leaf of the census with the inputs of the witness alone. */
  ghost predicate CensusVerifies(w: Witness, i: nat)
    requires i < |w.rows|
  {
    var row := w.rows[i];
    row.index >= 0 && CheckProof(row.index, LeafOfRow(row), w.censusRoot, Unpad(row.siblings))
  }

  /** So does the receipt of voter `i`. */
  ghost predicate ReceiptVerifies(w: Witness, i: nat)
    requires i < |w.rows| && i < |w.receiptsSiblings|
  {
    var row := w.rows[i];
    row.index >= 0 && CheckProof(row.index, LeafOfRow(row), w.receiptsRoot, Unpad(w.receiptsSiblings[i]))
  }

  /** The signature of voter `i` is good for the chain, the process and the vote in the witness. */
  ghost predicate SignatureVerifies(crypto: Crypto, w: Witness, i: nat)
    requires i < |w.rows|
  {
    var row := w.rows[i];
    && w.chainID >= 0 && w.processID >= 0
    && crypto.verify(PubKey(row.pkX, row.pkY), Message(w.chainID, w.processID, row.vote), Signature(row.s, row.r8x, row.r8y))
  }

  /** Row `i` of a witness built from parts, spelled out. */
  lemma RowOfWitness(cfg: Config, rows: seq<VoteRow>, parts: seq<Part>, w: Witness, root: Digest, nMaxVotes: nat, nLevels: nat, i: nat)
    requires WitnessParts(cfg, rows, parts, w, root, nMaxVotes, nLevels) && i < |rows|
    ensures |w.rows| == |w.receiptsSiblings| == nMaxVotes && |rows| <= nMaxVotes
    ensures w.rows[i] == parts[i].row && PartIs(cfg, rows[i], parts[i], nLevels)
    ensures KeysOf(parts)[i] == rows[i].indx && ValuesOf(parts)[i] == LeafOf(rows[i].publicKey, BigEndian(rows[i].weight))
    ensures w.receiptsSiblings[i] == Receipts(KeysOf(parts), ValuesOf(parts), nLevels).value.1[i]
  {
    assert PartIs(cfg, rows[i], parts[i], nLevels);
  }

  /** The receipts tree of a witness: one leaf for each voter. */
  ghost function ReceiptsTree(parts: seq<Part>, nLevels: nat): Tree
  {
    AddBatch(Tree.Empty, KeysOf(parts), ValuesOf(parts), nLevels).0
  }

  /** The leaves of the receipts tree are the votes read, with their stored weights. */
  ghost predicate LeavesAreVotes(tree: Tree, rows: seq<VoteRow>)
  {
    && (forall k :: k in Contents(tree) <==> exists i :: 0 <= i < |rows| && rows[i].indx == k)
    && (forall i | 0 <= i < |rows| :: rows[i].indx in Contents(tree)
          && Contents(tree)[rows[i].indx] == LeafOf(rows[i].publicKey, BigEndian(rows[i].weight)))
  }

  lemma ReceiptsHoldVotes(cfg: Config, rows: seq<VoteRow>, parts: seq<Part>, w: Witness, root: Digest, nMaxVotes: nat, nLevels: nat)
    requires WitnessParts(cfg, rows, parts, w, root, nMaxVotes, nLevels)
    ensures var tree := ReceiptsTree(parts, nLevels);
            && WellFormed(tree, []) && Root(tree) == w.receiptsRoot && LeavesAreVotes(tree, rows)
            && forall i | 0 <= i < |rows| :: i < |w.receiptsSiblings| && ReceiptProof(tree, rows[i].indx, w.receiptsSiblings[i], nLevels)
  {
    var keys, values := KeysOf(parts), ValuesOf(parts);
    ReceiptsTotal(keys, values, nLevels);
    forall i | 0 <= i < |rows|
      ensures keys[i] == rows[i].indx && values[i] == LeafOf(rows[i].publicKey, BigEndian(rows[i].weight))
      ensures i < |w.receiptsSiblings| && ReceiptProof(ReceiptsTree(parts, nLevels), rows[i].indx, w.receiptsSiblings[i], nLevels)
    {
      RowOfWitness(cfg, rows, parts, w, root, nMaxVotes, nLevels, i);
    }
    EntriesAreVotes(rows, keys, values);
  }

  lemma EntriesAreVotes(rows: seq<VoteRow>, keys: seq<nat>, values: seq<KeyHash>)
    requires |keys| == |values| == |rows|
    requires forall i, j | 0 <= i < j < |keys| :: keys[i] < keys[j]
    requires forall i | 0 <= i < |rows| :: keys[i] == rows[i].indx && values[i] == LeafOf(rows[i].publicKey, BigEndian(rows[i].weight))
    ensures forall k :: k in Entries(keys, values) <==> exists i :: 0 <= i < |rows| && rows[i].indx == k
    ensures forall i | 0 <= i < |rows| :: rows[i].indx in Entries(keys, values)
              && Entries(keys, values)[rows[i].indx] == LeafOf(rows[i].publicKey, BigEndian(rows[i].weight))
  {
    EntriesAre(keys, values);
    forall k ensures k in keys <==> exists i :: 0 <= i < |rows| && rows[i].indx == k {
      if k in keys {
        var i :| 0 <= i < |keys| && keys[i] == k;
        assert rows[i].indx == k;
      }
      if i :| 0 <= i < |rows| && rows[i].indx == k {
        assert keys[i] == k;
      }
    }
    forall i | 0 <= i < |rows|
      ensures rows[i].indx in Entries(keys, values)
      ensures Entries(keys, values)[rows[i].indx] == LeafOf(rows[i].publicKey, BigEndian(rows[i].weight))
    {
      assert keys[i] in keys && Entries(keys, values)[keys[i]] == values[i];
    }
  }

  lemma ReceiptChecks(tree: Tree, key: nat, padded: seq<Digest>, nLevels: nat)
    requires WellFormed(tree, []) && key in Contents(tree) && ReceiptProof(tree, key, padded, nLevels)
    ensures CheckProof(key, Contents(tree)[key], Root(tree), Unpad(padded))
  {
    ProofComplete(tree, key, []);
    ProofShape(tree, key, []);
    UnpadPadded(Siblings(tree, key, 0).value, nLevels + 1 - |Siblings(tree, key, 0).value|);
  }

  lemma ReceiptRowVerifies(cfg: Config, rows: seq<VoteRow>, parts: seq<Part>, w: Witness, root: Digest, nMaxVotes: nat, nLevels: nat, i: nat)
    requires WitnessParts(cfg, rows, parts, w, root, nMaxVotes, nLevels) && i < |rows|
    ensures i < |w.rows| && i < |w.receiptsSiblings| && ReceiptVerifies(w, i)
  {
    RowOfWitness(cfg, rows, parts, w, root, nMaxVotes, nLevels, i);
    ReceiptsHoldVotes(cfg, rows, parts, w, root, nMaxVotes, nLevels);
    ReceiptChecks(ReceiptsTree(parts, nLevels), rows[i].indx, w.receiptsSiblings[i], nLevels);
  }

  lemma CensusRowVerifiesIff(cfg: Config, row: VoteRow, part: Part, w: Witness, tree: Tree, nLevels: nat, i: nat)
    requires PartIs(cfg, row, part, nLevels) && i < |w.rows| && w.rows[i] == part.row && w.censusRoot == Root(tree)
    requires WellFormed(tree, []) && Siblings(tree, row.indx, 0) == Some(row.merkleProof.siblings)
    ensures row.indx in Contents(tree)
    ensures CensusVerifies(w, i) <==> Contents(tree)[row.indx] == LeafOf(row.publicKey, BigEndian(row.weight))
  {
    PaddedProofIff(tree, row.indx, LeafOfRow(w.rows[i]), row.merkleProof.siblings, nLevels);
  }

  /** A proof of a leaf, padded and unpadded again, is accepted for exactly the value of that leaf. */
  lemma PaddedProofIff(tree: Tree, key: nat, value: KeyHash, siblings: seq<Digest>, nLevels: nat)
    requires WellFormed(tree, []) && Siblings(tree, key, 0) == Some(siblings) && |siblings| <= nLevels
    ensures key in Contents(tree)
    ensures CheckProof(key, value, Root(tree), Unpad(siblings + Zeros(nLevels + 1 - |siblings|))) <==> Contents(tree)[key] == value
  {
    ProofComplete(tree, key, []);
    ProofShape(tree, key, []);
    UnpadPadded(siblings, nLevels + 1 - |siblings|);
    ProofIff(tree, key, value, siblings);
  }

  /** The leaf of a stored row carries its stored weight exactly when the voter named it. */
  lemma LeafKeepsWeightIff(cfg: Config, t: ProcessTable, row: VoteRow, vp: VotePackage, s: CensusState)
    requires row.processID in t && Storable(row.indx) && CameFrom(cfg, t, row, vp) && Over(cfg, t[row.processID], s)
    ensures row.indx in Contents(s.tree)
    ensures Contents(s.tree)[row.indx] == LeafOf(row.publicKey, BigEndian(row.weight)) <==> vp.censusProof.weight.Some?
  {
    var cp := vp.censusProof;
    VerifiedWeight(cfg, vp, row.processID, Root(s.tree));
    AcceptedProofIff(s, cp.merkleProof, cp.index, cp.publicKey, cp.weight);
    if cp.weight.Some? { MinimalBERoundTrip(cp.weight.value); }
  }

  lemma SignatureRowVerifies(cfg: Config, t: ProcessTable, processID: uint64, rows: seq<VoteRow>, parts: seq<Part>, w: Witness,
                             nMaxVotes: nat, nLevels: nat, i: nat)
    requires processID in t && WitnessParts(cfg, rows, parts, w, RootOf(cfg, t[processID]), nMaxVotes, nLevels) && i < |rows|
    requires w.chainID == ToInt64(cfg.chainID) && w.processID == ToInt64(processID)
    requires rows[i].processID == processID && RowValid(cfg, t, rows[i])
    ensures i < |w.rows| && SignatureVerifies(cfg.crypto, w, i)
  {
    RowOfWitness(cfg, rows, parts, w, RootOf(cfg, t[processID]), nMaxVotes, nLevels, i);
    var vp :| CameFrom(cfg, t, rows[i], vp);
    VerifiedWeight(cfg, vp, processID, RootOf(cfg, t[processID]));
  }

  /** A process over a census whose votes assemble, whether or not the whole census would fit the circuit. */
  ghost predicate Ready(cfg: Config, t: ProcessTable, votes: seq<VoteRow>, processID: uint64, s: CensusState, nMaxVotes: nat, nLevels: nat)
  {
    && VotesValid(cfg, t, votes) && Storable(processID) && processID in t && Over(cfg, t[processID], s)
    && Assemble(cfg, t, votes, processID, nMaxVotes, nLevels).Success?
  }

  /**
   Every voter of an assembled witness verifies from the witness alone: the signature and the receipt always,
   the census proof exactly when the voter named a weight.
   */
  lemma WitnessVerifies(cfg: Config, t: ProcessTable, votes: seq<VoteRow>, processID: uint64, s: CensusState, nMaxVotes: nat, nLevels: nat, i: nat)
    requires Ready(cfg, t, votes, processID, s, nMaxVotes, nLevels) && i < |Select(votes, processID)|
    ensures var w, row := Assemble(cfg, t, votes, processID, nMaxVotes, nLevels).value, Select(votes, processID)[i];
            && i < |w.rows| && i < |w.receiptsSiblings| && row.processID in t
            && w.rows[i].index == row.indx && PubKey(w.rows[i].pkX, w.rows[i].pkY) == row.publicKey
            && SignatureVerifies(cfg.crypto, w, i) && ReceiptVerifies(w, i)
            && forall vp | CameFrom(cfg, t, row, vp) :: CensusVerifies(w, i) <==> vp.censusProof.weight.Some?
  {
    var parts := ReadyParts(cfg, t, votes, processID, s, nMaxVotes, nLevels);
    ReadyRow(cfg, t, votes, processID, s, i);
    VoterVerifies(cfg, t, processID, s, Select(votes, processID), parts, Assemble(cfg, t, votes, processID, nMaxVotes, nLevels).value,
                  nMaxVotes, nLevels, i);
  }

  /** The parts an assembled witness is made of. */
  lemma ReadyParts(cfg: Config, t: ProcessTable, votes: seq<VoteRow>, processID: uint64, s: CensusState, nMaxVotes: nat, nLevels: nat)
    returns (parts: seq<Part>)
    requires Ready(cfg, t, votes, processID, s, nMaxVotes, nLevels)
    ensures var w, rows := Assemble(cfg, t, votes, processID, nMaxVotes, nLevels).value, Select(votes, processID);
            && WitnessParts(cfg, rows, parts, w, RootOf(cfg, t[processID]), nMaxVotes, nLevels)
            && AllBinary(rows, |rows|)
            && w.chainID == ToInt64(cfg.chainID) && w.processID == ToInt64(processID)
  {
    var w, rows := Assemble(cfg, t, votes, processID, nMaxVotes, nLevels).value, Select(votes, processID);
    AssembleOverCensusIff(cfg, t, votes, processID, s, nMaxVotes, nLevels);
    parts :| WitnessParts(cfg, rows, parts, w, RootOf(cfg, t[processID]), nMaxVotes, nLevels);
    AssembledFor(cfg, t, votes, processID, nMaxVotes, nLevels);
  }

  lemma AssembledFor(cfg: Config, t: ProcessTable, votes: seq<VoteRow>, processID: uint64, nMaxVotes: nat, nLevels: nat)
    requires Assemble(cfg, t, votes, processID, nMaxVotes, nLevels).Success?
    ensures var w := Assemble(cfg, t, votes, processID, nMaxVotes, nLevels).value;
            w.chainID == ToInt64(cfg.chainID) && w.processID == ToInt64(processID)
  {}

  lemma ReadyRow(cfg: Config, t: ProcessTable, votes: seq<VoteRow>, processID: uint64, s: CensusState, i: nat)
    requires VotesValid(cfg, t, votes) && processID in t && Over(cfg, t[processID], s) && i < |Select(votes, processID)|
    ensures var row := Select(votes, processID)[i];
            row.processID == processID && RowValid(cfg, t, row) && RowOfCensus(cfg, row, s)
  {
    SelectedRows(cfg, t, votes, processID, s);
  }

  lemma VoterVerifies(cfg: Config, t: ProcessTable, processID: uint64, s: CensusState, rows: seq<VoteRow>, parts: seq<Part>, w: Witness,
                      nMaxVotes: nat, nLevels: nat, i: nat)
    requires processID in t && Over(cfg, t[processID], s) && i < |rows|
    requires WitnessParts(cfg, rows, parts, w, RootOf(cfg, t[processID]), nMaxVotes, nLevels)
    requires w.chainID == ToInt64(cfg.chainID) && w.processID == ToInt64(processID)
    requires rows[i].processID == processID && RowValid(cfg, t, rows[i]) && RowOfCensus(cfg, rows[i], s)
    ensures i < |w.rows| && i < |w.receiptsSiblings|
    ensures w.rows[i].index == rows[i].indx && PubKey(w.rows[i].pkX, w.rows[i].pkY) == rows[i].publicKey
    ensures SignatureVerifies(cfg.crypto, w, i) && ReceiptVerifies(w, i)
    ensures forall vp | CameFrom(cfg, t, rows[i], vp) :: CensusVerifies(w, i) <==> vp.censusProof.weight.Some?
  {
    var root := RootOf(cfg, t[processID]);
    RowOfWitness(cfg, rows, parts, w, root, nMaxVotes, nLevels, i);
    ReceiptRowVerifies(cfg, rows, parts, w, root, nMaxVotes, nLevels, i);
    CensusRowVerifiesIff(cfg, rows[i], parts[i], w, s.tree, nLevels, i);
    SignatureRowVerifies(cfg, t, processID, rows, parts, w, nMaxVotes, nLevels, i);
    forall vp | CameFrom(cfg, t, rows[i], vp) ensures CensusVerifies(w, i) <==> vp.censusProof.weight.Some? {
      LeafKeepsWeightIff(cfg, t, rows[i], vp, s);
    }
  }

  /**
   The receipts root commits to exactly the voters: a tree with one leaf for each vote read, which is a leaf
   of the census too for every voter who named a weight.
   */
  lemma ReceiptsAreCensusLeaves(cfg: Config, t: ProcessTable, votes: seq<VoteRow>, processID: uint64, s: CensusState, nMaxVotes: nat, nLevels: nat)
    requires Ready(cfg, t, votes, processID, s, nMaxVotes, nLevels)
    ensures var w, rows := Assemble(cfg, t, votes, processID, nMaxVotes, nLevels).value, Select(votes, processID);
            exists tree ::
              && Root(tree) == w.receiptsRoot && WellFormed(tree, []) && LeavesAreVotes(tree, rows)
              && forall i, vp | 0 <= i < |rows| && rows[i].processID in t && CameFrom(cfg, t, rows[i], vp) && vp.censusProof.weight.Some? ::
                   rows[i].indx in Contents(s.tree) && Contents(tree)[rows[i].indx] == Contents(s.tree)[rows[i].indx]
  {
    var w, rows := Assemble(cfg, t, votes, processID, nMaxVotes, nLevels).value, Select(votes, processID);
    SelectedRows(cfg, t, votes, processID, s);
    var root := RootOf(cfg, t[processID]);
    var parts := ReadyParts(cfg, t, votes, processID, s, nMaxVotes, nLevels);
    var tree := ReceiptsTree(parts, nLevels);
    ReceiptsHoldVotes(cfg, rows, parts, w, root, nMaxVotes, nLevels);
    forall i, vp | 0 <= i < |rows| && rows[i].processID in t && CameFrom(cfg, t, rows[i], vp) && vp.censusProof.weight.Some?
      ensures rows[i].indx in Contents(s.tree) && Contents(tree)[rows[i].indx] == Contents(s.tree)[rows[i].indx]
    {
      LeafKeepsWeightIff(cfg, t, rows[i], vp, s);
    }
  }

  // ---------------------------------------------------------------- the tally

  /** The stored weights of the votes with value 1 in a table, whatever their order. */
  function YesWeight(votes: seq<VoteRow>, processID: uint64): nat
  {
    if votes == [] then 0
    else
      var row := votes[|votes| - 1];
      YesWeight(votes[..|votes| - 1], processID)
      + if row.processID == processID && BytesToBigInt(row.vote) == 1 then BigEndian(row.weight) else 0
  }

  function TotalWeight(votes: seq<VoteRow>, processID: uint64): nat
  {
    if votes == [] then 0
    else
      var row := votes[|votes| - 1];
      TotalWeight(votes[..|votes| - 1], processID) + if row.processID == processID then BigEndian(row.weight) else 0
  }

  lemma {:induction false} YesAtMostTotal(votes: seq<VoteRow>, processID: uint64)
    ensures YesWeight(votes, processID) <= TotalWeight(votes, processID)
  {
    if votes != [] { YesAtMostTotal(votes[..|votes| - 1], processID); }
  }

  lemma {:induction false} PlaceYes(rows: seq<VoteRow>, row: VoteRow, processID: uint64)
    ensures YesWeight(Place(rows, row), processID) == YesWeight(rows + [row], processID)
  {
    assert (rows + [row])[..|rows|] == rows;
    if rows == [] {
      assert rows + [row] == [row];
    } else {
      var front, last := rows[..|rows| - 1], rows[|rows| - 1];
      if row.indx < last.indx {
        PlaceYes(front, row, processID);
        assert (Place(front, row) + [last])[..|Place(front, row)|] == Place(front, row);
        assert (front + [row])[..|front|] == front;
      }
    }
  }

  lemma {:induction false} SelectYes(votes: seq<VoteRow>, processID: uint64)
    ensures YesWeight(Select(votes, processID), processID) == YesWeight(votes, processID)
  {
    if votes != [] {
      var before, row := Select(votes[..|votes| - 1], processID), votes[|votes| - 1];
      SelectYes(votes[..|votes| - 1], processID);
      if row.processID == processID {
        PlaceYes(before, row, processID);
        assert (before + [row])[..|before|] == before;
      }
    }
  }

  lemma {:induction false} TotalIsYes(cfg: Config, rows: seq<VoteRow>, parts: seq<Part>, processID: uint64, nLevels: nat)
    requires |parts| == |rows| && PartsAre(cfg, rows, parts, nLevels) && AllBinary(rows, |rows|)
    requires forall i | 0 <= i < |rows| :: rows[i].processID == processID
    ensures TotalOf(parts) == YesWeight(rows, processID)
  {
    if rows != [] {
      var n := |rows| - 1;
      TotalIsYes(cfg, rows[..n], parts[..n], processID, nLevels);
      ShareIsYes(cfg, rows[n], parts[n], nLevels);
    }
  }

  lemma ShareIsYes(cfg: Config, row: VoteRow, part: Part, nLevels: nat)
    requires PartIs(cfg, row, part, nLevels) && BytesToBigInt(row.vote) <= 1
    ensures part.share == if BytesToBigInt(row.vote) == 1 then BigEndian(row.weight) else 0
  {}

  /**
   The result of a witness is the weight of the votes with value 1 in the table, at most the weight of all
   votes; the count is the number of rows of the process; and beyond the voters everything is zero.
   */
  lemma TallyCounts(cfg: Config, t: ProcessTable, votes: seq<VoteRow>, processID: uint64, s: CensusState, nMaxVotes: nat, nLevels: nat)
    requires Ready(cfg, t, votes, processID, s, nMaxVotes, nLevels)
    ensures var w, rows := Assemble(cfg, t, votes, processID, nMaxVotes, nLevels).value, Select(votes, processID);
            && w.result == YesWeight(votes, processID) <= TotalWeight(votes, processID)
            && w.nVotes == |rows| <= |w.rows| == |w.receiptsSiblings| == nMaxVotes && w.withReceipts == 1
            && forall i | |rows| <= i < nMaxVotes :: w.rows[i] == ZeroRow(nLevels) && w.receiptsSiblings[i] == Zeros(nLevels + 1)
  {
    var w, rows := Assemble(cfg, t, votes, processID, nMaxVotes, nLevels).value, Select(votes, processID);
    SelectedRows(cfg, t, votes, processID, s);
    var parts := ReadyParts(cfg, t, votes, processID, s, nMaxVotes, nLevels);
    TotalIsYes(cfg, rows, parts, processID, nLevels);
    SelectYes(votes, processID);
    YesAtMostTotal(votes, processID);
  }

  /** The weight of the first `n` leaves of a census. */
  ghost function LeafWeight(leaves: map<nat, KeyHash>, n: nat): nat
  {
    if n == 0 then 0 else LeafWeight(leaves, n - 1) + if n - 1 in leaves then leaves[n - 1].weight else 0
  }

  lemma {:induction false} LeafWeightGrows(leaves: map<nat, KeyHash>, m: nat, n: nat)
    requires m <= n
    ensures LeafWeight(leaves, m) <= LeafWeight(leaves, n)
  {
    if m < n { LeafWeightGrows(leaves, m, n - 1); }
  }

  /** A stored weight is never more than the weight in the census: it is that weight, or 0 in place of 1. */
  lemma StoredAtMostLeaf(cfg: Config, t: ProcessTable, row: VoteRow, s: CensusState)
    requires RowValid(cfg, t, row) && Over(cfg, t[row.processID], s)
    ensures row.indx in Contents(s.tree) && BigEndian(row.weight) <= Contents(s.tree)[row.indx].weight
  {
    var vp :| CameFrom(cfg, t, row, vp);
    LeafKeepsWeightIff(cfg, t, row, vp, s);
    if vp.censusProof.weight.None? { assert row.weight == MinimalBE(0) == []; }
  }

  /** Rows of different leaves weigh no more than the leaves up to the last one. */
  lemma {:induction false} YesWithinLeaves(rows: seq<VoteRow>, processID: uint64, leaves: map<nat, KeyHash>, n: nat)
    requires Increasing(rows)
    requires forall i | 0 <= i < |rows| :: rows[i].indx < n && rows[i].indx in leaves && BigEndian(rows[i].weight) <= leaves[rows[i].indx].weight
    ensures YesWeight(rows, processID) <= LeafWeight(leaves, n)
  {
    if rows != [] {
      var front, last := rows[..|rows| - 1], rows[|rows| - 1];
      YesWithinLeaves(front, processID, leaves, last.indx);
      LeafWeightGrows(leaves, last.indx + 1, n);
    }
  }

  /** The result never exceeds the weight of the whole census. */
  lemma ResultWithinCensus(cfg: Config, t: ProcessTable, votes: seq<VoteRow>, processID: uint64, s: CensusState, nMaxVotes: nat, nLevels: nat)
    requires Ready(cfg, t, votes, processID, s, nMaxVotes, nLevels)
    ensures Assemble(cfg, t, votes, processID, nMaxVotes, nLevels).value.result <= LeafWeight(Contents(s.tree), s.nextIndex)
  {
    var rows := Select(votes, processID);
    SelectedRows(cfg, t, votes, processID, s);
    forall i | 0 <= i < |rows|
      ensures rows[i].indx < s.nextIndex && rows[i].indx in Contents(s.tree) && BigEndian(rows[i].weight) <= Contents(s.tree)[rows[i].indx].weight
    {
      assert rows[i] in votes;
      StoredAtMostLeaf(cfg, t, rows[i], s);
    }
    YesWithinLeaves(rows, processID, Contents(s.tree), s.nextIndex);
    TallyCounts(cfg, t, votes, processID, s, nMaxVotes, nLevels);
    SelectYes(votes, processID);
  }

  /** Two tables with the same rows of a process give the same witness, or the same failure. */
  lemma OrderLeavesNoTrace(cfg: Config, t: ProcessTable, votes: seq<VoteRow>, votes': seq<VoteRow>, processID: uint64, nMaxVotes: nat, nLevels: nat)
    requires UniqueRows(votes) && UniqueRows(votes')
    requires forall r: VoteRow | r.processID == processID :: r in votes <==> r in votes'
    ensures Assemble(cfg, t, votes, processID, nMaxVotes, nLevels) == Assemble(cfg, t, votes', processID, nMaxVotes, nLevels)
  {
    SelectIgnoresOrder(votes, votes', processID);
  }
}

/** Accepted votes always assemble, and the witness they assemble into verifies. */
module WitnessLaws {
  import opened Bytes
  import opened Results
  import opened Trie
  import opened Types
  import opened Census
  import opened CensusLaws
  import opened CensusRuns
  import opened Database
  import opened VoteTable
  import opened Witness
  import opened Votes

  // ---------------------------------------------------------------- what the table keeps

  function RootOf(cfg: Config, p: Process): Digest
  {
    cfg.crypto.digestOf(p.censusRoot)
  }

  /** `vp` is a vote that verified for the process of `row` and was stored as `row`. */
  ghost predicate CameFrom(cfg: Config, t: ProcessTable, row: VoteRow, vp: VotePackage)
    requires row.processID in t
  {
    ToRow(row.processID, vp) == row && Verify(cfg.crypto, vp, cfg.chainID, row.processID, RootOf(cfg, t[row.processID])) == Success(())
  }

  ghost predicate RowValid(cfg: Config, t: ProcessTable, row: VoteRow)
  {
    Storable(row.indx) && Storable(row.processID) && row.processID in t && exists vp :: CameFrom(cfg, t, row, vp)
  }

  /** The invariant of the votes table. */
  ghost predicate VotesValid(cfg: Config, t: ProcessTable, votes: seq<VoteRow>)
  {
    UniqueRows(votes) && forall row | row in votes :: RowValid(cfg, t, row)
  }

  /**
   When a vote is accepted, exactly; and what that does to the table. Besides the checks of the vote itself
   it needs an index, a key and a proof that no row has yet, whatever process that row belongs to.
   */
  lemma AcceptVoteSpec(cfg: Config, t: ProcessTable, votes: seq<VoteRow>, processID: uint64, vp: VotePackage)
    requires VotesValid(cfg, t, votes)
    ensures var r, row := AcceptVote(cfg, t, votes, processID, vp), ToRow(processID, vp);
            && (r.Success? <==>
                  && Storable(processID) && processID in t && t[processID].status == On && Storable(row.indx)
                  && SignedFor(cfg.crypto, vp, cfg.chainID, processID)
                  && ProvenIn(RootOf(cfg, t[processID]), vp.censusProof.merkleProof, row.indx, row.publicKey, vp.censusProof.weight)
                  && forall other | other in votes ::
                       other.indx != row.indx && other.publicKey != row.publicKey && other.merkleProof != row.merkleProof)
            && (r.Success? ==> r.value == votes + [row] && VotesValid(cfg, t, r.value))
  {
    InsertVoteSpec(t, votes, processID, vp);
    if processID in t { VerifyIff(cfg.crypto, vp, cfg.chainID, processID, RootOf(cfg, t[processID])); }
    var r, row := AcceptVote(cfg, t, votes, processID, vp), ToRow(processID, vp);
    if r.Success? {
      assert CameFrom(cfg, t, row, vp);
      forall other | other in r.value ensures RowValid(cfg, t, other) {
        assert other in votes || other == row;
      }
    }
  }

  // ---------------------------------------------------------------- storing loses nothing but a missing weight

  lemma VerifiedWeight(cfg: Config, vp: VotePackage, processID: uint64, root: Digest)
    requires Verify(cfg.crypto, vp, cfg.chainID, processID, root) == Success(())
    ensures var cp := vp.censusProof;
            && cp.merkleProof.Packed? && cfg.crypto.decompress(vp.signature).Some?
            && HashPubKBytes(cp.publicKey, cp.weight).Success?
            && CheckCensusProof(root, cp.merkleProof, cp.index, cp.publicKey, cp.weight) == Success(true)
  {}

  /** A vote with an explicit weight comes back from the table as it went in. */
  lemma StoredIntact(vp: VotePackage, processID: uint64)
    requires vp.censusProof.weight.Some? && vp.censusProof.weight.value >= 0
    ensures FromRow(ToRow(processID, vp)) == vp
  {
    MinimalBERoundTrip(vp.censusProof.weight.value);
  }

  lemma {:induction false} RecomputeInjective(k: nat, v: KeyHash, v': KeyHash, siblings: seq<Digest>, lvl: nat)
    requires Recompute(k, v, siblings, lvl) == Recompute(k, v', siblings, lvl)
    ensures v == v'
    decreases |siblings|
  {
    if siblings != [] { RecomputeInjective(k, v, v', siblings[1..], lvl + 1); }
  }

  /**
   A stored vote verifies again, against the same root, exactly when the voter named a weight: without one it
   was checked with the weight 1 and stored with the weight 0.
   */
  lemma StoredVerifiesIff(cfg: Config, vp: VotePackage, processID: uint64, root: Digest)
    requires Verify(cfg.crypto, vp, cfg.chainID, processID, root) == Success(())
    ensures Verify(cfg.crypto, FromRow(ToRow(processID, vp)), cfg.chainID, processID, root) == Success(())
       <==> vp.censusProof.weight.Some?
  {
    VerifiedWeight(cfg, vp, processID, root);
    var cp := vp.censusProof;
    if cp.weight.Some? {
      StoredIntact(vp, processID);
    } else {
      var stored := FromRow(ToRow(processID, vp));
      assert stored.censusProof.weight == Some(0);
      if Verify(cfg.crypto, stored, cfg.chainID, processID, root) == Success(()) {
        VerifiedWeight(cfg, stored, processID, root);
        RecomputeInjective(IndexKey(cp.index), HashPubKBytes(cp.publicKey, None).value, HashPubKBytes(cp.publicKey, Some(0)).value,
                           cp.merkleProof.siblings, 0);
      }
    }
  }

  /** What every stored row can be relied on for, whatever root its process has. */
  ghost predicate RowSound(cfg: Config, row: VoteRow)
  {
    && Storable(row.indx) && cfg.crypto.decompress(row.signature).Some? && row.merkleProof.Packed?
    && InField(row.publicKey.x) && InField(row.publicKey.y) && InField(BigEndian(row.weight))
  }

  lemma RowIsSound(cfg: Config, t: ProcessTable, row: VoteRow)
    requires RowValid(cfg, t, row)
    ensures RowSound(cfg, row)
  {
    var vp :| CameFrom(cfg, t, row, vp);
    VerifiedWeight(cfg, vp, row.processID, RootOf(cfg, t[row.processID]));
    if vp.censusProof.weight.Some? { MinimalBERoundTrip(vp.censusProof.weight.value); }
  }

  // ---------------------------------------------------------------- rows of a census

  /** The process `p` votes over the census `s`. */
  ghost predicate Over(cfg: Config, p: Process, s: CensusState)
  {
    Valid(s) && RootOf(cfg, p) == Root(s.tree)
  }

  /** What a stored row is worth when its process votes over a census: a leaf, its key, its proof. */
  ghost predicate RowOfCensus(cfg: Config, row: VoteRow, s: CensusState)
  {
    && row.indx < s.nextIndex
    && cfg.crypto.decompress(row.signature).Some?
    && row.merkleProof.Packed? && Siblings(s.tree, row.indx, 0) == Some(row.merkleProof.siblings)
    && InField(row.publicKey.x) && InField(row.publicKey.y) && InField(BigEndian(row.weight))
    && row.publicKey in s.table
  }

  lemma RowIsOfCensus(cfg: Config, t: ProcessTable, row: VoteRow, s: CensusState)
    requires RowValid(cfg, t, row) && Over(cfg, t[row.processID], s)
    ensures RowOfCensus(cfg, row, s)
  {
    var vp :| CameFrom(cfg, t, row, vp);
    var cp := vp.censusProof;
    VerifiedWeight(cfg, vp, row.processID, Root(s.tree));
    AcceptedProofIff(s, cp.merkleProof, cp.index, cp.publicKey, cp.weight);
    AcceptedKeyRegistered(s, cp.merkleProof, cp.index, cp.publicKey, cp.weight);
    if cp.weight.Some? { MinimalBERoundTrip(cp.weight.value); }
  }

  /**
   The uniqueness of proofs never turns a voter away on its own: in whatever censuses, another index has
   another proof.
   */
  lemma ProofsNeverClash(cfg: Config, row: VoteRow, row': VoteRow, s: CensusState, s': CensusState)
    requires Valid(s) && Valid(s') && RowOfCensus(cfg, row, s) && RowOfCensus(cfg, row', s') && row.indx != row'.indx
    ensures row.merkleProof != row'.merkleProof
  {
    if row.merkleProof == row'.merkleProof {
      ProofsDifferAcross(s.tree, s'.tree, row.indx, row'.indx, [], s.nextIndex, s'.nextIndex);
    }
  }

  /** Rows of one census, sorted by index, are no more than the census has keys. */
  lemma {:induction false} AtMostOnePerIndex(rows: seq<VoteRow>, n: nat)
    requires Increasing(rows) && forall i | 0 <= i < |rows| :: rows[i].indx < n
    ensures |rows| <= n
  {
    if rows != [] {
      var front, last := rows[..|rows| - 1], rows[|rows| - 1];
      AtMostOnePerIndex(front, last.indx);
    }
  }

  // ---------------------------------------------------------------- when assembly succeeds

  ghost predicate RowsOfCensus(cfg: Config, rows: seq<VoteRow>, s: CensusState)
  {
    Increasing(rows) && forall i | 0 <= i < |rows| :: RowOfCensus(cfg, rows[i], s)
  }

  /** The part a row contributes, once it is known not to fail. */
  ghost predicate PartIs(cfg: Config, row: VoteRow, part: Part, nLevels: nat)
  {
    && cfg.crypto.decompress(row.signature) == Some(Signature(part.row.s, part.row.r8x, part.row.r8y))
    && part.row.vote == BytesToBigInt(row.vote) && part.row.index == row.indx
    && part.row.pkX == row.publicKey.x && part.row.pkY == row.publicKey.y && part.row.weight == BigEndian(row.weight)
    && ShortProof(row, nLevels)
    && part.row.siblings == row.merkleProof.siblings + Zeros(nLevels + 1 - |row.merkleProof.siblings|)
    && part.key == row.indx % Pow256(KeyLen(nLevels)) && part.value == LeafOf(row.publicKey, BigEndian(row.weight))
    && part.share == BytesToBigInt(row.vote) * BigEndian(row.weight)
  }

  /** The proof of the row has room in the circuit. */
  ghost predicate ShortProof(row: VoteRow, nLevels: nat)
  {
    row.merkleProof.Packed? && |row.merkleProof.siblings| <= nLevels
  }

  /** Row number `i` has room in the circuit, and its vote is 0 or 1. */
  ghost predicate PartFits(row: VoteRow, i: nat, nMaxVotes: nat, nLevels: nat)
  {
    BytesToBigInt(row.vote) <= 1 && i < nMaxVotes && ShortProof(row, nLevels) && nLevels <= MAX_LEVELS
  }

  /** Nothing else can go wrong with a stored row. */
  ghost predicate PartBehaves(cfg: Config, row: VoteRow, i: nat, nMaxVotes: nat, nLevels: nat)
  {
    var r := PartOf(cfg, FromRow(row), i, nMaxVotes, nLevels);
    && (r.Success? <==> PartFits(row, i, nMaxVotes, nLevels))
    && (r.Success? ==> PartIs(cfg, row, r.value, nLevels))
  }

  lemma PartSucceedsIff(cfg: Config, row: VoteRow, i: nat, nMaxVotes: nat, nLevels: nat)
    requires RowSound(cfg, row)
    ensures PartBehaves(cfg, row, i, nMaxVotes, nLevels)
  {
    if nLevels <= MAX_LEVELS { ReceiptKeyValue(row.indx, nLevels); }
  }

  /** The first `n` votes are 0 or 1. */
  ghost predicate AllBinary(rows: seq<VoteRow>, n: nat)
    requires n <= |rows|
  {
    forall i | 0 <= i < n :: BytesToBigInt(rows[i].vote) <= 1
  }

  ghost predicate PartsAre(cfg: Config, rows: seq<VoteRow>, parts: seq<Part>, nLevels: nat)
  {
    |parts| <= |rows| && forall i | 0 <= i < |parts| :: PartIs(cfg, rows[i], parts[i], nLevels)
  }

  lemma {:induction false} PartsSucceedIff(cfg: Config, rows: seq<VoteRow>, n: nat, nMaxVotes: nat, nLevels: nat)
    requires n <= |rows|
    requires forall i | 0 <= i < |rows| :: PartBehaves(cfg, rows[i], i, nMaxVotes, nLevels)
    ensures var r := Parts(cfg, FromRows(rows), nMaxVotes, nLevels, n);
            && (r.Success? <==> PartsFit(rows, n, nMaxVotes, nLevels))
            && (r.Success? ==> PartsAre(cfg, rows, r.value, nLevels))
  {
    if n > 0 {
      PartsSucceedIff(cfg, rows, n - 1, nMaxVotes, nLevels);
      var before := Parts(cfg, FromRows(rows), nMaxVotes, nLevels, n - 1);
      var last := PartOf(cfg, FromRow(rows[n - 1]), n - 1, nMaxVotes, nLevels);
      assert PartBehaves(cfg, rows[n - 1], n - 1, nMaxVotes, nLevels);
      if before.Success? && last.Success? {
        OnePartMoreIs(cfg, rows, before.value, last.value, nLevels);
      }
    }
  }

  ghost predicate PartsFit(rows: seq<VoteRow>, n: nat, nMaxVotes: nat, nLevels: nat)
    requires n <= |rows|
  {
    forall i | 0 <= i < n :: PartFits(rows[i], i, nMaxVotes, nLevels)
  }

  lemma OnePartMoreIs(cfg: Config, rows: seq<VoteRow>, parts: seq<Part>, part: Part, nLevels: nat)
    requires |parts| < |rows| && PartsAre(cfg, rows, parts, nLevels) && PartIs(cfg, rows[|parts|], part, nLevels)
    ensures PartsAre(cfg, rows, parts + [part], nLevels)
  {}

  /** Receipt keys are the indexes: increasing, and within the tree. */
  ghost predicate ReceiptKeys(keys: seq<nat>, nLevels: nat)
  {
    && (forall i, j | 0 <= i < j < |keys| :: keys[i] < keys[j])
    && (forall i | 0 <= i < |keys| :: keys[i] < Pow2(nLevels))
  }

  /** The receipts take different paths through the tree. */
  ghost predicate PathsDiffer(keys: seq<nat>, nLevels: nat)
  {
    forall i, j | 0 <= i < j < |keys| :: Path(keys[i], nLevels) != Path(keys[j], nLevels)
  }

  /**
   The receipts tree accepts every receipt exactly when their paths differ; then it holds one leaf for each, and
   proves each within its levels.
   */
  lemma ReceiptsIff(keys: seq<nat>, values: seq<KeyHash>, nLevels: nat)
    requires |keys| == |values|
    ensures var r, tree := Receipts(keys, values, nLevels), AddBatch(Tree.Empty, keys, values, nLevels).0;
            && (r.Success? <==> PathsDiffer(keys, nLevels))
            && (r.Success? ==>
                  && r.value.0 == Root(tree) && WellFormed(tree, []) && Contents(tree) == Entries(keys, values)
                  && forall i | 0 <= i < |keys| :: ReceiptProof(tree, keys[i], r.value.1[i], nLevels))
  {
    AddBatchSpec(Tree.Empty, keys, values, nLevels);
    assert Separate(Tree.Empty, keys, nLevels) <==> PathsDiffer(keys, nLevels);
    if PathsDiffer(keys, nLevels) {
      ReceiptsProven(keys, values, nLevels, AddBatch(Tree.Empty, keys, values, nLevels).0);
    }
  }

  lemma ReceiptsProven(keys: seq<nat>, values: seq<KeyHash>, nLevels: nat, tree: Tree)
    requires |keys| == |values| && PathsDiffer(keys, nLevels)
    requires WellFormed(tree, []) && Contents(tree) == Contents(Tree.Empty) + Entries(keys, values)
    ensures Contents(tree) == Entries(keys, values)
    ensures var r := PadReceipts(tree, keys, nLevels, |keys|);
            r.Success? && forall i | 0 <= i < |keys| :: ReceiptProof(tree, keys[i], r.value[i], nLevels)
  {
    KeysDiffer(keys, nLevels);
    EntriesAre(keys, values);
    LeavesApart(keys, nLevels, Contents(tree));
    DepthSeparate(tree, [], nLevels);
    PadReceiptsTotal(tree, keys, nLevels, |keys|);
  }

  lemma KeysDiffer(keys: seq<nat>, nLevels: nat)
    requires PathsDiffer(keys, nLevels)
    ensures forall i, j | 0 <= i < j < |keys| :: keys[i] != keys[j]
  {
    forall i, j | 0 <= i < j < |keys| ensures keys[i] != keys[j] {
      assert Path(keys[i], nLevels) != Path(keys[j], nLevels);
    }
  }

  lemma LeavesApart(keys: seq<nat>, nLevels: nat, leaves: map<nat, KeyHash>)
    requires PathsDiffer(keys, nLevels) && forall k :: k in leaves <==> k in keys
    ensures forall a, b | a in leaves && b in leaves && a != b :: Path(a, nLevels) != Path(b, nLevels)
  {
    forall a, b | a in leaves && b in leaves && a != b ensures Path(a, nLevels) != Path(b, nLevels) {
      var i :| 0 <= i < |keys| && keys[i] == a;
      var j :| 0 <= j < |keys| && keys[j] == b;
    }
  }

  /** In particular increasing keys within the tree. */
  lemma ReceiptsTotal(keys: seq<nat>, values: seq<KeyHash>, nLevels: nat)
    requires |keys| == |values| && ReceiptKeys(keys, nLevels)
    ensures var r, tree := Receipts(keys, values, nLevels), AddBatch(Tree.Empty, keys, values, nLevels).0;
            && r.Success? && r.value.0 == Root(tree)
            && WellFormed(tree, []) && Contents(tree) == Entries(keys, values)
            && forall i | 0 <= i < |keys| :: ReceiptProof(tree, keys[i], r.value.1[i], nLevels)
  {
    forall i, j | 0 <= i < j < |keys| ensures Path(keys[i], nLevels) != Path(keys[j], nLevels) {
      if Path(keys[i], nLevels) == Path(keys[j], nLevels) { PathInjective(keys[i], keys[j], nLevels); }
    }
    ReceiptsIff(keys, values, nLevels);
  }

  ghost predicate ReceiptProof(tree: Tree, key: nat, padded: seq<Digest>, nLevels: nat)
  {
    var s := Siblings(tree, key, 0);
    s.Some? && |s.value| <= nLevels && padded == s.value + Zeros(nLevels + 1 - |s.value|)
  }

  lemma {:induction false} PadReceiptsTotal(tree: Tree, keys: seq<nat>, nLevels: nat, n: nat)
    requires n <= |keys| && WellFormed(tree, []) && Depth(tree) <= nLevels
    requires forall i | 0 <= i < |keys| :: keys[i] in Contents(tree)
    ensures var r := PadReceipts(tree, keys, nLevels, n);
            r.Success? && forall i | 0 <= i < n :: ReceiptProof(tree, keys[i], r.value[i], nLevels)
  {
    if n > 0 {
      PadReceiptsTotal(tree, keys, nLevels, n - 1);
      OneReceipt(tree, keys[n - 1], nLevels);
    }
  }

  lemma OneReceipt(tree: Tree, key: nat, nLevels: nat)
    requires WellFormed(tree, []) && key in Contents(tree) && Depth(tree) <= nLevels
    ensures Siblings(tree, key, 0).Some?
    ensures var padded := Pad(Packed(Siblings(tree, key, 0).value, 0), nLevels);
            padded.Success? && ReceiptProof(tree, key, padded.value, nLevels)
  {
    ProofComplete(tree, key, []);
    ProofShape(tree, key, []);
  }

  /** The circuit is large enough for the census. */
  ghost predicate Fits(s: CensusState, nMaxVotes: nat, nLevels: nat)
  {
    nLevels <= MAX_LEVELS && s.nextIndex <= Pow2(nLevels) && s.nextIndex <= nMaxVotes
  }

  /** The rows read for a process over a census, as rows of that census. */
  lemma SelectedRows(cfg: Config, t: ProcessTable, votes: seq<VoteRow>, processID: uint64, s: CensusState)
    requires VotesValid(cfg, t, votes) && processID in t && Over(cfg, t[processID], s)
    ensures var rows := Select(votes, processID);
            && RowsOfCensus(cfg, rows, s) && |rows| <= s.nextIndex
            && forall i | 0 <= i < |rows| :: Storable(rows[i].indx) && rows[i] in votes && rows[i].processID == processID
  {
    var rows := Select(votes, processID);
    SelectSpec(votes, processID);
    forall i | 0 <= i < |rows|
      ensures RowOfCensus(cfg, rows[i], s) && Storable(rows[i].indx) && rows[i] in votes && rows[i].processID == processID
    {
      assert rows[i] in rows;
      RowIsOfCensus(cfg, t, rows[i], s);
    }
    AtMostOnePerIndex(rows, s.nextIndex);
  }

  /**
   The votes of a process have room in the circuit: no vote but 0 and 1, a row for each, short proofs, and
   indexes that the lowest `nLevels` bits tell apart.
   */
  ghost predicate Assemblable(rows: seq<VoteRow>, nMaxVotes: nat, nLevels: nat)
  {
    && AllBinary(rows, |rows|) && |rows| <= nMaxVotes && (rows != [] ==> nLevels <= MAX_LEVELS)
    && (forall i | 0 <= i < |rows| :: ShortProof(rows[i], nLevels))
    && (forall i, j | 0 <= i < j < |rows| :: rows[i].indx % Pow2(nLevels) != rows[j].indx % Pow2(nLevels))
  }

  /**
   Exactly when a process gets its circuit inputs, for every valid table, every circuit size and every root: no
   other failure can come from stored votes.
   */
  lemma AssembleIff(cfg: Config, t: ProcessTable, votes: seq<VoteRow>, processID: uint64, nMaxVotes: nat, nLevels: nat)
    requires VotesValid(cfg, t, votes)
    ensures Assemble(cfg, t, votes, processID, nMaxVotes, nLevels).Success?
            <==> Storable(processID) && processID in t && Assemblable(Select(votes, processID), nMaxVotes, nLevels)
  {
    if Storable(processID) && processID in t {
      var rows := Select(votes, processID);
      SelectedSound(cfg, t, votes, processID);
      AssembleFromIff(cfg, t[processID], processID, rows, nMaxVotes, nLevels);
    }
  }

  lemma SelectedSound(cfg: Config, t: ProcessTable, votes: seq<VoteRow>, processID: uint64)
    requires VotesValid(cfg, t, votes)
    ensures forall i | 0 <= i < |Select(votes, processID)| :: RowSound(cfg, Select(votes, processID)[i])
  {
    var rows := Select(votes, processID);
    SelectSpec(votes, processID);
    forall i | 0 <= i < |rows| ensures RowSound(cfg, rows[i]) {
      assert rows[i] in rows;
      RowIsSound(cfg, t, rows[i]);
    }
  }

  lemma AssembleFromIff(cfg: Config, p: Process, processID: uint64, rows: seq<VoteRow>, nMaxVotes: nat, nLevels: nat)
    requires forall i | 0 <= i < |rows| :: RowSound(cfg, rows[i])
    ensures var r := AssembleFrom(cfg, p, processID, FromRows(rows), nMaxVotes, nLevels);
            && (r.Success? <==> Assemblable(rows, nMaxVotes, nLevels))
            && (r.Success? ==> exists parts :: WitnessBuilt(cfg, rows, parts, r.value, RootOf(cfg, p), nMaxVotes, nLevels))
  {
    forall i | 0 <= i < |rows| ensures PartBehaves(cfg, rows[i], i, nMaxVotes, nLevels) {
      PartSucceedsIff(cfg, rows[i], i, nMaxVotes, nLevels);
    }
    PartsSucceedIff(cfg, rows, |rows|, nMaxVotes, nLevels);
    var parts := Parts(cfg, FromRows(rows), nMaxVotes, nLevels, |rows|);
    if parts.Success? {
      ReceiptsIff(KeysOf(parts.value), ValuesOf(parts.value), nLevels);
      PathsOfParts(cfg, rows, parts.value, nLevels);
      PartsAssemble(cfg, p, processID, rows, parts.value, nMaxVotes, nLevels);
    }
    PartsFitIff(rows, nMaxVotes, nLevels);
  }

  /** Receipts take different paths exactly when their indexes differ in the lowest bits. */
  lemma PathsOfParts(cfg: Config, rows: seq<VoteRow>, parts: seq<Part>, nLevels: nat)
    requires |parts| == |rows| && PartsAre(cfg, rows, parts, nLevels)
    ensures PathsDiffer(KeysOf(parts), nLevels)
       <==> forall i, j | 0 <= i < j < |rows| :: rows[i].indx % Pow2(nLevels) != rows[j].indx % Pow2(nLevels)
  {
    var keys := KeysOf(parts);
    forall i, j | 0 <= i < j < |rows|
      ensures Path(keys[i], nLevels) == Path(keys[j], nLevels) <==> rows[i].indx % Pow2(nLevels) == rows[j].indx % Pow2(nLevels)
    {
      assert PartIs(cfg, rows[i], parts[i], nLevels) && PartIs(cfg, rows[j], parts[j], nLevels);
      CutPath(rows[i].indx, nLevels);
      CutPath(rows[j].indx, nLevels);
      PathsEqualIff(rows[i].indx, rows[j].indx, nLevels);
    }
  }

  lemma PartsFitIff(rows: seq<VoteRow>, nMaxVotes: nat, nLevels: nat)
    ensures PartsFit(rows, |rows|, nMaxVotes, nLevels)
       <==> && AllBinary(rows, |rows|) && |rows| <= nMaxVotes && (rows != [] ==> nLevels <= MAX_LEVELS)
            && forall i | 0 <= i < |rows| :: ShortProof(rows[i], nLevels)
  {
    if rows != [] && PartsFit(rows, |rows|, nMaxVotes, nLevels) {
      assert PartFits(rows[|rows| - 1], |rows| - 1, nMaxVotes, nLevels);
    }
  }

  /** Index `k` of a census of `n` keys has a proof of at most `m` siblings. */
  ghost predicate InReach(k: nat, n: nat, m: nat)
  {
    k < Pow2(m) && n <= k + Pow2(m)
  }

  /**
   For a process over a census the proofs need not be looked at: the votes assemble exactly when they are 0 or 1,
   no more than the circuit holds, and each index is within reach of the levels. And then the witness is the one
   built from the rows.
   */
  lemma AssembleOverCensusIff(cfg: Config, t: ProcessTable, votes: seq<VoteRow>, processID: uint64, s: CensusState, nMaxVotes: nat, nLevels: nat)
    requires VotesValid(cfg, t, votes) && Storable(processID) && processID in t && Over(cfg, t[processID], s)
    ensures var r, rows := Assemble(cfg, t, votes, processID, nMaxVotes, nLevels), Select(votes, processID);
            && (r.Success? <==>
                  && AllBinary(rows, |rows|) && |rows| <= nMaxVotes && (rows != [] ==> nLevels <= MAX_LEVELS)
                  && forall i | 0 <= i < |rows| :: InReach(rows[i].indx, s.nextIndex, nLevels))
            && (r.Success? ==> Assembled(cfg, rows, r.value, RootOf(cfg, t[processID]), nMaxVotes, nLevels))
  {
    var rows := Select(votes, processID);
    SelectedRows(cfg, t, votes, processID, s);
    SelectedSound(cfg, t, votes, processID);
    AssembleIff(cfg, t, votes, processID, nMaxVotes, nLevels);
    ShortIsInReach(cfg, rows, s, nLevels);
    if Assemblable(rows, nMaxVotes, nLevels) {
      AssembleFromIff(cfg, t[processID], processID, rows, nMaxVotes, nLevels);
      var w := Assemble(cfg, t, votes, processID, nMaxVotes, nLevels).value;
      var parts :| WitnessBuilt(cfg, rows, parts, w, RootOf(cfg, t[processID]), nMaxVotes, nLevels);
      KeysOfParts(cfg, rows, parts, s, nLevels);
      assert WitnessParts(cfg, rows, parts, w, RootOf(cfg, t[processID]), nMaxVotes, nLevels);
    }
  }

  lemma ShortIsInReach(cfg: Config, rows: seq<VoteRow>, s: CensusState, nLevels: nat)
    requires RowsOfCensus(cfg, rows, s) && Valid(s)
    ensures forall i | 0 <= i < |rows| :: ShortProof(rows[i], nLevels) <==> InReach(rows[i].indx, s.nextIndex, nLevels)
    ensures (forall i | 0 <= i < |rows| :: ShortProof(rows[i], nLevels)) ==>
              forall i, j | 0 <= i < j < |rows| :: rows[i].indx % Pow2(nLevels) != rows[j].indx % Pow2(nLevels)
  {
    forall i | 0 <= i < |rows| ensures ShortProof(rows[i], nLevels) <==> InReach(rows[i].indx, s.nextIndex, nLevels) {
      assert RowOfCensus(cfg, rows[i], s);
      ProofLengthIff(s.tree, [], s.nextIndex, rows[i].indx, nLevels);
    }
    if forall i | 0 <= i < |rows| :: ShortProof(rows[i], nLevels) {
      forall i | 0 <= i < |rows| ensures rows[i].indx % Pow2(nLevels) == rows[i].indx {
        assert InReach(rows[i].indx, s.nextIndex, nLevels);
        SmallMod(rows[i].indx, Pow2(nLevels));
      }
    }
  }

  /**
   Votes accepted one at a time always assemble into a complete witness, unless one of them is neither 0 nor 1,
   when the circuit is large enough for the census: no array overflows, no proof is too long, no receipt is
   refused.
   */
  lemma AssemblyTotalIff(cfg: Config, t: ProcessTable, votes: seq<VoteRow>, processID: uint64, s: CensusState, nMaxVotes: nat, nLevels: nat)
    requires VotesValid(cfg, t, votes) && Storable(processID) && processID in t && Over(cfg, t[processID], s)
    requires Fits(s, nMaxVotes, nLevels)
    ensures var r, rows := Assemble(cfg, t, votes, processID, nMaxVotes, nLevels), Select(votes, processID);
            && (r.Success? <==> AllBinary(rows, |rows|))
            && (r.Success? ==> Assembled(cfg, rows, r.value, RootOf(cfg, t[processID]), nMaxVotes, nLevels))
  {
    SelectedRows(cfg, t, votes, processID, s);
    AssembleOverCensusIff(cfg, t, votes, processID, s, nMaxVotes, nLevels);
  }

  /** A census with twice as many keys as the levels tell apart is out of reach: not one vote of it can be assembled. */
  lemma LargeCensusOutOfReach(cfg: Config, t: ProcessTable, votes: seq<VoteRow>, processID: uint64, s: CensusState, nMaxVotes: nat, nLevels: nat)
    requires VotesValid(cfg, t, votes) && Storable(processID) && processID in t && Over(cfg, t[processID], s)
    requires s.nextIndex >= 2 * Pow2(nLevels)
    ensures Assemble(cfg, t, votes, processID, nMaxVotes, nLevels).Success? <==> Select(votes, processID) == []
  {
    AssembleOverCensusIff(cfg, t, votes, processID, s, nMaxVotes, nLevels);
    var rows := Select(votes, processID);
    if rows != [] { assert !InReach(rows[0].indx, s.nextIndex, nLevels); }
  }

  /** Over a census an index within reach is its own receipt key. */
  lemma KeysOfParts(cfg: Config, rows: seq<VoteRow>, parts: seq<Part>, s: CensusState, nLevels: nat)
    requires RowsOfCensus(cfg, rows, s) && |parts| == |rows| && PartsAre(cfg, rows, parts, nLevels)
    requires forall i | 0 <= i < |rows| :: InReach(rows[i].indx, s.nextIndex, nLevels)
    ensures ReceiptKeys(KeysOf(parts), nLevels) && KeysAreIndexes(rows, parts)
  {
    var c := KeyLen(nLevels);
    Pow2OfBytes(c);
    Pow2Monotone(nLevels, 8 * c);
    forall i | 0 <= i < |rows| ensures parts[i].key == rows[i].indx && rows[i].indx < Pow2(nLevels) {
      assert PartIs(cfg, rows[i], parts[i], nLevels) && InReach(rows[i].indx, s.nextIndex, nLevels);
      SmallMod(rows[i].indx, Pow256(c));
    }
  }

  ghost predicate KeysAreIndexes(rows: seq<VoteRow>, parts: seq<Part>)
    requires |parts| == |rows|
  {
    forall i | 0 <= i < |rows| :: parts[i].key == rows[i].indx
  }

  lemma PartsAssemble(cfg: Config, p: Process, processID: uint64, rows: seq<VoteRow>, parts: seq<Part>, nMaxVotes: nat, nLevels: nat)
    requires Parts(cfg, FromRows(rows), nMaxVotes, nLevels, |rows|) == Success(parts)
    requires PartsAre(cfg, rows, parts, nLevels)
    ensures var r := AssembleFrom(cfg, p, processID, FromRows(rows), nMaxVotes, nLevels);
            && (r.Success? <==> Receipts(KeysOf(parts), ValuesOf(parts), nLevels).Success?)
            && (r.Success? ==> WitnessBuilt(cfg, rows, parts, r.value, RootOf(cfg, p), nMaxVotes, nLevels))
  {}

  /** `w` is the witness built from the parts of `rows` and their receipts. */
  ghost predicate WitnessBuilt(cfg: Config, rows: seq<VoteRow>, parts: seq<Part>, w: Witness, root: Digest, nMaxVotes: nat, nLevels: nat)
  {
    && PartsAre(cfg, rows, parts, nLevels) && |parts| == |rows| <= nMaxVotes
    && w.censusRoot == root && w.nVotes == |rows| && w.result == TotalOf(parts) && w.withReceipts == 1
    && w.rows == PaddedRows(parts, nMaxVotes, nLevels)
    && var receipts := Receipts(KeysOf(parts), ValuesOf(parts), nLevels);
       && receipts.Success? && w.receiptsRoot == receipts.value.0
       && w.receiptsSiblings == receipts.value.1 + ZeroSiblings(nMaxVotes - |parts|, nLevels)
  }

  /** Over a census the receipts have the indexes for keys. */
  ghost predicate WitnessParts(cfg: Config, rows: seq<VoteRow>, parts: seq<Part>, w: Witness, root: Digest, nMaxVotes: nat, nLevels: nat)
  {
    && WitnessBuilt(cfg, rows, parts, w, root, nMaxVotes, nLevels)
    && ReceiptKeys(KeysOf(parts), nLevels) && KeysAreIndexes(rows, parts)
  }

  ghost predicate Assembled(cfg: Config, rows: seq<VoteRow>, w: Witness, root: Digest, nMaxVotes: nat, nLevels: nat)
  {
    exists parts :: WitnessParts(cfg, rows, parts, w, root, nMaxVotes, nLevels)
  }
}

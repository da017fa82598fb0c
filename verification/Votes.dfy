/** votesaggregator/votesaggregator.go: accepting votes and turning them into circuit inputs. */
module Votes {
  import opened Bytes
  import opened Results
  import opened Trie
  import opened Types
  import opened Database
  import opened Witness

  /** The node's view of its chain and of the cryptography. */
  datatype Config = Config(chainID: uint64, crypto: Crypto)

  // ---------------------------------------------------------------- one vote

  /** A vote enters the table when its process is On and it verifies for that process. */
  function AcceptVote(cfg: Config, t: ProcessTable, votes: seq<VoteRow>, processID: uint64, vp: VotePackage): Result<seq<VoteRow>, Error>
  {
    match ReadProcess(t, processID)
    case Failure(e) => Failure(e)
    case Success(process) =>
      if process.status != On then Failure(ProcessNotOn)
      else
        match Verify(cfg.crypto, vp, cfg.chainID, processID, cfg.crypto.digestOf(process.censusRoot))
        case Failure(e) => Failure(e)
        case Success(_) => InsertVote(t, votes, processID, vp)
  }

  // ---------------------------------------------------------------- circuit inputs

  /** What one vote contributes: its row, its receipt, and its share of the result. */
  datatype Part = Part(row: Row, key: nat, value: KeyHash, share: nat)

  /** One round of the loop, for vote number `i`, with every way it can fail, in the order of the code. */
  function PartOf(cfg: Config, vp: VotePackage, i: nat, nMaxVotes: nat, nLevels: nat): Result<Part, Error>
  {
    var v := BytesToBigInt(vp.vote);
    var cp := vp.censusProof;
    if v > 1 then Failure(InvalidVote)
    else if i >= nMaxVotes then Failure(IndexOutOfRange)
    else
      match cfg.crypto.decompress(vp.signature)
      case None => Failure(BadSignature)
      case Some(sig) =>
        match Pad(cp.merkleProof, nLevels)
        case Failure(e) => Failure(e)
        case Success(siblings) =>
          if nLevels > MAX_LEVELS then Failure(IndexOutOfRange)
          else
            match HashPubKBytes(cp.publicKey, cp.weight)
            case Failure(e) => Failure(e)
            case Success(h) =>
              Success(Part(Row(v, ToInt64(cp.index), cp.publicKey.x, cp.publicKey.y, Abs(WeightOf(cp)), sig.s, sig.r8x, sig.r8y, siblings),
                           BytesToBigInt(ReceiptKey(cp.index, nLevels)), h, v * Abs(WeightOf(cp))))
  }

  function WeightOf(cp: CensusProof): int
  {
    match cp.weight case None => 1 case Some(w) => w
  }

  function Parts(cfg: Config, votes: seq<VotePackage>, nMaxVotes: nat, nLevels: nat, n: nat): (r: Result<seq<Part>, Error>)
    requires n <= |votes|
    ensures r.Success? ==> |r.value| == n && n <= nMaxVotes
  {
    if n == 0 then Success([])
    else
      match Parts(cfg, votes, nMaxVotes, nLevels, n - 1)
      case Failure(e) => Failure(e)
      case Success(before) =>
        match PartOf(cfg, votes[n - 1], n - 1, nMaxVotes, nLevels)
        case Failure(e) => Failure(e)
        case Success(part) => Success(before + [part])
  }

  lemma {:induction false} PartsStop(cfg: Config, votes: seq<VotePackage>, nMaxVotes: nat, nLevels: nat, n: nat)
    requires n <= |votes| && Parts(cfg, votes, nMaxVotes, nLevels, n).Failure?
    ensures Parts(cfg, votes, nMaxVotes, nLevels, |votes|) == Parts(cfg, votes, nMaxVotes, nLevels, n)
    decreases |votes| - n
  {
    if n < |votes| { PartsStop(cfg, votes, nMaxVotes, nLevels, n + 1); }
  }

  /** The rows of the voters, and zero rows up to the size of the circuit. */
  function PaddedRows(parts: seq<Part>, nMaxVotes: nat, nLevels: nat): (rows: seq<Row>)
    requires |parts| <= nMaxVotes
    ensures |rows| == nMaxVotes
    ensures forall i :: 0 <= i < nMaxVotes ==> rows[i] == if i < |parts| then parts[i].row else ZeroRow(nLevels)
  {
    seq(nMaxVotes, i requires 0 <= i => if i < |parts| then parts[i].row else ZeroRow(nLevels))
  }

  function KeysOf(parts: seq<Part>): (keys: seq<nat>)
    ensures |keys| == |parts| && forall i :: 0 <= i < |parts| ==> keys[i] == parts[i].key
  {
    seq(|parts|, i requires 0 <= i < |parts| => parts[i].key)
  }

  function ValuesOf(parts: seq<Part>): (values: seq<KeyHash>)
    ensures |values| == |parts| && forall i :: 0 <= i < |parts| ==> values[i] == parts[i].value
  {
    seq(|parts|, i requires 0 <= i < |parts| => parts[i].value)
  }

  function TotalOf(parts: seq<Part>): nat
  {
    if parts == [] then 0 else TotalOf(parts[..|parts| - 1]) + parts[|parts| - 1].share
  }

  lemma OnePartMore(parts: seq<Part>, part: Part)
    ensures KeysOf(parts + [part]) == KeysOf(parts) + [part.key]
    ensures ValuesOf(parts + [part]) == ValuesOf(parts) + [part.value]
    ensures TotalOf(parts + [part]) == TotalOf(parts) + part.share
  {
    assert (parts + [part])[..|parts|] == parts;
  }

  lemma OneRowMore(parts: seq<Part>, part: Part, nMaxVotes: nat, nLevels: nat)
    requires |parts| < nMaxVotes
    ensures PaddedRows(parts + [part], nMaxVotes, nLevels) == PaddedRows(parts, nMaxVotes, nLevels)[|parts| := part.row]
  {}

  lemma ZeroSiblingsLeft(n: nat, k: nat, nLevels: nat)
    requires k <= n
    ensures ZeroSiblings(n, nLevels)[k..] == ZeroSiblings(n - k, nLevels)
  {}

  /** The circuit inputs of a process, or the reason there are none. */
  function Assemble(cfg: Config, t: ProcessTable, votes: seq<VoteRow>, processID: uint64, nMaxVotes: nat, nLevels: nat): Result<Witness, Error>
  {
    match ReadProcess(t, processID)
    case Failure(e) => Failure(e)
    case Success(process) => AssembleFrom(cfg, process, processID, FromRows(Select(votes, processID)), nMaxVotes, nLevels)
  }

  function AssembleFrom(cfg: Config, process: Process, processID: uint64, vps: seq<VotePackage>, nMaxVotes: nat, nLevels: nat): Result<Witness, Error>
  {
    match Parts(cfg, vps, nMaxVotes, nLevels, |vps|)
    case Failure(e) => Failure(e)
    case Success(parts) =>
      match Receipts(KeysOf(parts), ValuesOf(parts), nLevels)
      case Failure(e) => Failure(e)
      case Success(receipts) => Success(WitnessOf(cfg, process, processID, parts, receipts, nMaxVotes, nLevels))
  }

  function WitnessOf(cfg: Config, process: Process, processID: uint64, parts: seq<Part>, receipts: (Digest, seq<seq<Digest>>), nMaxVotes: nat, nLevels: nat): Witness
    requires |parts| <= nMaxVotes
  {
    Witness(ToInt64(cfg.chainID), ToInt64(processID), cfg.crypto.digestOf(process.censusRoot), receipts.0, |parts|, TotalOf(parts), 1,
            PaddedRows(parts, nMaxVotes, nLevels), receipts.1 + ZeroSiblings(nMaxVotes - |parts|, nLevels))
  }

  // ---------------------------------------------------------------- the proof record

  const PROOF_MAX_VOTES := 128
  const PROOF_LEVELS := 7

  /**
   GenerateProof on the tables: the new proof rows and what is returned. `answer` is what the prover says.
   The guard on the block number is the one in the code.
   */
  function StartProof(cfg: Config, tables: Tables, processID: uint64, answer: Result<uint64, Error>): (seq<ProofRow>, Result<(), Error>)
  {
    match ReadProcess(tables.processes, processID)
    case Failure(e) => (tables.proofs, Failure(e))
    case Success(process) =>
      match tables.lastSyncBlockNum
      case None => (tables.proofs, Failure(NoMeta))
      case Some(lastSync) =>
        if process.resPubStartBlock < lastSync then (tables.proofs, Failure(BlockGuard))
        else if LatestProof(tables.proofs, processID).Some? then (tables.proofs, Success(()))
        else
          match Assemble(cfg, tables.processes, tables.votes, processID, PROOF_MAX_VOTES, PROOF_LEVELS)
          case Failure(e) => (tables.proofs, Failure(e))
          case Success(_) =>
            match answer
            case Failure(e) => (tables.proofs, Failure(e))
            case Success(proofID) =>
              match InsertProof(tables.processes, tables.proofs, processID, proofID)
              case Failure(e) => (tables.proofs, Failure(e))
              case Success(proofs) => (proofs, Success(()))
  }

  /** GetProof on the proof rows: asks the prover only while the stored proof or its inputs are empty. */
  function FetchProof(proofs: seq<ProofRow>, processID: uint64, answer: Result<(seq<byte>, seq<byte>), Error>, now: nat): (seq<ProofRow>, Result<ProofRow, Error>)
  {
    if !Storable(processID) then (proofs, Failure(HighBit))
    else
      match LatestProof(proofs, processID)
      case None => (proofs, Failure(NoProof))
      case Some(row) =>
        if row.proof != [] && row.publicInputs != [] then (proofs, Success(row))
        else
          match answer
          case Failure(e) => (proofs, Failure(e))
          case Success((proof, inputs)) =>
            if !Storable(row.proofID) then (proofs, Failure(HighBit))
            else (FillProofs(proofs, processID, row.proofID, proof, inputs, now), Success(row.(proof := proof, publicInputs := inputs)))
  }

  class VotesAggregator {
    const db: SQLite
    const cfg: Config

    constructor (db: SQLite, cfg: Config)
      ensures this.db == db && this.cfg == cfg
    {
      this.db, this.cfg := db, cfg;
    }

    method AddVote(processID: uint64, vp: VotePackage) returns (r: Result<(), Error>)
      modifies db`votepackages
      ensures var after := AcceptVote(cfg, db.processes, old(db.votepackages), processID, vp);
              && (after.Success? ==> r == Success(()) && db.votepackages == after.value)
              && (after.Failure? ==> r == Failure(after.error) && db.votepackages == old(db.votepackages))
    {
      var process := db.ReadProcessByID(processID);
      if process.Failure? { return Failure(process.error); }
      if process.value.status != On { return Failure(ProcessNotOn); }
      var verified := Verify(cfg.crypto, vp, cfg.chainID, processID, cfg.crypto.digestOf(process.value.censusRoot));
      if verified.Failure? { return Failure(verified.error); }
      r := db.StoreVotePackage(processID, vp);
    }

    /** One round of the loop: writes vote `i` into the arrays and returns its receipt and its share of the result. */
    method FillVote(z: ZKInputs, vp: VotePackage, i: nat) returns (r: Result<Part, Error>)
      requires z.Valid()
      modifies z`rows, z.Columns()
      ensures z.Valid() && r == PartOf(cfg, vp, i, z.nMaxVotes, z.nLevels)
      ensures r.Success? ==> i < z.nMaxVotes && z.rows == old(z.rows)[i := r.value.row]
      ensures z.Header() == old(z.Header()) && z.receiptsSiblings[..] == old(z.receiptsSiblings[..])
    {
      var cp := vp.censusProof;
      var voteBI, weight := BytesToBigInt(vp.vote), Abs(WeightOf(cp));
      if voteBI > 1 { return Failure(InvalidVote); }
      if i >= z.nMaxVotes { return Failure(IndexOutOfRange); }
      var sig := cfg.crypto.decompress(vp.signature);
      if sig.None? { return Failure(BadSignature); }
      var siblings := z.MerkleProofToZKInputsFormat(cp.merkleProof);
      if siblings.Failure? { return Failure(siblings.error); }
      var row := Row(voteBI, ToInt64(cp.index), cp.publicKey.x, cp.publicKey.y, weight,
                     sig.value.s, sig.value.r8x, sig.value.r8y, siblings.value);
      z.SetRow(i, row);
      if z.nLevels > MAX_LEVELS { return Failure(IndexOutOfRange); }
      var pubKHash := HashPubKBytes(cp.publicKey, cp.weight);
      if pubKHash.Failure? { return Failure(pubKHash.error); }
      r := Success(Part(row, BytesToBigInt(ReceiptKey(cp.index, z.nLevels)), pubKHash.value, voteBI * weight));
    }

    /** The loop over the votes of a process. */
    method FillVotes(z: ZKInputs, votes: seq<VotePackage>) returns (r: Result<(seq<nat>, seq<KeyHash>, nat), Error>)
      requires z.Valid() && z.rows == ZeroRows(z.nMaxVotes, z.nLevels)
      modifies z`rows, z.Columns()
      ensures z.Valid() && z.Header() == old(z.Header()) && z.receiptsSiblings[..] == old(z.receiptsSiblings[..])
      ensures var spec := Parts(cfg, votes, z.nMaxVotes, z.nLevels, |votes|);
              && (spec.Failure? ==> r == Failure(spec.error))
              && (spec.Success? ==> r == Success((KeysOf(spec.value), ValuesOf(spec.value), TotalOf(spec.value)))
                                    && z.rows == PaddedRows(spec.value, z.nMaxVotes, z.nLevels))
    {
      var receiptsKeys, receiptsValues, result := [], [], 0;
      ghost var parts := [];
      for i := 0 to |votes|
        invariant z.Valid() && z.Header() == old(z.Header()) && z.receiptsSiblings[..] == old(z.receiptsSiblings[..])
        invariant Parts(cfg, votes, z.nMaxVotes, z.nLevels, i) == Success(parts)
        invariant receiptsKeys == KeysOf(parts) && receiptsValues == ValuesOf(parts) && result == TotalOf(parts)
        invariant z.rows == PaddedRows(parts, z.nMaxVotes, z.nLevels)
      {
        var part := FillVote(z, votes[i], i);
        if part.Failure? {
          PartsStop(cfg, votes, z.nMaxVotes, z.nLevels, i + 1);
          return Failure(part.error);
        }
        OnePartMore(parts, part.value);
        OneRowMore(parts, part.value, z.nMaxVotes, z.nLevels);
        result := result + part.value.share;
        receiptsKeys := receiptsKeys + [part.value.key];
        receiptsValues := receiptsValues + [part.value.value];
        parts := parts + [part.value];
      }
      r := Success((receiptsKeys, receiptsValues, result));
    }

    /** Fills new inputs for a process: the election, the votes, the totals, the receipts. */
    method FillInputs(z: ZKInputs, process: Process, processID: uint64, votes: seq<VotePackage>) returns (r: Result<(), Error>)
      requires z.Holds(Witness(0, 0, Zero, Zero, 0, 0, 0, ZeroRows(z.nMaxVotes, z.nLevels), ZeroSiblings(z.nMaxVotes, z.nLevels)))
      modifies z, z.Columns(), z.receiptsSiblings
      ensures var spec := AssembleFrom(cfg, process, processID, votes, z.nMaxVotes, z.nLevels);
              && (spec.Failure? ==> r == Failure(spec.error))
              && (spec.Success? ==> r == Success(()) && z.Holds(spec.value))
    {
      z.SetElection(ToInt64(cfg.chainID), ToInt64(processID), cfg.crypto.digestOf(process.censusRoot));
      var filled := FillVotes(z, votes);
      if filled.Failure? { return Failure(filled.error); }
      var (keys, values, result) := filled.value;
      z.SetTotals(|votes|, result);
      ghost var parts := Parts(cfg, votes, z.nMaxVotes, z.nLevels, |votes|).value;
      r := z.ComputeReceipts(keys, values);
      ZeroSiblingsLeft(z.nMaxVotes, |keys|, z.nLevels);
      if r.Success? {
        assert z.Holds(WitnessOf(cfg, process, processID, parts, Receipts(keys, values, z.nLevels).value, z.nMaxVotes, z.nLevels));
      }
    }

    /** The object it returns holds the assembled witness. */
    method GenerateZKInputs(processID: uint64, nMaxVotes: nat, nLevels: nat) returns (r: Result<ZKInputs, Error>)
      ensures var spec := Assemble(cfg, db.processes, db.votepackages, processID, nMaxVotes, nLevels);
              && (spec.Failure? ==> r == Failure(spec.error))
              && (spec.Success? ==> r.Success? && fresh(r.value.Repr())
                                    && r.value.nMaxVotes == nMaxVotes && r.value.Holds(spec.value))
    {
      var process := db.ReadProcessByID(processID);
      if process.Failure? { return Failure(process.error); }
      var votes := db.ReadVotePackagesByProcessID(processID);
      var z := new ZKInputs(nMaxVotes, nLevels);
      var filled := FillInputs(z, process.value, processID, votes.value);
      r := if filled.Failure? then Failure(filled.error) else Success(z);
    }

    method GenerateProof(processID: uint64, answer: Result<uint64, Error>) returns (r: Result<(), Error>)
      modifies db`proofs
      ensures (db.proofs, r) == StartProof(cfg, old(db.State()), processID, answer)
    {
      var process := db.ReadProcessByID(processID);
      if process.Failure? { return Failure(process.error); }
      var lastSync := db.GetLastSyncBlockNum();
      if lastSync.Failure? { return Failure(lastSync.error); }
      if process.value.resPubStartBlock < lastSync.value { return Failure(BlockGuard); }
      var stored := db.GetProofByProcessID(processID);
      if stored.Success? { return Success(()); }
      var zki := GenerateZKInputs(processID, PROOF_MAX_VOTES, PROOF_LEVELS);
      if zki.Failure? { return Failure(zki.error); }
      if answer.Failure? { return Failure(answer.error); }
      r := db.StoreProofID(processID, answer.value);
    }

    method GetProof(processID: uint64, answer: Result<(seq<byte>, seq<byte>), Error>, now: nat) returns (r: Result<ProofRow, Error>)
      modifies db`proofs
      ensures (db.proofs, r) == FetchProof(old(db.proofs), processID, answer, now)
    {
      var row := db.GetProofByProcessID(processID);
      if row.Failure? { return Failure(row.error); }
      if row.value.proof == [] || row.value.publicInputs == [] {
        if answer.Failure? { return Failure(answer.error); }
        var (proof, inputs) := answer.value;
        var added := db.AddProofToProofID(processID, row.value.proofID, proof, inputs, now);
        if added.Failure? { return Failure(added.error); }
        return Success(row.value.(proof := proof, publicInputs := inputs));
      }
      r := row;
    }
  }
}

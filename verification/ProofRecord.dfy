/** The record of proofs: at most one for each process, written once. */
module ProofRecord {
  import opened Bytes
  import opened Results
  import opened Types
  import opened Database
  import opened Votes
  import opened WitnessLaws

  /** One call; whatever else the node does in between shows in the other tables it finds. */
  datatype ProofOp =
    | Generate(cfg: Config, found: Tables, processID: uint64, generated: Result<uint64, Error>)
    | Get(processID: uint64, answer: Result<(seq<byte>, seq<byte>), Error>, now: nat)

  function ProofStep(proofs: seq<ProofRow>, op: ProofOp): seq<ProofRow>
  {
    match op
    case Generate(cfg, found, processID, generated) => StartProof(cfg, found.(proofs := proofs), processID, generated).0
    case Get(processID, answer, now) => FetchProof(proofs, processID, answer, now).0
  }

  function ProofRun(proofs: seq<ProofRow>, ops: seq<ProofOp>): seq<ProofRow>
    decreases |ops|
  {
    if ops == [] then proofs else ProofStep(ProofRun(proofs, ops[..|ops| - 1]), ops[|ops| - 1])
  }

  ghost predicate OneEach(proofs: seq<ProofRow>)
  {
    forall i, j | 0 <= i < j < |proofs| :: proofs[i].processID != proofs[j].processID && proofs[i].proofID != proofs[j].proofID
  }

  /** The answer for a process is one of its rows, filled in no earlier than any other; there is one if it has a row. */
  lemma {:induction false} LatestSpec(proofs: seq<ProofRow>, processID: uint64)
    ensures var r := LatestProof(proofs, processID);
            && (r.None? <==> forall row | row in proofs :: row.processID != processID)
            && (r.Some? ==> r.value in proofs && r.value.processID == processID
                            && forall row | row in proofs && row.processID == processID :: row.addedAt <= r.value.addedAt)
  {
    if proofs != [] {
      var front, last := proofs[..|proofs| - 1], proofs[|proofs| - 1];
      assert proofs == front + [last];
      LatestSpec(front, processID);
    }
  }

  // ---------------------------------------------------------------- one call, exactly

  /** The process is stored, and the block number on record is not past the start of its publishing. */
  ghost predicate GuardPasses(tables: Tables, processID: uint64)
  {
    && Storable(processID) && processID in tables.processes && tables.lastSyncBlockNum.Some?
    && tables.lastSyncBlockNum.value <= tables.processes[processID].resPubStartBlock
  }

  /**
   When GenerateProof succeeds and what it leaves behind: past its guards either the process has a proof already,
   and nothing changes, or its votes assemble, the prover gives a new id, and one empty row with this id is now
   the answer for the process and for no other.
   */
  lemma StartProofSpec(cfg: Config, tables: Tables, processID: uint64, answer: Result<uint64, Error>)
    ensures var (proofs', r) := StartProof(cfg, tables, processID, answer);
            var proofs := tables.proofs;
            var unproved := forall row | row in proofs :: row.processID != processID;
            && (r.Success? <==>
                  GuardPasses(tables, processID)
                  && (unproved ==>
                        && Assemble(cfg, tables.processes, tables.votes, processID, 128, 7).Success?
                        && answer.Success? && Storable(answer.value) && forall row | row in proofs :: row.proofID != answer.value))
            && (r.Success? && unproved ==>
                  && proofs' == proofs + [ProofRow(answer.value, [], [], 0, processID)]
                  && LatestProof(proofs', processID) == Some(ProofRow(answer.value, [], [], 0, processID))
                  && forall id | id != processID :: LatestProof(proofs', id) == LatestProof(proofs, id))
            && (r.Failure? || !unproved ==> proofs' == proofs)
  {
    LatestSpec(tables.proofs, processID);
    var (proofs', r) := StartProof(cfg, tables, processID, answer);
    if proofs' != tables.proofs {
      assert proofs'[..|tables.proofs|] == tables.proofs;
    }
  }

  /** For a process of the node's own tables the votes assemble exactly when they have room in the circuit. */
  lemma ProofStartsIff(cfg: Config, tables: Tables, processID: uint64, answer: Result<uint64, Error>)
    requires VotesValid(cfg, tables.processes, tables.votes) && LatestProof(tables.proofs, processID).None?
    ensures StartProof(cfg, tables, processID, answer).1.Success?
            <==> && GuardPasses(tables, processID)
                 && Assemblable(Select(tables.votes, processID), 128, 7)
                 && answer.Success? && Storable(answer.value) && forall row | row in tables.proofs :: row.proofID != answer.value
  {
    LatestSpec(tables.proofs, processID);
    StartProofSpec(cfg, tables, processID, answer);
    AssembleIff(cfg, tables.processes, tables.votes, processID, PROOF_MAX_VOTES, PROOF_LEVELS);
  }

  /**
   When GetProof succeeds and what it returns: the record of the process if it is complete, else the record with
   the prover's answer, which is then stored in every row with both ids. A failure changes nothing.
   */
  lemma FetchProofSpec(proofs: seq<ProofRow>, id: uint64, answer: Result<(seq<byte>, seq<byte>), Error>, now: nat)
    ensures var (proofs', r) := FetchProof(proofs, id, answer, now);
            var latest := LatestProof(proofs, id);
            && (r.Success? <==>
                  && Storable(id) && (exists row :: row in proofs && row.processID == id)
                  && (Unfilled(proofs, id) ==> answer.Success? && Storable(latest.value.proofID)))
            && (r.Success? && !Unfilled(proofs, id) ==> r.value == latest.value)
            && (r.Success? && Unfilled(proofs, id) ==>
                  && r.value == latest.value.(proof := answer.value.0, publicInputs := answer.value.1)
                  && |proofs'| == |proofs|
                  && forall i | 0 <= i < |proofs| ::
                       proofs'[i] == if proofs[i].processID == id && proofs[i].proofID == latest.value.proofID
                                     then proofs[i].(proof := answer.value.0, publicInputs := answer.value.1, addedAt := now) else proofs[i])
            && (r.Failure? || !Unfilled(proofs, id) ==> proofs' == proofs)
  {
    LatestSpec(proofs, id);
  }

  // ---------------------------------------------------------------- over runs

  /** What one call can do to the rows: nothing, one new empty row for a process without one, or filling one in. */
  ghost predicate StepIs(proofs: seq<ProofRow>, proofs': seq<ProofRow>)
  {
    || proofs' == proofs
    || (exists processID, proofID :: Started(proofs, proofs', processID, proofID))
    || (exists processID, proofID, proof, inputs, now :: Filled(proofs, proofs', processID, proofID, proof, inputs, now))
  }

  ghost predicate Started(proofs: seq<ProofRow>, proofs': seq<ProofRow>, processID: uint64, proofID: uint64)
  {
    && LatestProof(proofs, processID).None? && (forall r | r in proofs :: r.proofID != proofID)
    && proofs' == proofs + [ProofRow(proofID, [], [], 0, processID)]
  }

  ghost predicate Filled(proofs: seq<ProofRow>, proofs': seq<ProofRow>, processID: uint64, proofID: uint64, proof: seq<byte>, inputs: seq<byte>, now: nat)
  {
    Unfilled(proofs, processID) && proofs' == FillProofs(proofs, processID, proofID, proof, inputs, now)
  }

  /** The proof of the process is on record, but not filled in. */
  predicate Unfilled(proofs: seq<ProofRow>, processID: uint64)
  {
    var row := LatestProof(proofs, processID);
    row.Some? && (row.value.proof == [] || row.value.publicInputs == [])
  }

  lemma StepCases(proofs: seq<ProofRow>, op: ProofOp)
    ensures StepIs(proofs, ProofStep(proofs, op))
  {
    match op
    case Generate(cfg, found, processID, generated) =>
      var proofs' := ProofStep(proofs, op);
      if proofs' != proofs {
        assert LatestProof(proofs, processID).None? && generated.Success?;
        var proofID := generated.value;
        assert Started(proofs, proofs', processID, proofID);
      }
    case Get(processID, answer, now) =>
      var proofs' := ProofStep(proofs, op);
      if proofs' != proofs {
        var row := LatestProof(proofs, processID).value;
        assert Filled(proofs, proofs', processID, row.proofID, answer.value.0, answer.value.1, now);
      }
  }

  /** Over every run, whatever the prover answers, each process has at most one proof. */
  lemma {:induction false} OneProofEach(proofs: seq<ProofRow>, ops: seq<ProofOp>)
    requires OneEach(proofs)
    ensures OneEach(ProofRun(proofs, ops))
    decreases |ops|
  {
    if ops != [] {
      var before := ProofRun(proofs, ops[..|ops| - 1]);
      OneProofEach(proofs, ops[..|ops| - 1]);
      StepCases(before, ops[|ops| - 1]);
      StepKeepsOne(before, ProofRun(proofs, ops));
    }
  }

  lemma StepKeepsOne(proofs: seq<ProofRow>, proofs': seq<ProofRow>)
    requires OneEach(proofs) && StepIs(proofs, proofs')
    ensures OneEach(proofs')
  {
    if processID, proofID :| Started(proofs, proofs', processID, proofID) {
      LatestSpec(proofs, processID);
      forall i | 0 <= i < |proofs| ensures proofs'[i].processID != processID && proofs'[i].proofID != proofID {
        assert proofs[i] in proofs;
      }
    }
  }

  /** Filling in the proof of one process leaves the answers for every other alone. */
  lemma {:induction false} FillElsewhere(proofs: seq<ProofRow>, id: uint64, processID: uint64, proofID: uint64, proof: seq<byte>, inputs: seq<byte>, now: nat)
    requires id != processID
    ensures LatestProof(FillProofs(proofs, processID, proofID, proof, inputs, now), id) == LatestProof(proofs, id)
  {
    if proofs != [] {
      var n := |proofs| - 1;
      assert FillProofs(proofs, processID, proofID, proof, inputs, now)[..n] == FillProofs(proofs[..n], processID, proofID, proof, inputs, now);
      FillElsewhere(proofs[..n], id, processID, proofID, proof, inputs, now);
    }
  }

  lemma StepKeepsFilled(proofs: seq<ProofRow>, proofs': seq<ProofRow>, id: uint64)
    requires StepIs(proofs, proofs') && LatestProof(proofs, id).Some? && !Unfilled(proofs, id)
    ensures LatestProof(proofs', id) == LatestProof(proofs, id)
  {
    if processID, proofID :| Started(proofs, proofs', processID, proofID) {
      assert proofs'[..|proofs|] == proofs;
    } else if processID, proofID, proof, inputs, now :| Filled(proofs, proofs', processID, proofID, proof, inputs, now) {
      FillElsewhere(proofs, id, processID, proofID, proof, inputs, now);
    }
  }

  /** Once a proof and its public inputs are both there, every later GetProof returns them, over every run. */
  lemma {:induction false} WrittenOnce(proofs: seq<ProofRow>, ops: seq<ProofOp>, id: uint64, answer: Result<(seq<byte>, seq<byte>), Error>, now: nat)
    requires Storable(id) && LatestProof(proofs, id).Some? && !Unfilled(proofs, id)
    ensures LatestProof(ProofRun(proofs, ops), id) == LatestProof(proofs, id)
    ensures FetchProof(ProofRun(proofs, ops), id, answer, now) == (ProofRun(proofs, ops), Success(LatestProof(proofs, id).value))
    decreases |ops|
  {
    if ops != [] {
      var before := ProofRun(proofs, ops[..|ops| - 1]);
      WrittenOnce(proofs, ops[..|ops| - 1], id, answer, now);
      StepCases(before, ops[|ops| - 1]);
      StepKeepsFilled(before, ProofRun(proofs, ops), id);
    }
  }

  /** A first answer that is complete is the one on record, when the process has one row. */
  lemma FirstAnswerRecorded(proofs: seq<ProofRow>, id: uint64, proof: seq<byte>, inputs: seq<byte>, now: nat)
    requires OneEach(proofs) && Storable(id) && Unfilled(proofs, id) && Storable(LatestProof(proofs, id).value.proofID)
    ensures var r := FetchProof(proofs, id, Success((proof, inputs)), now);
            && r.1.Success? && r.1.value.proof == proof && r.1.value.publicInputs == inputs
            && LatestProof(r.0, id) == Some(LatestProof(proofs, id).value.(proof := proof, publicInputs := inputs, addedAt := now))
  {
    LatestSpec(proofs, id);
    var row := LatestProof(proofs, id).value;
    var proofs' := FillProofs(proofs, id, row.proofID, proof, inputs, now);
    var i :| 0 <= i < |proofs| && proofs[i] == row;
    LatestSpec(proofs', id);
    assert proofs'[i] in proofs';
    var row' := LatestProof(proofs', id).value;
    var j :| 0 <= j < |proofs'| && proofs'[j] == row';
    assert proofs[j].processID == id;
    assert i == j;
  }

  /**
   From the start to the end: once GenerateProof has started the proof of a process and the prover has answered
   with a proof and its public inputs, every later GetProof returns them, whatever calls come in between.
   */
  lemma ProofDelivered(cfg: Config, tables: Tables, processID: uint64, proofID: uint64, proof: seq<byte>, inputs: seq<byte>, now: nat,
                       ops: seq<ProofOp>, answer: Result<(seq<byte>, seq<byte>), Error>, later: nat)
    requires OneEach(tables.proofs) && LatestProof(tables.proofs, processID).None? && proof != [] && inputs != []
    requires StartProof(cfg, tables, processID, Success(proofID)).1.Success?
    ensures var started := StartProof(cfg, tables, processID, Success(proofID)).0;
            var answered := FetchProof(started, processID, Success((proof, inputs)), now).0;
            FetchProof(ProofRun(answered, ops), processID, answer, later).1 == Success(ProofRow(proofID, proof, inputs, now, processID))
  {
    LatestSpec(tables.proofs, processID);
    StartProofSpec(cfg, tables, processID, Success(proofID));
    var started := StartProof(cfg, tables, processID, Success(proofID)).0;
    assert Started(tables.proofs, started, processID, proofID);
    StepKeepsOne(tables.proofs, started);
    FirstAnswerRecorded(started, processID, proof, inputs, now);
    WrittenOnce(FetchProof(started, processID, Success((proof, inputs)), now).0, ops, processID, answer, later);
  }
}

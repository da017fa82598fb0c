/** db/: the tables of the node's database, with their keys and constraints. */
module Database {
  import opened Bytes
  import opened Results
  import opened Types

  datatype Status = On | Frozen | ProofGenerating | ProofGenerated

  datatype Process = Process(
    id: uint64, status: Status, censusRoot: seq<byte>, censusSize: uint64, ethBlockNum: uint64,
    resPubStartBlock: uint64, resPubWindow: uint64, minParticipation: uint8, minPositiveVotes: uint8, typ: uint8)

  datatype VoteRow = VoteRow(
    indx: uint64, publicKey: PubKey, weight: seq<byte>, merkleProof: PackedProof, signature: seq<byte>,
    vote: seq<byte>, processID: uint64)

  /** `addedAt` is 0 until the proof bytes have been added. */
  datatype ProofRow = ProofRow(proofID: uint64, proof: seq<byte>, publicInputs: seq<byte>, addedAt: nat, processID: uint64)

  type ProcessTable = map<uint64, Process>

  datatype Tables = Tables(processes: ProcessTable, votes: seq<VoteRow>, proofs: seq<ProofRow>, lastSyncBlockNum: Option<uint64>)

  const NO_ROWS := Tables(map[], [], [], None)

  /** database/sql refuses unsigned arguments whose high bit is set: those that a signed integer cannot hold. */
  predicate Storable(u: uint64): (fits: bool)
    ensures fits <==> ToInt64(u) == u
  {
    u < TWO_63
  }

  // ---------------------------------------------------------------- processes

  predicate StorableProcess(p: Process)
  {
    && Storable(p.id) && Storable(p.censusSize) && Storable(p.ethBlockNum)
    && Storable(p.resPubStartBlock) && Storable(p.resPubWindow)
  }

  /** A new process starts in status On; its id must be new. */
  function InsertProcess(t: ProcessTable, p: Process): Result<ProcessTable, Error>
  {
    if !StorableProcess(p) then Failure(HighBit)
    else if p.id in t then Failure(DuplicateID)
    else Success(t[p.id := p.(status := On)])
  }

  function SetStatus(t: ProcessTable, id: uint64, status: Status): ProcessTable
  {
    if id in t then t[id := t[id].(status := status)] else t
  }

  function Freeze(p: Process, block: uint64): Process
  {
    if p.resPubStartBlock <= ToInt64(block) && p.status == On then p.(status := Frozen) else p
  }

  /** Freezes every process On whose publishing has started by this block. */
  function FreezeTable(t: ProcessTable, block: uint64): ProcessTable
  {
    map id | id in t :: Freeze(t[id], block)
  }

  function ReadProcess(t: ProcessTable, id: uint64): Result<Process, Error>
  {
    if !Storable(id) then Failure(HighBit) else if id !in t then Failure(NoSuchProcess) else Success(t[id])
  }

  // ---------------------------------------------------------------- votes

  /** No weight is stored as the weight 0; the sign is lost. */
  function StoredWeight(weight: Option<int>): seq<byte>
  {
    match weight case None => MinimalBE(0) case Some(w) => MinimalBE(Abs(w))
  }

  function ToRow(processID: uint64, vp: VotePackage): VoteRow
  {
    var cp := vp.censusProof;
    VoteRow(cp.index, cp.publicKey, StoredWeight(cp.weight), cp.merkleProof, vp.signature, vp.vote, processID)
  }

  function FromRow(row: VoteRow): VotePackage
  {
    VotePackage(row.signature, CensusProof(row.indx, row.publicKey, Some(BigEndian(row.weight)), row.merkleProof), row.vote)
  }

  /** A new vote goes last; index, key and proof are unique over the whole table. */
  function InsertVote(t: ProcessTable, votes: seq<VoteRow>, processID: uint64, vp: VotePackage): Result<seq<VoteRow>, Error>
  {
    var row := ToRow(processID, vp);
    if !Storable(row.indx) || !Storable(processID) then Failure(HighBit)
    else if exists r | r in votes :: r.indx == row.indx then Failure(DuplicateIndex)
    else if exists r | r in votes :: r.publicKey == row.publicKey then Failure(DuplicateKey)
    else if exists r | r in votes :: r.merkleProof == row.merkleProof then Failure(DuplicateProof)
    else if processID !in t then Failure(NoSuchProcess)
    else Success(votes + [row])
  }

  /** Puts a row into rows sorted by index. */
  function Place(rows: seq<VoteRow>, row: VoteRow): seq<VoteRow>
  {
    if rows == [] then [row]
    else if row.indx < rows[|rows| - 1].indx then Place(rows[..|rows| - 1], row) + [rows[|rows| - 1]]
    else rows + [row]
  }

  /** The rows of one process, sorted by index. */
  function Select(votes: seq<VoteRow>, processID: uint64): seq<VoteRow>
  {
    if votes == [] then []
    else
      var before, row := Select(votes[..|votes| - 1], processID), votes[|votes| - 1];
      if row.processID == processID then Place(before, row) else before
  }

  function FromRows(rows: seq<VoteRow>): (vps: seq<VotePackage>)
    ensures |vps| == |rows|
    ensures forall i :: 0 <= i < |rows| ==> vps[i] == FromRow(rows[i])
  {
    seq(|rows|, i requires 0 <= i < |rows| => FromRow(rows[i]))
  }

  // ---------------------------------------------------------------- proofs

  function InsertProof(t: ProcessTable, proofs: seq<ProofRow>, processID: uint64, proofID: uint64): Result<seq<ProofRow>, Error>
  {
    if !Storable(processID) || !Storable(proofID) then Failure(HighBit)
    else if exists r | r in proofs :: r.proofID == proofID then Failure(DuplicateID)
    else if processID !in t then Failure(NoSuchProcess)
    else Success(proofs + [ProofRow(proofID, [], [], 0, processID)])
  }

  function FillProof(row: ProofRow, processID: uint64, proofID: uint64, proof: seq<byte>, publicInputs: seq<byte>, now: nat): ProofRow
  {
    if row.processID == processID && row.proofID == proofID then row.(proof := proof, publicInputs := publicInputs, addedAt := now) else row
  }

  /** Fills in every row with both ids. */
  function FillProofs(rows: seq<ProofRow>, processID: uint64, proofID: uint64, proof: seq<byte>, publicInputs: seq<byte>, now: nat): (r: seq<ProofRow>)
    ensures |r| == |rows|
    ensures forall i :: 0 <= i < |rows| ==> r[i] == FillProof(rows[i], processID, proofID, proof, publicInputs, now)
  {
    seq(|rows|, i requires 0 <= i < |rows| => FillProof(rows[i], processID, proofID, proof, publicInputs, now))
  }

  /** The row of the process that was added to last; among equals, the first. */
  function LatestProof(rows: seq<ProofRow>, processID: uint64): Option<ProofRow>
  {
    if rows == [] then None
    else
      var before, row := LatestProof(rows[..|rows| - 1], processID), rows[|rows| - 1];
      if row.processID != processID then before
      else if before.Some? && before.value.addedAt >= row.addedAt then before
      else Some(row)
  }

  // ---------------------------------------------------------------- the database object

  class SQLite {
    var processes: ProcessTable
    var votepackages: seq<VoteRow>
    var proofs: seq<ProofRow>
    var lastSyncBlockNum: Option<uint64>

    ghost function State(): Tables
      reads this
    {
      Tables(processes, votepackages, proofs, lastSyncBlockNum)
    }

    /** Migrate on an empty database. */
    constructor ()
      ensures State() == NO_ROWS
    {
      processes, votepackages, proofs, lastSyncBlockNum := map[], [], [], None;
    }

    method StoreProcess(p: Process) returns (r: Result<(), Error>)
      modifies this`processes
      ensures var after := InsertProcess(old(processes), p);
              && (after.Success? ==> r == Success(()) && processes == after.value)
              && (after.Failure? ==> r == Failure(after.error) && processes == old(processes))
    {
      if !StorableProcess(p) { return Failure(HighBit); }
      if p.id in processes { return Failure(DuplicateID); }
      processes := processes[p.id := p.(status := On)];
      r := Success(());
    }

    method UpdateProcessStatus(id: uint64, status: Status) returns (r: Result<(), Error>)
      modifies this`processes
      ensures if Storable(id) then r == Success(()) && processes == SetStatus(old(processes), id, status)
              else r == Failure(HighBit) && processes == old(processes)
      ensures processes.Keys == old(processes).Keys
      ensures forall i | i in processes ::
                processes[i] == old(processes)[i].(status := if i == id && Storable(id) then status else old(processes)[i].status)
    {
      if !Storable(id) { return Failure(HighBit); }
      if id in processes {
        processes := processes[id := processes[id].(status := status)];
      }
      r := Success(());
    }

    method ReadProcessByID(id: uint64) returns (r: Result<Process, Error>)
      ensures r == ReadProcess(processes, id)
    {
      if !Storable(id) { return Failure(HighBit); }
      if id !in processes { return Failure(NoSuchProcess); }
      r := Success(processes[id]);
    }

    method FrozeProcessesByCurrentBlockNum(currBlockNum: uint64)
      modifies this`processes
      ensures processes.Keys == old(processes).Keys
      ensures forall id | id in processes ::
                && processes[id] == old(processes)[id].(status := processes[id].status)
                && processes[id].status == if old(processes)[id].status == On && old(processes)[id].resPubStartBlock <= ToInt64(currBlockNum)
                                           then Frozen else old(processes)[id].status
      ensures processes == FreezeTable(old(processes), currBlockNum)
    {
      var ids := processes.Keys;
      while ids != {}
        invariant ids <= processes.Keys == old(processes).Keys
        invariant forall id | id in processes ::
                    processes[id] == if id in ids then old(processes)[id] else Freeze(old(processes)[id], currBlockNum)
        decreases |ids|
      {
        var id :| id in ids;
        if processes[id].resPubStartBlock <= ToInt64(currBlockNum) && processes[id].status == On {
          processes := processes[id := processes[id].(status := Frozen)];
        }
        ids := ids - {id};
      }
    }

    /** The matching rows, each once, in no promised order. */
    method ReadProcessesByResPubStartBlock(block: uint64) returns (r: Result<seq<Process>, Error>)
      requires forall id | id in processes :: processes[id].id == id
      ensures if Storable(block) then r.Success? && IsReadOf(processes, processes.Keys, block, r.value) else r == Failure(HighBit)
    {
      if !Storable(block) { return Failure(HighBit); }
      var rows, ids := [], processes.Keys;
      while ids != {}
        invariant ids <= processes.Keys
        invariant IsReadOf(processes, processes.Keys - ids, block, rows)
        decreases |ids|
      {
        var id :| id in ids;
        ReadOneMore(processes, processes.Keys - ids, block, rows, id);
        assert processes.Keys - (ids - {id}) == processes.Keys - ids + {id};
        if processes[id].resPubStartBlock == block {
          rows := rows + [processes[id]];
        }
        ids := ids - {id};
      }
      r := Success(rows);
    }

    /** Looks through the table for a row that stands in the way. */
    method StoreVotePackage(processID: uint64, vp: VotePackage) returns (r: Result<(), Error>)
      modifies this`votepackages
      ensures var cp := vp.censusProof;
              r.Success? <==>
                && Storable(cp.index) && Storable(processID) && processID in processes
                && forall row | row in old(votepackages) ::
                     row.indx != cp.index && row.publicKey != cp.publicKey && row.merkleProof != cp.merkleProof
      ensures votepackages == if r.Success? then old(votepackages) + [ToRow(processID, vp)] else old(votepackages)
      ensures var after := InsertVote(processes, old(votepackages), processID, vp);
              r == if after.Success? then Success(()) else Failure(after.error)
    {
      var cp := vp.censusProof;
      if !Storable(cp.index) || !Storable(processID) { return Failure(HighBit); }
      var index, key, proof := false, false, false;
      for i := 0 to |votepackages|
        invariant index <==> exists row | row in votepackages[..i] :: row.indx == cp.index
        invariant key <==> exists row | row in votepackages[..i] :: row.publicKey == cp.publicKey
        invariant proof <==> exists row | row in votepackages[..i] :: row.merkleProof == cp.merkleProof
      {
        var row := votepackages[i];
        assert votepackages[..i + 1] == votepackages[..i] + [row];
        index, key, proof := index || row.indx == cp.index, key || row.publicKey == cp.publicKey, proof || row.merkleProof == cp.merkleProof;
      }
      assert votepackages[..|votepackages|] == votepackages;
      if index { return Failure(DuplicateIndex); }
      if key { return Failure(DuplicateKey); }
      if proof { return Failure(DuplicateProof); }
      if processID !in processes { return Failure(NoSuchProcess); }
      votepackages := votepackages + [ToRow(processID, vp)];
      r := Success(());
    }

    method ReadVotePackagesByProcessID(processID: uint64) returns (r: Result<seq<VotePackage>, Error>)
      ensures r == if Storable(processID) then Success(FromRows(Select(votepackages, processID))) else Failure(HighBit)
    {
      if !Storable(processID) { return Failure(HighBit); }
      var rows, votes := Select(votepackages, processID), [];
      for i := 0 to |rows|
        invariant votes == FromRows(rows)[..i]
      {
        votes := votes + [FromRow(rows[i])];
      }
      assert FromRows(rows)[..|rows|] == FromRows(rows);
      r := Success(votes);
    }

    method StoreProofID(processID: uint64, proofID: uint64) returns (r: Result<(), Error>)
      modifies this`proofs
      ensures var after := InsertProof(processes, old(proofs), processID, proofID);
              && (after.Success? ==> r == Success(()) && proofs == after.value)
              && (after.Failure? ==> r == Failure(after.error) && proofs == old(proofs))
    {
      var after := InsertProof(processes, proofs, processID, proofID);
      if after.Failure? { return Failure(after.error); }
      proofs := after.value;
      r := Success(());
    }

    method AddProofToProofID(processID: uint64, proofID: uint64, proof: seq<byte>, publicInputs: seq<byte>, now: nat) returns (r: Result<(), Error>)
      modifies this`proofs
      ensures if Storable(processID) && Storable(proofID)
              then r == Success(()) && proofs == FillProofs(old(proofs), processID, proofID, proof, publicInputs, now)
              else r == Failure(HighBit) && proofs == old(proofs)
      ensures |proofs| == |old(proofs)|
      ensures forall i | 0 <= i < |proofs| ::
                var row := old(proofs)[i];
                proofs[i] == if r.Success? && row.processID == processID && row.proofID == proofID
                             then row.(proof := proof, publicInputs := publicInputs, addedAt := now) else row
    {
      if !Storable(processID) || !Storable(proofID) { return Failure(HighBit); }
      proofs := FillProofs(proofs, processID, proofID, proof, publicInputs, now);
      r := Success(());
    }

    method GetProofByProcessID(processID: uint64) returns (r: Result<ProofRow, Error>)
      ensures r == if !Storable(processID) then Failure(HighBit)
                   else match LatestProof(proofs, processID) case None => Failure(NoProof) case Some(row) => Success(row)
    {
      if !Storable(processID) { return Failure(HighBit); }
      var row := LatestProof(proofs, processID);
      r := if row.None? then Failure(NoProof) else Success(row.value);
    }

    method InitMeta(lastSync: uint64) returns (r: Result<(), Error>)
      modifies this`lastSyncBlockNum
      ensures if Storable(lastSync) then r == Success(()) else r == Failure(HighBit)
      ensures lastSyncBlockNum == if Storable(lastSync) && old(lastSyncBlockNum).None? then Some(lastSync) else old(lastSyncBlockNum)
    {
      if !Storable(lastSync) { return Failure(HighBit); }
      if lastSyncBlockNum.None? { lastSyncBlockNum := Some(lastSync); }
      r := Success(());
    }

    /** Without a meta row the update finds nothing to change. */
    method UpdateLastSyncBlockNum(block: uint64)
      modifies this`lastSyncBlockNum
      ensures lastSyncBlockNum == if old(lastSyncBlockNum).Some? then Some(block) else None
    {
      if lastSyncBlockNum.Some? { lastSyncBlockNum := Some(block); }
    }

    method GetLastSyncBlockNum() returns (r: Result<uint64, Error>)
      ensures r == match lastSyncBlockNum case None => Failure(NoMeta) case Some(b) => Success(b)
    {
      r := match lastSyncBlockNum case None => Failure(NoMeta) case Some(b) => Success(b);
    }
  }

  lemma ReadOneMore(t: ProcessTable, ids: set<uint64>, block: uint64, rows: seq<Process>, id: uint64)
    requires IsReadOf(t, ids, block, rows) && id in t && id !in ids && t[id].id == id
    ensures IsReadOf(t, ids + {id}, block, if t[id].resPubStartBlock == block then rows + [t[id]] else rows)
  {
    var rows' := if t[id].resPubStartBlock == block then rows + [t[id]] else rows;
    forall i, j | 0 <= i < j < |rows'| ensures rows'[i].id != rows'[j].id {
      if j == |rows| { assert rows[i] in rows; }
    }
  }

  /** `rows` holds each process named in `ids` that starts publishing at `block`, once. */
  ghost predicate IsReadOf(t: ProcessTable, ids: set<uint64>, block: uint64, rows: seq<Process>)
  {
    && (forall id | id in ids && id in t && t[id].resPubStartBlock == block :: t[id] in rows)
    && (forall p | p in rows :: p.id in ids && p.id in t && t[p.id] == p && p.resPubStartBlock == block)
    && (forall i, j | 0 <= i < j < |rows| :: rows[i].id != rows[j].id)
  }
}

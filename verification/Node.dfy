/** The voting node as a whole: events, freezes and votes in any order. */
module Node {
  import opened Bytes
  import opened Results
  import opened Trie
  import opened Types
  import C = Census
  import CL = CensusLaws
  import CR = CensusRuns
  import opened Database
  import opened EthSync
  import opened VoteTable
  import opened Votes
  import opened WitnessLaws
  import opened WitnessVerify

  datatype NodeState = NodeState(processes: ProcessTable, votes: seq<VoteRow>)

  datatype NodeOp = Sync(op: SyncOp) | Vote(processID: uint64, vp: VotePackage)

  function NodeStep(cfg: Config, s: NodeState, op: NodeOp): NodeState
  {
    match op
    case Sync(sync) => s.(processes := SyncStep(s.processes, sync))
    case Vote(processID, vp) =>
      match AcceptVote(cfg, s.processes, s.votes, processID, vp)
      case Failure(_) => s
      case Success(votes) => s.(votes := votes)
  }

  function NodeRun(cfg: Config, s: NodeState, ops: seq<NodeOp>): NodeState
    decreases |ops|
  {
    if ops == [] then s else NodeStep(cfg, NodeRun(cfg, s, ops[..|ops| - 1]), ops[|ops| - 1])
  }

  // ---------------------------------------------------------------- processes over a run

  /** A process only ever changes by being frozen. */
  ghost predicate OnlyFreezes(p: Process, q: Process)
  {
    q == p || (p.status == On && q == p.(status := Frozen))
  }

  ghost predicate Follows(t: ProcessTable, t': ProcessTable)
  {
    forall id | id in t :: id in t' && OnlyFreezes(t[id], t'[id])
  }

  lemma SyncFollows(t: ProcessTable, op: SyncOp)
    ensures Follows(t, SyncStep(t, op))
  {
    StepIsEffect(t, op);
  }

  lemma {:induction false} RunFollows(cfg: Config, s: NodeState, ops: seq<NodeOp>)
    ensures Follows(s.processes, NodeRun(cfg, s, ops).processes)
    decreases |ops|
  {
    if ops != [] {
      var before, op := NodeRun(cfg, s, ops[..|ops| - 1]), ops[|ops| - 1];
      RunFollows(cfg, s, ops[..|ops| - 1]);
      if op.Sync? { SyncFollows(before.processes, op.op); }
    }
  }

  /** A process that has left On never returns to it. */
  lemma NeverReopens(cfg: Config, s: NodeState, ops: seq<NodeOp>, id: uint64)
    requires id in s.processes && s.processes[id].status != On
    ensures id in NodeRun(cfg, s, ops).processes && NodeRun(cfg, s, ops).processes[id] == s.processes[id]
  {
    RunFollows(cfg, s, ops);
  }

  // ---------------------------------------------------------------- votes over a run

  ghost predicate NodeValid(cfg: Config, s: NodeState)
  {
    VotesValid(cfg, s.processes, s.votes)
  }

  lemma ValidFollows(cfg: Config, t: ProcessTable, t': ProcessTable, votes: seq<VoteRow>)
    requires VotesValid(cfg, t, votes) && Follows(t, t')
    ensures VotesValid(cfg, t', votes)
  {
    forall row | row in votes ensures RowValid(cfg, t', row) {
      assert RowValid(cfg, t, row);
      var vp :| CameFrom(cfg, t, row, vp);
      assert CameFrom(cfg, t', row, vp);
    }
  }

  /** The invariant of the votes table holds over every run: every row verified, none repeats an index, key or proof. */
  lemma {:induction false} RunKeepsVotesValid(cfg: Config, s: NodeState, ops: seq<NodeOp>)
    requires NodeValid(cfg, s)
    ensures NodeValid(cfg, NodeRun(cfg, s, ops))
    decreases |ops|
  {
    if ops != [] {
      var before, op := NodeRun(cfg, s, ops[..|ops| - 1]), ops[|ops| - 1];
      RunKeepsVotesValid(cfg, s, ops[..|ops| - 1]);
      match op
      case Sync(sync) =>
        SyncFollows(before.processes, sync);
        ValidFollows(cfg, before.processes, SyncStep(before.processes, sync), before.votes);
      case Vote(processID, vp) =>
        AcceptVoteSpec(cfg, before.processes, before.votes, processID, vp);
    }
  }

  /** Each row is read for its own process and for no other. */
  lemma ReadsPartition(votes: seq<VoteRow>, row: VoteRow, processID: uint64)
    requires UniqueRows(votes) && row in votes
    ensures row in Select(votes, processID) <==> row.processID == processID
  {
    SelectSpec(votes, processID);
  }

  /** Once voting has ended, the votes read for the process are fixed. */
  lemma {:induction false} ReadFixed(cfg: Config, s: NodeState, ops: seq<NodeOp>, id: uint64)
    requires id in s.processes && s.processes[id].status != On
    ensures Select(NodeRun(cfg, s, ops).votes, id) == Select(s.votes, id)
    decreases |ops|
  {
    if ops != [] {
      var front := ops[..|ops| - 1];
      var before, op := NodeRun(cfg, s, front), ops[|ops| - 1];
      ReadFixed(cfg, s, front, id);
      NeverReopens(cfg, s, front, id);
      if op.Vote? { VoteElsewhere(cfg, before, op.processID, op.vp, id); }
    }
  }

  lemma VoteElsewhere(cfg: Config, s: NodeState, processID: uint64, vp: VotePackage, id: uint64)
    requires id in s.processes && s.processes[id].status != On
    ensures Select(NodeStep(cfg, s, Vote(processID, vp)).votes, id) == Select(s.votes, id)
  {
    var r := AcceptVote(cfg, s.processes, s.votes, processID, vp);
    if r.Success? {
      assert r.value == s.votes + [ToRow(processID, vp)];
      SelectKept(s.votes, [ToRow(processID, vp)], id);
    }
  }

  /** So are its circuit inputs, whenever they are computed after that and for whatever circuit. */
  lemma InputsFixed(cfg: Config, s: NodeState, ops: seq<NodeOp>, id: uint64, nMaxVotes: nat, nLevels: nat)
    requires id in s.processes && s.processes[id].status != On
    ensures var s' := NodeRun(cfg, s, ops);
            Assemble(cfg, s'.processes, s'.votes, id, nMaxVotes, nLevels) == Assemble(cfg, s.processes, s.votes, id, nMaxVotes, nLevels)
  {
    NeverReopens(cfg, s, ops, id);
    ReadFixed(cfg, s, ops, id);
  }

  // ---------------------------------------------------------------- arrival order

  /** The table after votes for one process arrive in this order, if every one of them is accepted. */
  function AcceptAll(cfg: Config, t: ProcessTable, votes: seq<VoteRow>, processID: uint64, arrivals: seq<VotePackage>): Option<seq<VoteRow>>
    decreases |arrivals|
  {
    if arrivals == [] then Some(votes)
    else
      match AcceptAll(cfg, t, votes, processID, arrivals[..|arrivals| - 1])
      case None => None
      case Some(before) =>
        match AcceptVote(cfg, t, before, processID, arrivals[|arrivals| - 1])
        case Failure(_) => None
        case Success(after) => Some(after)
  }

  lemma {:induction false} AcceptAllAdds(cfg: Config, t: ProcessTable, votes: seq<VoteRow>, processID: uint64, arrivals: seq<VotePackage>)
    requires VotesValid(cfg, t, votes) && AcceptAll(cfg, t, votes, processID, arrivals).Some?
    ensures var after := AcceptAll(cfg, t, votes, processID, arrivals).value;
            && VotesValid(cfg, t, after)
            && forall row :: row in after <==> row in votes || exists vp :: vp in arrivals && row == ToRow(processID, vp)
    decreases |arrivals|
  {
    if arrivals != [] {
      var front, last := arrivals[..|arrivals| - 1], arrivals[|arrivals| - 1];
      assert arrivals == front + [last];
      AcceptAllAdds(cfg, t, votes, processID, front);
      var before := AcceptAll(cfg, t, votes, processID, front).value;
      AcceptVoteSpec(cfg, t, before, processID, last);
      AddedLast(votes, before, before + [ToRow(processID, last)], processID, front, last);
    }
  }

  lemma AddedLast(votes: seq<VoteRow>, before: seq<VoteRow>, after: seq<VoteRow>, processID: uint64, front: seq<VotePackage>, last: VotePackage)
    requires forall row :: row in before <==> row in votes || exists vp :: vp in front && row == ToRow(processID, vp)
    requires after == before + [ToRow(processID, last)]
    ensures forall row :: row in after <==> row in votes || exists vp :: vp in front + [last] && row == ToRow(processID, vp)
  {
    forall row ensures row in after <==> row in votes || exists vp :: vp in front + [last] && row == ToRow(processID, vp) {
      if row in before && row !in votes {
        var vp :| vp in front && row == ToRow(processID, vp);
        assert vp in front + [last];
      }
      if row == ToRow(processID, last) {
        assert last in front + [last];
      }
      if row !in votes {
        if vp :| vp in front + [last] && row == ToRow(processID, vp) {
          assert vp in front || vp == last;
        }
      }
    }
  }

  /** Two votes that can both be in the table: they share no index, no key and no proof. */
  predicate Apart(a: VotePackage, b: VotePackage)
  {
    var p, q := a.censusProof, b.censusProof;
    p.index != q.index && p.publicKey != q.publicKey && p.merkleProof != q.merkleProof
  }

  /** No vote arrives twice, and no two different votes clash. */
  ghost predicate NoClash(arrivals: multiset<VotePackage>)
  {
    && (forall vp | vp in arrivals :: arrivals[vp] == 1)
    && (forall a, b | a in arrivals && b in arrivals && a != b :: Apart(a, b))
  }

  lemma NoClashSplits(front: multiset<VotePackage>, last: VotePackage)
    ensures NoClash(front + multiset{last}) <==> NoClash(front) && forall a | a in front :: Apart(a, last)
  {
    var all := front + multiset{last};
    if NoClash(all) {
      assert all[last] == 1;
      forall a | a in front ensures front[a] == 1 && a in all && Apart(a, last) {
        assert all[a] == 1;
      }
    }
    if NoClash(front) && forall a | a in front :: Apart(a, last) {
      assert last !in front;
      forall a, b | a in all && b in all && a != b ensures Apart(a, b) {}
    }
  }

  /**
   Votes for one process are all accepted exactly when each would be accepted alone and no two of them clash:
   a condition on the votes, not on their order.
   */
  lemma {:induction false} AcceptAllIff(cfg: Config, t: ProcessTable, votes: seq<VoteRow>, processID: uint64, arrivals: seq<VotePackage>)
    requires VotesValid(cfg, t, votes)
    ensures AcceptAll(cfg, t, votes, processID, arrivals).Some?
       <==> NoClash(multiset(arrivals)) && forall vp | vp in multiset(arrivals) :: AcceptVote(cfg, t, votes, processID, vp).Success?
    decreases |arrivals|
  {
    if arrivals != [] {
      var front, last := arrivals[..|arrivals| - 1], arrivals[|arrivals| - 1];
      assert arrivals == front + [last];
      assert multiset(arrivals) == multiset(front) + multiset{last};
      AcceptAllIff(cfg, t, votes, processID, front);
      NoClashSplits(multiset(front), last);
      if AcceptAll(cfg, t, votes, processID, front).Some? {
        LastAcceptedIff(cfg, t, votes, processID, front, last);
      }
    }
  }

  lemma LastAcceptedIff(cfg: Config, t: ProcessTable, votes: seq<VoteRow>, processID: uint64, front: seq<VotePackage>, last: VotePackage)
    requires VotesValid(cfg, t, votes) && AcceptAll(cfg, t, votes, processID, front).Some?
    ensures AcceptVote(cfg, t, AcceptAll(cfg, t, votes, processID, front).value, processID, last).Success?
       <==> AcceptVote(cfg, t, votes, processID, last).Success? && forall a | a in multiset(front) :: Apart(a, last)
  {
    var before := AcceptAll(cfg, t, votes, processID, front).value;
    AcceptAllAdds(cfg, t, votes, processID, front);
    AcceptVoteSpec(cfg, t, before, processID, last);
    AcceptVoteSpec(cfg, t, votes, processID, last);
    ClearOfAll(votes, before, processID, front, ToRow(processID, last));
    assert forall a | a in front :: Apart(a, last) <==> Clear(ToRow(processID, a), ToRow(processID, last));
  }

  /** The two rows share no index, no key and no proof. */
  predicate Clear(a: VoteRow, b: VoteRow)
  {
    a.indx != b.indx && a.publicKey != b.publicKey && a.merkleProof != b.merkleProof
  }

  lemma ClearOfAll(votes: seq<VoteRow>, before: seq<VoteRow>, processID: uint64, front: seq<VotePackage>, row: VoteRow)
    requires forall r :: r in before <==> r in votes || exists vp :: vp in front && r == ToRow(processID, vp)
    ensures (forall r | r in before :: Clear(r, row))
       <==> (forall r | r in votes :: Clear(r, row)) && forall vp | vp in front :: Clear(ToRow(processID, vp), row)
  {
    if forall r | r in before :: Clear(r, row) {
      forall vp | vp in front ensures Clear(ToRow(processID, vp), row) {
        assert ToRow(processID, vp) in before;
      }
    }
  }

  /**
   The tally depends on the votes only: when votes are all accepted in one order, they are in every order, and
   the circuit inputs are the same.
   */
  lemma ArrivalOrderIrrelevant(cfg: Config, t: ProcessTable, votes: seq<VoteRow>, processID: uint64,
                               arrivals: seq<VotePackage>, arrivals': seq<VotePackage>, nMaxVotes: nat, nLevels: nat)
    requires VotesValid(cfg, t, votes) && multiset(arrivals) == multiset(arrivals')
    ensures var a, b := AcceptAll(cfg, t, votes, processID, arrivals), AcceptAll(cfg, t, votes, processID, arrivals');
            && (a.Some? <==> b.Some?)
            && (a.Some? ==> Assemble(cfg, t, a.value, processID, nMaxVotes, nLevels) == Assemble(cfg, t, b.value, processID, nMaxVotes, nLevels))
  {
    AcceptAllIff(cfg, t, votes, processID, arrivals);
    AcceptAllIff(cfg, t, votes, processID, arrivals');
    var a, b := AcceptAll(cfg, t, votes, processID, arrivals), AcceptAll(cfg, t, votes, processID, arrivals');
    if a.Some? {
      AcceptAllAdds(cfg, t, votes, processID, arrivals);
      AcceptAllAdds(cfg, t, votes, processID, arrivals');
      assert forall vp :: vp in arrivals <==> vp in multiset(arrivals);
      assert forall vp :: vp in arrivals' <==> vp in multiset(arrivals');
      OrderLeavesNoTrace(cfg, t, a.value, b.value, processID, nMaxVotes, nLevels);
    }
  }

  // ---------------------------------------------------------------- from the census to the witness

  const NEW_NODE := NodeState(map[], [])

  /**
   End to end, over every run of a census and every run of a node, for every circuit: a process over the closed
   census gets its circuit inputs exactly when its votes are 0 or 1, no more than the circuit holds, and within
   reach of its levels; in a circuit large enough for the census only the votes count. And then the inputs are
   ready for every law of assembled witnesses.
   */
  lemma ElectionAssembles(cfg: Config, census: seq<CR.Op>, ops: seq<NodeOp>, id: uint64, nMaxVotes: nat, nLevels: nat)
    requires CR.GoSlices(census) && Storable(id)
    requires var s, node := CR.Run(C.EMPTY, census), NodeRun(cfg, NEW_NODE, ops);
             s.closed && id in node.processes && RootOf(cfg, node.processes[id]) == C.CensusRoot(s).value
    ensures var s, node := CR.Run(C.EMPTY, census), NodeRun(cfg, NEW_NODE, ops);
            var r, rows := Assemble(cfg, node.processes, node.votes, id, nMaxVotes, nLevels), Select(node.votes, id);
            && (r.Success? <==>
                  && AllBinary(rows, |rows|) && |rows| <= nMaxVotes && (rows != [] ==> nLevels <= MAX_LEVELS)
                  && forall i | 0 <= i < |rows| :: InReach(rows[i].indx, s.nextIndex, nLevels))
            && (Fits(s, nMaxVotes, nLevels) ==> (r.Success? <==> AllBinary(rows, |rows|)))
            && (r.Success? ==> Ready(cfg, node.processes, node.votes, id, s, nMaxVotes, nLevels))
  {
    var s, node := CR.Run(C.EMPTY, census), NodeRun(cfg, NEW_NODE, ops);
    CR.EmptyValid();
    CR.RunValid(C.EMPTY, census);
    RunKeepsVotesValid(cfg, NEW_NODE, ops);
    AssembleOverCensusIff(cfg, node.processes, node.votes, id, s, nMaxVotes, nLevels);
    if Fits(s, nMaxVotes, nLevels) { AssemblyTotalIff(cfg, node.processes, node.votes, id, s, nMaxVotes, nLevels); }
  }

  // ---------------------------------------------------------------- a voter with a served proof

  /** The vote of a registered key: the proof the census serves, the weight on record, a signature. */
  function ServedVote(s: C.CensusState, pubK: PubKey, signature: seq<byte>, vote: seq<byte>): VotePackage
    requires C.ServeProof(s, pubK).Success?
  {
    var (index, proof) := C.ServeProof(s, pubK).value;
    VotePackage(signature, CensusProof(index, pubK, Some(BytesToIndexAndWeight(s.table[pubK]).value.1), proof), vote)
  }

  /** Every vote was cast in a process over some census, not always the same. */
  ghost predicate CensusVotes(cfg: Config, t: ProcessTable, votes: seq<VoteRow>)
  {
    forall row | row in votes :: row.processID in t && exists s :: Over(cfg, t[row.processID], s)
  }

  /**
   A voter who asks the census for a proof and signs is accepted by an open process exactly when neither the
   index nor the key has voted before, in any process over any census. The proof adds no further obstacle.
   */
  lemma ServedVoteAcceptedIff(cfg: Config, t: ProcessTable, votes: seq<VoteRow>, processID: uint64, s: C.CensusState,
                              pubK: PubKey, signature: seq<byte>, vote: seq<byte>)
    requires VotesValid(cfg, t, votes) && CensusVotes(cfg, t, votes)
    requires Storable(processID) && processID in t && t[processID].status == On && Over(cfg, t[processID], s)
    requires C.ServeProof(s, pubK).Success?
    requires SignedFor(cfg.crypto, ServedVote(s, pubK, signature, vote), cfg.chainID, processID)
    ensures var vp := ServedVote(s, pubK, signature, vote);
            AcceptVote(cfg, t, votes, processID, vp).Success?
            <==> Storable(vp.censusProof.index) && forall row | row in votes :: row.indx != vp.censusProof.index && row.publicKey != pubK
  {
    var vp := ServedVote(s, pubK, signature, vote);
    var row := ToRow(processID, vp);
    CR.ServedProofsAccepted(s, pubK);
    AcceptVoteSpec(cfg, t, votes, processID, vp);
    CheckCensusProofIff(Root(s.tree), row.merkleProof, row.indx, pubK, vp.censusProof.weight);
    VerifyIff(cfg.crypto, vp, cfg.chainID, processID, RootOf(cfg, t[processID]));
    if Storable(vp.censusProof.index) {
      assert CameFrom(cfg, t, row, vp);
      RowIsOfCensus(cfg, t, row, s);
      forall other | other in votes && other.indx != row.indx ensures other.merkleProof != row.merkleProof {
        var s' :| Over(cfg, t[other.processID], s');
        RowIsOfCensus(cfg, t, other, s');
        ProofsNeverClash(cfg, other, row, s', s);
      }
    }
  }

  /**
   So voters of unrelated censuses compete: once a vote is stored, the voter with the same index in the census
   of any other process is turned away there, although served and signed.
   */
  lemma TurnedAwayElsewhere(cfg: Config, t: ProcessTable, votes: seq<VoteRow>, processID: uint64, s: C.CensusState,
                            pubK: PubKey, signature: seq<byte>, vote: seq<byte>, other: VoteRow)
    requires other in votes && other.processID != processID
    requires C.ServeProof(s, pubK).Success? && C.ServeProof(s, pubK).value.0 == other.indx
    ensures AcceptVote(cfg, t, votes, processID, ServedVote(s, pubK, signature, vote)).Failure?
  {
    assert other.indx == ToRow(processID, ServedVote(s, pubK, signature, vote)).indx;
  }
}

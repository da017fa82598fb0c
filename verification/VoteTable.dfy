/** The votes table: what its constraints keep and what its sorted reads return. */
module VoteTable {
  import opened Bytes
  import opened Results
  import opened Types
  import opened Database

  /** No two rows share an index, a public key or a proof. */
  ghost predicate UniqueRows(votes: seq<VoteRow>)
  {
    forall i, j | 0 <= i < j < |votes| ::
      votes[i].indx != votes[j].indx && votes[i].publicKey != votes[j].publicKey && votes[i].merkleProof != votes[j].merkleProof
  }

  ghost predicate Increasing(rows: seq<VoteRow>)
  {
    forall i, j | 0 <= i < j < |rows| :: rows[i].indx < rows[j].indx
  }

  /** A vote is stored exactly when it fits, its three keys are new, and its process exists. */
  lemma InsertVoteSpec(t: ProcessTable, votes: seq<VoteRow>, processID: uint64, vp: VotePackage)
    requires UniqueRows(votes)
    ensures var r, row := InsertVote(t, votes, processID, vp), ToRow(processID, vp);
            && (r.Success? <==>
                  && Storable(row.indx) && Storable(processID) && processID in t
                  && forall other | other in votes ::
                       other.indx != row.indx && other.publicKey != row.publicKey && other.merkleProof != row.merkleProof)
            && (r.Success? ==> r.value == votes + [row] && UniqueRows(r.value))
  {}

  lemma {:induction false} PlaceSpec(rows: seq<VoteRow>, row: VoteRow)
    requires Increasing(rows) && forall r | r in rows :: r.indx != row.indx
    ensures Increasing(Place(rows, row))
    ensures |Place(rows, row)| == |rows| + 1
    ensures forall r :: r in Place(rows, row) <==> r in rows || r == row
  {
    if rows != [] {
      var front, last := rows[..|rows| - 1], rows[|rows| - 1];
      assert rows == front + [last];
      if row.indx < last.indx {
        PlaceSpec(front, row);
        PlaceBeforeLast(front, row, last);
      }
    }
  }

  lemma PlaceBeforeLast(front: seq<VoteRow>, row: VoteRow, last: VoteRow)
    requires Increasing(Place(front, row)) && row.indx < last.indx
    requires forall r | r in front :: r.indx < last.indx
    requires forall r :: r in Place(front, row) <==> r in front || r == row
    ensures Increasing(Place(front, row) + [last])
  {
    var placed := Place(front, row);
    forall i | 0 <= i < |placed| ensures placed[i].indx < last.indx {
      assert placed[i] in placed;
    }
  }

  /** A read returns exactly the rows of the process, strictly increasing in index. */
  lemma {:induction false} SelectSpec(votes: seq<VoteRow>, processID: uint64)
    requires UniqueRows(votes)
    ensures Increasing(Select(votes, processID))
    ensures forall r :: r in Select(votes, processID) <==> r in votes && r.processID == processID
  {
    if votes != [] {
      var front, last := votes[..|votes| - 1], votes[|votes| - 1];
      assert votes == front + [last];
      SelectSpec(front, processID);
      if last.processID == processID {
        forall r | r in Select(front, processID) ensures r.indx != last.indx {
          assert r in front;
        }
        PlaceSpec(Select(front, processID), last);
      }
    }
  }

  lemma {:induction false} IncreasingUnique(a: seq<VoteRow>, b: seq<VoteRow>)
    requires Increasing(a) && Increasing(b) && forall r :: r in a <==> r in b
    ensures a == b
  {
    EmptyTogether(a, b);
    if a != [] {
      var a', b' := a[..|a| - 1], b[..|b| - 1];
      var x, y := a[|a| - 1], b[|b| - 1];
      assert a == a' + [x] && b == b' + [y];
      assert x in b && y in a;
      assert x == y;
      forall r ensures r in a' <==> r in b' {
        if r in a' { assert r in b; }
        if r in b' { assert r in a; }
      }
      IncreasingUnique(a', b');
    }
  }

  lemma EmptyTogether(a: seq<VoteRow>, b: seq<VoteRow>)
    requires forall r :: r in a <==> r in b
    ensures a == [] <==> b == []
  {
    if a != [] { assert a[0] in b; }
    if b != [] { assert b[0] in a; }
  }

  /** The order in which votes arrived leaves no trace in a read. */
  lemma SelectIgnoresOrder(votes: seq<VoteRow>, votes': seq<VoteRow>, processID: uint64)
    requires UniqueRows(votes) && UniqueRows(votes')
    requires forall r: VoteRow | r.processID == processID :: r in votes <==> r in votes'
    ensures Select(votes, processID) == Select(votes', processID)
  {
    SelectSpec(votes, processID);
    SelectSpec(votes', processID);
    IncreasingUnique(Select(votes, processID), Select(votes', processID));
  }

  /** A read is fixed while no row of its process is added. */
  lemma {:induction false} SelectKept(votes: seq<VoteRow>, more: seq<VoteRow>, processID: uint64)
    requires forall r | r in more :: r.processID != processID
    ensures Select(votes + more, processID) == Select(votes, processID)
  {
    if more == [] {
      assert votes + more == votes;
    } else {
      var n := |more| - 1;
      assert (votes + more)[..|votes + more| - 1] == votes + more[..n];
      SelectKept(votes, more[..n], processID);
      assert more[n] in more;
    }
  }
}

/** types/zkinputs.go: the inputs of the circuit, in arrays of fixed size. */
module Witness {
  import opened Bytes
  import opened Results
  import opened Trie
  import opened Types

  /** One voter's part of the witness. */
  datatype Row = Row(vote: nat, index: int, pkX: nat, pkY: nat, weight: nat, s: nat, r8x: nat, r8y: nat, siblings: seq<Digest>)

  /** The contents of a ZKInputs object. */
  datatype Witness = Witness(
    chainID: int, processID: int, censusRoot: Digest, receiptsRoot: Digest, nVotes: nat, result: nat, withReceipts: nat,
    rows: seq<Row>, receiptsSiblings: seq<seq<Digest>>)

  function Zeros(n: nat): (z: seq<Digest>)
    ensures |z| == n
    ensures forall i :: 0 <= i < n ==> z[i] == Zero
  {
    seq(n, _ => Zero)
  }

  function ZeroRow(nLevels: nat): Row
  {
    Row(0, 0, 0, 0, 0, 0, 0, 0, Zeros(nLevels + 1))
  }

  /** Rows of voters who are not there. */
  function ZeroRows(n: nat, nLevels: nat): (rows: seq<Row>)
    ensures |rows| == n && forall i :: 0 <= i < n ==> rows[i] == ZeroRow(nLevels)
  {
    seq(n, _ => ZeroRow(nLevels))
  }

  function ZeroSiblings(n: nat, nLevels: nat): (lists: seq<seq<Digest>>)
    ensures |lists| == n && forall i :: 0 <= i < n ==> lists[i] == Zeros(nLevels + 1)
  {
    seq(n, _ => Zeros(nLevels + 1))
  }

  /** The siblings of a proof in the format of the circuit: zeros up to one more than the number of levels. */
  function Pad(proof: PackedProof, nLevels: nat): (r: Result<seq<Digest>, Error>)
    ensures r.Success? ==> |r.value| == nLevels + 1
  {
    if proof.Malformed? then Failure(BadProof)
    else if |proof.siblings| > nLevels then Failure(TooManySiblings)
    else Success(proof.siblings + Zeros(nLevels + 1 - |proof.siblings|))
  }

  /** The padded receipt proofs of the first `n` keys. */
  function PadReceipts(tree: Tree, keys: seq<nat>, nLevels: nat, n: nat): (r: Result<seq<seq<Digest>>, Error>)
    requires n <= |keys|
    ensures r.Success? ==> |r.value| == n
  {
    if n == 0 then Success([])
    else
      match PadReceipts(tree, keys, nLevels, n - 1)
      case Failure(e) => Failure(e)
      case Success(before) =>
        match Siblings(tree, keys[n - 1], 0)
        case None => Failure(KeyNotInTree)
        case Some(s) =>
          match Pad(Packed(s, 0), nLevels)
          case Failure(e) => Failure(e)
          case Success(b) => Success(before + [b])
  }

  /** The receipts tree of a batch of keys: its root and the padded proof of every key. */
  function Receipts(keys: seq<nat>, values: seq<KeyHash>, nLevels: nat): (r: Result<(Digest, seq<seq<Digest>>), Error>)
    requires |keys| == |values|
    ensures r.Success? ==> |r.value.1| == |keys|
  {
    var (tree, invalids) := AddBatch(Tree.Empty, keys, values, nLevels);
    if invalids != [] then Failure(ReceiptsRefused(|invalids|))
    else
      match PadReceipts(tree, keys, nLevels, |keys|)
      case Failure(e) => Failure(e)
      case Success(s) => Success((Root(tree), s))
  }

  lemma {:induction false} PadReceiptsStops(tree: Tree, keys: seq<nat>, nLevels: nat, n: nat)
    requires n <= |keys| && PadReceipts(tree, keys, nLevels, n).Failure?
    ensures PadReceipts(tree, keys, nLevels, |keys|) == PadReceipts(tree, keys, nLevels, n)
    decreases |keys| - n
  {
    if n < |keys| { PadReceiptsStops(tree, keys, nLevels, n + 1); }
  }

  method EmptyBISlice(n: nat) returns (s: array<int>)
    ensures fresh(s) && s.Length == n && forall i :: 0 <= i < n ==> s[i] == 0
  {
    s := new int[n];
    for i := 0 to n
      invariant forall j :: 0 <= j < i ==> s[j] == 0
    {
      s[i] := 0;
    }
  }

  method EmptySiblings(n: nat, nLevels: nat) returns (s: array<seq<Digest>>)
    ensures fresh(s) && s.Length == n && forall i :: 0 <= i < n ==> s[i] == Zeros(nLevels + 1)
  {
    s := new seq<Digest>[n];
    for i := 0 to n
      invariant forall j :: 0 <= j < i ==> s[j] == Zeros(nLevels + 1)
    {
      s[i] := Zeros(nLevels + 1);
    }
  }

  class ZKInputs {
    const nMaxVotes: nat
    const nLevels: nat
    var chainID: int
    var processID: int
    var censusRoot: Digest
    var receiptsRoot: Digest
    var nVotes: nat
    var result: nat
    var withReceipts: nat
    const vote: array<int>
    const index: array<int>
    const pkX: array<int>
    const pkY: array<int>
    const weight: array<int>
    const s: array<int>
    const r8x: array<int>
    const r8y: array<int>
    const siblings: array<seq<Digest>>
    const receiptsSiblings: array<seq<Digest>>

    /** The voters the arrays hold. */
    ghost var rows: seq<Row>

    ghost predicate Shape()
    {
      && vote.Length == index.Length == pkX.Length == pkY.Length == weight.Length == nMaxVotes
      && s.Length == r8x.Length == r8y.Length == siblings.Length == receiptsSiblings.Length == nMaxVotes
      && siblings != receiptsSiblings && receiptsSiblings !in Columns()
      && vote != index && vote != pkX && vote != pkY && vote != weight && vote != s && vote != r8x && vote != r8y
      && index != pkX && index != pkY && index != weight && index != s && index != r8x && index != r8y
      && pkX != pkY && pkX != weight && pkX != s && pkX != r8x && pkX != r8y
      && pkY != weight && pkY != s && pkY != r8x && pkY != r8y
      && weight != s && weight != r8x && weight != r8y
      && s != r8x && s != r8y
      && r8x != r8y
    }

    ghost function Columns(): set<object>
    {
      {vote, index, pkX, pkY, weight, s, r8x, r8y, siblings}
    }

    ghost function Repr(): set<object>
    {
      Columns() + {this, receiptsSiblings}
    }

    /** Voter `i` of the arrays is `row`. */
    ghost predicate RowIs(i: nat, row: Row)
      requires Shape() && i < nMaxVotes
      reads Columns()
    {
      && vote[i] == row.vote && index[i] == row.index && pkX[i] == row.pkX && pkY[i] == row.pkY
      && weight[i] == row.weight && s[i] == row.s && r8x[i] == row.r8x && r8y[i] == row.r8y
      && siblings[i] == row.siblings
    }

    /** The nine columns hold these voters. */
    ghost predicate RowsAre(voters: seq<Row>)
      reads Columns()
    {
      Shape() && |voters| == nMaxVotes && forall i {:trigger RowIs(i, voters[i])} :: 0 <= i < nMaxVotes ==> RowIs(i, voters[i])
    }

    ghost predicate Valid()
      reads this, Columns()
    {
      RowsAre(rows)
    }

    /** The single numbers of the witness, but for the receipts root. */
    ghost function Header(): (h: (int, int, Digest, nat, nat, nat))
      reads this
    {
      (chainID, processID, censusRoot, nVotes, result, withReceipts)
    }

    /** The object holds the witness `w`. */
    ghost predicate Holds(w: Witness)
      reads Repr()
    {
      && Valid()
      && Header() == (w.chainID, w.processID, w.censusRoot, w.nVotes, w.result, w.withReceipts)
      && receiptsRoot == w.receiptsRoot
      && rows == w.rows && receiptsSiblings[..] == w.receiptsSiblings
    }

    constructor (nMaxVotes: nat, nLevels: nat)
      ensures fresh(Repr()) && this.nMaxVotes == nMaxVotes && this.nLevels == nLevels
      ensures Holds(Witness(0, 0, Zero, Zero, 0, 0, 0, ZeroRows(nMaxVotes, nLevels), ZeroSiblings(nMaxVotes, nLevels)))
    {
      this.nMaxVotes, this.nLevels := nMaxVotes, nLevels;
      chainID, processID, censusRoot, receiptsRoot, nVotes, result, withReceipts := 0, 0, Zero, Zero, 0, 0, 0;
      var vote0 := EmptyBISlice(nMaxVotes);
      var index0 := EmptyBISlice(nMaxVotes);
      var pkX0 := EmptyBISlice(nMaxVotes);
      var pkY0 := EmptyBISlice(nMaxVotes);
      var weight0 := EmptyBISlice(nMaxVotes);
      var s0 := EmptyBISlice(nMaxVotes);
      var r8x0 := EmptyBISlice(nMaxVotes);
      var r8y0 := EmptyBISlice(nMaxVotes);
      var siblings0 := EmptySiblings(nMaxVotes, nLevels);
      var receiptsSiblings0 := EmptySiblings(nMaxVotes, nLevels);
      vote, index, pkX, pkY, weight, s, r8x, r8y := vote0, index0, pkX0, pkY0, weight0, s0, r8x0, r8y0;
      siblings, receiptsSiblings := siblings0, receiptsSiblings0;
      rows := ZeroRows(nMaxVotes, nLevels);
    }

    method SetElection(chainID: int, processID: int, censusRoot: Digest)
      requires Valid()
      modifies this`chainID, this`processID, this`censusRoot
      ensures Valid() && Header() == (chainID, processID, censusRoot, old(nVotes), old(result), old(withReceipts))
    {
      this.chainID, this.processID, this.censusRoot := chainID, processID, censusRoot;
    }

    method SetTotals(nVotes: nat, result: nat)
      requires Valid()
      modifies this`nVotes, this`result, this`withReceipts
      ensures Valid() && Header() == (old(chainID), old(processID), old(censusRoot), nVotes, result, 1)
    {
      this.nVotes, this.result, withReceipts := nVotes, result, 1;
    }

    /** Writes one voter into the arrays. */
    method SetRow(i: nat, row: Row)
      requires Valid() && i < nMaxVotes
      modifies this`rows, Columns()
      ensures Valid() && rows == old(rows)[i := row]
      ensures Header() == old(Header()) && receiptsSiblings[..] == old(receiptsSiblings[..])
    {
      vote[i] := row.vote;
      index[i] := row.index;
      pkX[i] := row.pkX;
      pkY[i] := row.pkY;
      weight[i] := row.weight;
      s[i] := row.s;
      r8x[i] := row.r8x;
      r8y[i] := row.r8y;
      siblings[i] := row.siblings;
      rows := rows[i := row];
      assert RowIs(i, row);
      forall j | 0 <= j < nMaxVotes && j != i ensures RowIs(j, rows[j]) {
        assert old(RowIs(j, rows[j]));
      }
    }

    method MerkleProofToZKInputsFormat(p: PackedProof) returns (r: Result<seq<Digest>, Error>)
      ensures r == Pad(p, nLevels)
    {
      if p.Malformed? { return Failure(BadProof); }
      if |p.siblings| > nLevels { return Failure(TooManySiblings); }
      var b := [];
      for i := 0 to |p.siblings|
        invariant b == p.siblings[..i]
      {
        b := b + [p.siblings[i]];
      }
      for i := |p.siblings| to nLevels + 1
        invariant b == p.siblings + Zeros(i - |p.siblings|)
      {
        b := b + [Zero];
      }
      r := Success(b);
    }

    /** Builds the receipts tree and writes its root and the proofs of all keys. */
    method ComputeReceipts(keys: seq<nat>, values: seq<KeyHash>) returns (r: Result<(), Error>)
      requires Valid() && |keys| == |values| <= nMaxVotes
      modifies this`receiptsRoot, receiptsSiblings
      ensures var spec := Receipts(keys, values, nLevels);
              && (spec.Failure? ==> r == Failure(spec.error))
              && (spec.Success? ==> r == Success(()) && receiptsRoot == spec.value.0
                                    && receiptsSiblings[..] == spec.value.1 + old(receiptsSiblings[..])[|keys|..])
      ensures Valid() && rows == old(rows) && Header() == old(Header())
    {
      var (tree, invalids) := AddBatch(Tree.Empty, keys, values, nLevels);
      if invalids != [] { return Failure(ReceiptsRefused(|invalids|)); }
      receiptsRoot := Root(tree);
      for i := 0 to |keys|
        invariant Valid() && rows == old(rows) && Header() == old(Header()) && receiptsRoot == Root(tree)
        invariant PadReceipts(tree, keys, nLevels, i) == Success(receiptsSiblings[..i])
        invariant receiptsSiblings[i..] == old(receiptsSiblings[..])[i..]
      {
        var b := ReceiptOf(tree, keys, i);
        if b.Failure? { return Failure(b.error); }
        ReplaceNext(receiptsSiblings[..], i, b.value);
        receiptsSiblings[i] := b.value;
      }
      r := Success(());
    }

    /** The padded proof of receipt `i`. */
    method ReceiptOf(tree: Tree, keys: seq<nat>, i: nat) returns (r: Result<seq<Digest>, Error>)
      requires i < |keys| && PadReceipts(tree, keys, nLevels, i).Success?
      ensures r.Success? ==> PadReceipts(tree, keys, nLevels, i + 1) == Success(PadReceipts(tree, keys, nLevels, i).value + [r.value])
      ensures r.Failure? ==> PadReceipts(tree, keys, nLevels, |keys|) == Failure(r.error)
    {
      var proof := Siblings(tree, keys[i], 0);
      if proof.None? {
        r := Failure(KeyNotInTree);
      } else {
        r := MerkleProofToZKInputsFormat(Packed(proof.value, 0));
      }
      if r.Failure? { PadReceiptsStops(tree, keys, nLevels, i + 1); }
    }
  }

  lemma ReplaceNext<T>(a: seq<T>, i: nat, x: T)
    requires i < |a|
    ensures a[i := x][..i + 1] == a[..i] + [x]
    ensures a[i := x][i + 1..] == a[i + 1..] == a[i..][1..]
  {}
}

/** types/types.go and types/constants.go: keys, codecs, hashes and vote verification. */
module Types {
  import opened Bytes
  import opened Results
  import opened Trie

  const MAX_LEVELS := 64
  const MAX_N_LEAFS := TWO_64 - 1
  const MAX_KEY_LEN := 8

  /** The order of the scalar field the hash works in. */
  const FIELD := 0x30644e72e131a029b85045b68181585d2833e84879b9709143e1f593f0000001

  datatype Error =
    | OutsideField | BadLength | BadSignature | SignatureRejected | BadProof | ProofRejected
    | CensusClosed | CensusNotClosed | CensusAlreadyClosed | MaxNLeafsReached | CannotAdd(count: nat)
    | UnknownKey | KeyNotInTree | LeafMismatch | CensusExists | NoSuchCensus
    | HighBit | NoSuchProcess | ProcessNotOn | DuplicateID | DuplicateIndex | DuplicateKey | DuplicateProof
    | InvalidVote | IndexOutOfRange | TooManySiblings | ReceiptsRefused(count: nat)
    | NoMeta | BlockGuard | NoProof | ProverFailed | UnrecognizedEvent

  datatype PubKey = PubKey(x: nat, y: nat)

  /**
   A packed Merkle proof. `form` tells apart byte strings that unpack to the same siblings; packing always
   yields form 0.
   */
  datatype PackedProof = Packed(siblings: seq<Digest>, form: nat) | Malformed(form: nat)

  datatype CensusProof = CensusProof(index: uint64, publicKey: PubKey, weight: Option<int>, merkleProof: PackedProof)

  datatype VotePackage = VotePackage(signature: seq<byte>, censusProof: CensusProof, vote: seq<byte>)

  datatype Signature = Signature(s: nat, r8x: nat, r8y: nat)

  /** The hash a voter signs, as a free constructor. */
  datatype Message = Message(chainID: nat, processID: nat, vote: nat)

  /** The cryptography this model does not look into. */
  datatype Crypto = Crypto(
    digestOf: seq<byte> -> Digest,
    decompress: seq<byte> -> Option<Signature>,
    verify: (PubKey, Message, Signature) -> bool)

  predicate InField(n: int)
  {
    0 <= n < FIELD
  }

  // ---------------------------------------------------------------- index and weight codec

  function Uint64ToIndex(u: uint64): (b: seq<byte>)
    ensures |b| == MAX_KEY_LEN
  {
    BigIntToBytes(MAX_KEY_LEN, ToInt64(u))
  }

  function IndexAndWeightToBytes(index: uint64, weight: int): (b: seq<byte>)
    ensures |b| == 40
  {
    Uint64ToIndex(index) + BigIntToBytes(32, weight)
  }

  function BytesToIndexAndWeight(b: seq<byte>): Result<(uint64, nat), Error>
  {
    if |b| != 40 then Failure(BadLength)
    else
      LowBytesOfValue(b[..8]);
      Pow256Values();
      Success((BytesToBigInt(b[..8]), BytesToBigInt(b[8..])))
  }

  /** The tree key of an index: the index itself up to 2^63, its distance to 2^64 beyond. */
  function IndexKey(u: uint64): (k: nat)
    ensures k == if u <= TWO_63 then u else TWO_64 - u
  {
    IndexKeyValue(u);
    BytesToBigInt(Uint64ToIndex(u))
  }

  lemma IndexKeyValue(u: uint64)
    ensures BytesToBigInt(Uint64ToIndex(u)) == if u <= TWO_63 then u else TWO_64 - u
  {
    LowBytesValue(8, Abs(ToInt64(u)));
    Pow256Values();
    SmallMod(Abs(ToInt64(u)), TWO_64);
  }

  /** What the decoder makes of any encoded pair. */
  lemma DecodedPair(i: uint64, w: int)
    ensures BytesToIndexAndWeight(IndexAndWeightToBytes(i, w)) == Success((IndexKey(i), Abs(w) % TWO_256))
  {
    var b := IndexAndWeightToBytes(i, w);
    assert b[..8] == Uint64ToIndex(i) && b[8..] == BigIntToBytes(32, w);
    LowBytesValue(32, Abs(w));
    Pow256Values();
  }

  /** The codec round trip holds on exactly these pairs. */
  lemma CodecRoundTripIff(i: uint64, w: int)
    ensures BytesToIndexAndWeight(IndexAndWeightToBytes(i, w)) == Success((i as int, w)) <==> i <= TWO_63 && 0 <= w < TWO_256
  {
    DecodedPair(i, w);
  }

  /** The decoder takes any 40 bytes, and encoding again gives them back exactly when their index is at most 2^63. */
  lemma DecodeInverseIff(b: seq<byte>)
    ensures BytesToIndexAndWeight(b).Success? <==> |b| == 40
    ensures |b| == 40 ==>
      var (i, w) := BytesToIndexAndWeight(b).value;
      IndexAndWeightToBytes(i, w) == b <==> i <= TWO_63
  {
    if |b| == 40 {
      var (i, w) := BytesToIndexAndWeight(b).value;
      assert b == b[..8] + b[8..];
      IndexBackIff(b[..8], i);
      LowBytesOfValue(b[8..]);
      assert IndexAndWeightToBytes(i, w)[..8] == Uint64ToIndex(i);
    }
  }

  lemma IndexBackIff(b: seq<byte>, i: uint64)
    requires |b| == 8 && i == BytesToBigInt(b)
    ensures Uint64ToIndex(i) == b <==> i <= TWO_63
  {
    if i <= TWO_63 {
      assert Abs(ToInt64(i)) == i;
      LowBytesOfValue(b);
    } else {
      IndexKeyValue(i);
    }
  }

  /** Two indexes share their bytes exactly when they are mirror images around 2^63. */
  lemma IndexBytesEqualIff(i: uint64, j: uint64)
    ensures Uint64ToIndex(i) == Uint64ToIndex(j) <==> i == j || i + j == TWO_64
  {
    IndexKeyValue(i);
    IndexKeyValue(j);
    LowBytesOfValue(Uint64ToIndex(i));
    LowBytesOfValue(Uint64ToIndex(j));
  }

  // ---------------------------------------------------------------- hashes and verification

  /** No weight hashes as the weight 1. */
  function HashPubKBytes(pubK: PubKey, weight: Option<int>): Result<KeyHash, Error>
  {
    var w := match weight case None => 1 case Some(n) => n;
    if InField(pubK.x) && InField(pubK.y) && InField(w) then Success(KeyHash(pubK.x, pubK.y, w)) else Failure(OutsideField)
  }

  function HashVote(chainID: uint64, processID: uint64, vote: seq<byte>): Result<Message, Error>
  {
    var (c, p, v) := (ToInt64(chainID), ToInt64(processID), BytesToBigInt(vote));
    if InField(c) && InField(p) && InField(v) then Success(Message(c, p, v)) else Failure(OutsideField)
  }

  function VerifySignature(crypto: Crypto, vp: VotePackage, chainID: uint64, processID: uint64): Result<(), Error>
  {
    match HashVote(chainID, processID, vp.vote)
    case Failure(e) => Failure(e)
    case Success(msg) =>
      match crypto.decompress(vp.signature)
      case None => Failure(BadSignature)
      case Some(sig) =>
        if crypto.verify(vp.censusProof.publicKey, msg, sig) then Success(()) else Failure(SignatureRejected)
  }

  /** arbo.CheckProof on packed siblings, as census.CheckProof and verifyMerkleProof call it. */
  function CheckCensusProof(root: Digest, proof: PackedProof, index: uint64, pubK: PubKey, weight: Option<int>): Result<bool, Error>
  {
    match HashPubKBytes(pubK, weight)
    case Failure(e) => Failure(e)
    case Success(h) =>
      if proof.Malformed? then Failure(BadProof) else Success(CheckProof(IndexKey(index), h, root, proof.siblings))
  }

  function VerifyMerkleProof(vp: VotePackage, root: Digest): Result<(), Error>
  {
    var cp := vp.censusProof;
    match CheckCensusProof(root, cp.merkleProof, cp.index, cp.publicKey, cp.weight)
    case Failure(e) => Failure(e)
    case Success(ok) => if ok then Success(()) else Failure(ProofRejected)
  }

  function Verify(crypto: Crypto, vp: VotePackage, chainID: uint64, processID: uint64, root: Digest): Result<(), Error>
  {
    match VerifySignature(crypto, vp, chainID, processID)
    case Failure(e) => Failure(e)
    case Success(_) => VerifyMerkleProof(vp, root)
  }

  /**
   What a good signature is: the chain and process ids fit a signed integer, the vote is a number of the field,
   and the signature bytes hold a signature of exactly these three under the voter's key.
   */
  ghost predicate SignedFor(crypto: Crypto, vp: VotePackage, chainID: uint64, processID: uint64)
  {
    && chainID < TWO_63 && processID < TWO_63 && BytesToBigInt(vp.vote) < FIELD
    && exists sig :: crypto.decompress(vp.signature) == Some(sig)
         && crypto.verify(vp.censusProof.publicKey, Message(chainID, processID, BytesToBigInt(vp.vote)), sig)
  }

  /**
   What a good census proof is: packed siblings that lead from the leaf of this key and weight to the root. A
   voter who names no weight claims the weight 1.
   */
  ghost predicate ProvenIn(root: Digest, proof: PackedProof, index: uint64, pubK: PubKey, weight: Option<int>)
  {
    var w := if weight.Some? then weight.value else 1;
    && pubK.x < FIELD && pubK.y < FIELD && 0 <= w < FIELD
    && proof.Packed? && CheckProof(IndexKey(index), KeyHash(pubK.x, pubK.y, w), root, proof.siblings)
  }

  lemma VerifySignatureIff(crypto: Crypto, vp: VotePackage, chainID: uint64, processID: uint64)
    ensures VerifySignature(crypto, vp, chainID, processID) == Success(()) <==> SignedFor(crypto, vp, chainID, processID)
  {
    FieldIsLarge();
  }

  lemma FieldIsLarge()
    ensures TWO_64 < FIELD < TWO_256
  {}

  lemma CheckCensusProofIff(root: Digest, proof: PackedProof, index: uint64, pubK: PubKey, weight: Option<int>)
    ensures CheckCensusProof(root, proof, index, pubK, weight) == Success(true) <==> ProvenIn(root, proof, index, pubK, weight)
  {}

  /** A vote verifies exactly when it is signed and proven; nothing is asked of its value beyond the field. */
  lemma VerifyIff(crypto: Crypto, vp: VotePackage, chainID: uint64, processID: uint64, root: Digest)
    ensures var cp := vp.censusProof;
            Verify(crypto, vp, chainID, processID, root) == Success(())
            <==> SignedFor(crypto, vp, chainID, processID) && ProvenIn(root, cp.merkleProof, cp.index, cp.publicKey, cp.weight)
  {
    VerifySignatureIff(crypto, vp, chainID, processID);
    var cp := vp.censusProof;
    CheckCensusProofIff(root, cp.merkleProof, cp.index, cp.publicKey, cp.weight);
  }

  // ---------------------------------------------------------------- receipt keys

  /** The least number of bytes that hold `nLevels` bits. */
  function KeyLen(nLevels: nat): (n: nat)
    ensures 8 * n - 8 < nLevels <= 8 * n
  {
    (nLevels + 7) / 8
  }

  /** The receipts tree key of an index: the index bytes cut to the key length of the circuit. */
  function ReceiptKey(index: uint64, nLevels: nat): seq<byte>
    requires nLevels <= MAX_LEVELS
  {
    Uint64ToIndex(index)[..KeyLen(nLevels)]
  }

  lemma {:induction false} LowBytesPrefix(c: nat, n: nat, v: nat)
    requires c <= n
    ensures LowBytes(n, v)[..c] == LowBytes(c, v)
  {
    if c > 0 {
      LowBytesPrefix(c - 1, n - 1, v / 256);
      assert LowBytes(n, v)[..c] == [v % 256] + LowBytes(n - 1, v / 256)[..c - 1];
    }
  }

  lemma Pow2Plus4(m: nat)
    ensures Pow2(m + 4) == 16 * Pow2(m)
  {
    assert Pow2(m + 2) == 4 * Pow2(m);
  }

  lemma {:induction false} Pow2OfBytes(c: nat)
    ensures Pow2(8 * c) == Pow256(c)
  {
    if c > 0 {
      Pow2OfBytes(c - 1);
      var m := 8 * c - 8;
      Pow2Plus4(m);
      Pow2Plus4(m + 4);
    }
  }

  /** Cutting the key loses nothing of an index that fits the tree. */
  lemma ReceiptKeyLossless(index: uint64, nLevels: nat)
    requires nLevels <= MAX_LEVELS && index <= TWO_63 && index < Pow2(nLevels)
    ensures BytesToBigInt(ReceiptKey(index, nLevels)) == index
  {
    var c := KeyLen(nLevels);
    LowBytesPrefix(c, MAX_KEY_LEN, index);
    LowBytesValue(c, index);
    Pow2OfBytes(c);
    Pow2Monotone(nLevels, 8 * c);
    assert index < Pow256(c);
    SmallMod(index, Pow256(c));
  }

  /** Different indexes that fit the tree keep different cut keys, different already in their lowest `nLevels` bits. */
  lemma ReceiptKeysDistinct(i: uint64, j: uint64, nLevels: nat)
    requires nLevels <= MAX_LEVELS && i <= TWO_63 && j <= TWO_63 && i < Pow2(nLevels) && j < Pow2(nLevels)
    requires i != j
    ensures ReceiptKey(i, nLevels) != ReceiptKey(j, nLevels)
    ensures Path(BytesToBigInt(ReceiptKey(i, nLevels)), nLevels) != Path(BytesToBigInt(ReceiptKey(j, nLevels)), nLevels)
  {
    ReceiptKeyLossless(i, nLevels);
    ReceiptKeyLossless(j, nLevels);
    if Path(i, nLevels) == Path(j, nLevels) {
      PathInjective(i, j, nLevels);
    }
  }

  /** A cut key reads as the tree key modulo a power of 256. */
  lemma ReceiptKeyValue(index: uint64, nLevels: nat)
    requires nLevels <= MAX_LEVELS
    ensures BytesToBigInt(ReceiptKey(index, nLevels)) == IndexKey(index) % Pow256(KeyLen(nLevels))
  {
    LowBytesPrefix(KeyLen(nLevels), MAX_KEY_LEN, Abs(ToInt64(index)));
    LowBytesValue(KeyLen(nLevels), Abs(ToInt64(index)));
  }

  /**
   Without any bound on the indexes: two cut keys are equal, and two receipts take the same path, exactly when
   the tree keys agree modulo 256 to the key length and modulo 2 to the number of levels.
   */
  lemma ReceiptKeysCollideIff(i: uint64, j: uint64, nLevels: nat)
    requires nLevels <= MAX_LEVELS
    ensures ReceiptKey(i, nLevels) == ReceiptKey(j, nLevels)
       <==> IndexKey(i) % Pow256(KeyLen(nLevels)) == IndexKey(j) % Pow256(KeyLen(nLevels))
    ensures Path(BytesToBigInt(ReceiptKey(i, nLevels)), nLevels) == Path(BytesToBigInt(ReceiptKey(j, nLevels)), nLevels)
       <==> IndexKey(i) % Pow2(nLevels) == IndexKey(j) % Pow2(nLevels)
  {
    var a, b := ReceiptKey(i, nLevels), ReceiptKey(j, nLevels);
    ReceiptKeyValue(i, nLevels);
    ReceiptKeyValue(j, nLevels);
    LowBytesOfValue(a);
    LowBytesOfValue(b);
    CutPath(IndexKey(i), nLevels);
    CutPath(IndexKey(j), nLevels);
    PathsEqualIff(IndexKey(i), IndexKey(j), nLevels);
  }

  /** Cutting a key to whole bytes keeps its path. */
  lemma CutPath(k: nat, nLevels: nat)
    ensures Path(k % Pow256(KeyLen(nLevels)), nLevels) == Path(k, nLevels)
  {
    var c := KeyLen(nLevels);
    Pow2OfBytes(c);
    PathOfRemainder(k, 8 * c);
    PathPrefix(k % Pow256(c), nLevels, 8 * c);
    PathPrefix(k, nLevels, 8 * c);
  }
}

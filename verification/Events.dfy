/** eth/eth.go: decoding the logs of the contract, against the encoding of the Solidity Contract ABI Specification. */
module Events {
  import opened Bytes
  import opened Results
  import opened Types

  const NEW_PROCESS_LEN := 320
  const RESULT_PUBLISHED_LEN := 160
  const PROCESS_CLOSED_LEN := 96

  datatype NewProcess = NewProcess(
    creator: seq<byte>, processID: uint64, txHash: seq<byte>, censusRoot: seq<byte>, censusSize: uint64,
    resPubStartBlock: uint64, resPubWindow: uint64, minParticipation: uint8, minPositiveVotes: uint8, typ: uint8)
  {
    predicate Sized() { |creator| == 20 && |txHash| == 32 && |censusRoot| == 32 }
  }

  datatype ResultPublished = ResultPublished(publisher: seq<byte>, processID: uint64, receiptsRoot: seq<byte>, result: uint64, nVotes: uint64)
  {
    predicate Sized() { |publisher| == 20 && |receiptsRoot| == 32 }
  }

  datatype ProcessClosed = ProcessClosed(caller: seq<byte>, processID: uint64, success: bool)
  {
    predicate Sized() { |caller| == 20 }
  }

  // ---------------------------------------------------------------- the parsers

  function Uint64BE(b: seq<byte>): uint64
    requires |b| == 8
  {
    FixedBEOfValue(b);
    Pow256Values();
    BigEndian(b)
  }

  function ParseNewProcess(d: seq<byte>): Result<NewProcess, Error>
  {
    if |d| != NEW_PROCESS_LEN then Failure(BadLength)
    else
      Success(NewProcess(
        d[..32][12..32], Uint64BE(d[64 - 8..64]), d[64..96], SwapEndianness(d[96..128]), Uint64BE(d[160 - 8..160]),
        Uint64BE(d[192 - 8..192]), Uint64BE(d[224 - 8..224]), d[255], d[287], d[319]))
  }

  function ParseResultPublished(d: seq<byte>): Result<ResultPublished, Error>
  {
    if |d| != RESULT_PUBLISHED_LEN then Failure(BadLength)
    else
      Success(ResultPublished(d[..32][12..32], Uint64BE(d[64 - 8..64]), SwapEndianness(d[64..96]),
                              Uint64BE(d[128 - 8..128]), Uint64BE(d[160 - 8..160])))
  }

  function ParseProcessClosed(d: seq<byte>): Result<ProcessClosed, Error>
  {
    if |d| != PROCESS_CLOSED_LEN then Failure(BadLength)
    else Success(ProcessClosed(d[..32][12..32], Uint64BE(d[64 - 8..64]), d[96 - 1] == 1))
  }

  // ---------------------------------------------------------------- the contract's side

  /** A value of one of the static types the events use; all of them are encoded as numbers. */
  datatype Arg = Address(bytes: seq<byte>) | Uint(number: nat) | Bool(truth: bool)

  function NumberOf(arg: Arg): nat
  {
    match arg
    case Address(bytes) => BigEndian(bytes)
    case Uint(number) => number
    case Bool(truth) => if truth then 1 else 0
  }

  /** Each static argument takes one word of 32 bytes, most significant byte first. */
  function AbiEncode(args: seq<Arg>): (d: seq<byte>)
    ensures |d| == 32 * |args|
  {
    if args == [] then [] else AbiEncode(args[..|args| - 1]) + FixedBE(32, NumberOf(args[|args| - 1]))
  }

  /** The arguments of EventProcessCreated, in the order the parser reads them; hashes and roots are uint256. */
  function NewProcessArgs(e: NewProcess): seq<Arg>
  {
    [Address(e.creator), Uint(e.processID), Uint(BigEndian(e.txHash)), Uint(BytesToBigInt(e.censusRoot)), Uint(e.censusSize),
     Uint(e.resPubStartBlock), Uint(e.resPubWindow), Uint(e.minParticipation), Uint(e.minPositiveVotes), Uint(e.typ)]
  }

  function ResultPublishedArgs(e: ResultPublished): seq<Arg>
  {
    [Address(e.publisher), Uint(e.processID), Uint(BytesToBigInt(e.receiptsRoot)), Uint(e.result), Uint(e.nVotes)]
  }

  function ProcessClosedArgs(e: ProcessClosed): seq<Arg>
  {
    [Address(e.caller), Uint(e.processID), Bool(e.success)]
  }

  // ---------------------------------------------------------------- words

  function WordAt(d: seq<byte>, i: nat): seq<byte>
    requires 32 * i + 32 <= |d|
  {
    d[32 * i..32 * i + 32]
  }

  lemma {:induction false} WordOfEncoding(args: seq<Arg>, i: nat)
    requires i < |args|
    ensures WordAt(AbiEncode(args), i) == FixedBE(32, NumberOf(args[i]))
  {
    var front, word := args[..|args| - 1], FixedBE(32, NumberOf(args[|args| - 1]));
    WordsOfSum(AbiEncode(front), word, |front|);
    if i < |front| { WordOfEncoding(front, i); }
  }

  lemma WordsOfSum(d: seq<byte>, word: seq<byte>, n: nat)
    requires |d| == 32 * n && |word| == 32
    ensures forall i | 0 <= i < n :: WordAt(d + word, i) == WordAt(d, i)
    ensures WordAt(d + word, n) == word
  {}

  /** Data whose words are the encodings of the arguments is the encoding. */
  lemma {:induction false} EncodingOfWords(args: seq<Arg>, d: seq<byte>)
    requires |d| == 32 * |args|
    requires forall i | 0 <= i < |args| :: WordAt(d, i) == FixedBE(32, NumberOf(args[i]))
    ensures AbiEncode(args) == d
  {
    if args != [] {
      var n := |args| - 1;
      var front := d[..32 * n];
      forall i | 0 <= i < n ensures WordAt(front, i) == FixedBE(32, NumberOf(args[..n][i])) {
        assert WordAt(front, i) == WordAt(d, i);
      }
      EncodingOfWords(args[..n], front);
      assert d == front + WordAt(d, n);
    }
  }

  /** Word `i` of the data is the encoding of argument `i`. */
  predicate WordIs(d: seq<byte>, i: nat, args: seq<Arg>)
    requires 32 * i + 32 <= |d| && i < |args|
  {
    WordAt(d, i) == FixedBE(32, NumberOf(args[i]))
  }

  lemma EncodingIff(args: seq<Arg>, d: seq<byte>)
    requires |d| == 32 * |args|
    ensures AbiEncode(args) == d <==> forall i | 0 <= i < |args| :: WordIs(d, i, args)
  {
    if AbiEncode(args) == d {
      forall i | 0 <= i < |args| ensures WordIs(d, i, args) {
        WordOfEncoding(args, i);
      }
    } else if forall i | 0 <= i < |args| :: WordIs(d, i, args) {
      forall i | 0 <= i < |args| ensures WordAt(d, i) == FixedBE(32, NumberOf(args[i])) {
        assert WordIs(d, i, args);
      }
      EncodingOfWords(args, d);
    }
  }

  function ZeroBytes(n: nat): (z: seq<byte>)
    ensures |z| == n
  {
    seq(n, _ => 0)
  }

  lemma {:induction false} FixedBEZero(n: nat)
    ensures FixedBE(n, 0) == ZeroBytes(n)
  {
    if n > 0 {
      FixedBEZero(n - 1);
      assert ZeroBytes(n) == ZeroBytes(n - 1) + [0];
    }
  }

  /** A short big-endian field fills the end of a longer one, behind zeros. */
  lemma {:induction false} FixedBEPads(k: nat, b: seq<byte>)
    ensures FixedBE(k + |b|, BigEndian(b)) == ZeroBytes(k) + b
    decreases |b|
  {
    if b == [] {
      FixedBEZero(k);
      assert ZeroBytes(k) + b == ZeroBytes(k);
    } else {
      var front, last := b[..|b| - 1], b[|b| - 1];
      FixedBEPads(k, front);
      assert BigEndian(b) / 256 == BigEndian(front) && BigEndian(b) % 256 == last;
      assert ZeroBytes(k) + front + [last] == ZeroBytes(k) + b by { assert front + [last] == b; }
    }
  }

  /** A word holds its last bytes, as a number, exactly when the bytes before them are zero. */
  lemma WordTailIff(word: seq<byte>, k: nat)
    requires |word| == 32 && k <= 32
    ensures FixedBE(32, BigEndian(word[k..])) == word <==> word[..k] == ZeroBytes(k)
  {
    FixedBEPads(k, word[k..]);
    assert k + |word[k..]| == 32;
    assert word == word[..k] + word[k..];
    assert (ZeroBytes(k) + word[k..])[..k] == ZeroBytes(k);
  }

  /** The end of the word of a small number is that number. */
  lemma WordTailValue(v: nat, k: nat)
    requires k <= 32 && v < Pow256(32 - k)
    ensures FixedBE(32, v)[k..] == FixedBE(32 - k, v)
  {
    FixedBERoundTrip(32 - k, v);
    FixedBEPads(k, FixedBE(32 - k, v));
  }

  lemma RootWord(root: seq<byte>)
    requires |root| == 32
    ensures FixedBE(32, BytesToBigInt(root)) == SwapEndianness(root)
  {
    SwapTwice(root);
    SwapReadsBigEndian(SwapEndianness(root));
    FixedBEOfValue(SwapEndianness(root));
  }

  /**
   A root survives the trip through the contract: the stored bytes, read as the tree reads them, are the
   number in the event, and the word of that number gives the stored bytes back.
   */
  lemma RootSurvives(word: seq<byte>)
    requires |word| == 32
    ensures BytesToBigInt(SwapEndianness(word)) == BigEndian(word)
    ensures SwapEndianness(FixedBE(32, BytesToBigInt(SwapEndianness(word)))) == SwapEndianness(word)
  {
    SwapReadsBigEndian(word);
    FixedBEOfValue(word);
  }

  // ---------------------------------------------------------------- round trips

  lemma AddressWord(a: seq<byte>)
    requires |a| == 20
    ensures FixedBE(32, BigEndian(a))[12..32] == a
  {
    FixedBEPads(12, a);
  }

  lemma Uint64Word(v: uint64)
    ensures BigEndian(FixedBE(32, v)[24..]) == v
  {
    Pow256Values();
    WordTailValue(v, 24);
    FixedBERoundTrip(8, v);
  }

  lemma Uint8Word(v: uint8)
    ensures FixedBE(32, v)[31] == v
  {}

  lemma BytesWord(b: seq<byte>)
    requires |b| == 32
    ensures FixedBE(32, BigEndian(b)) == b
  {
    FixedBEOfValue(b);
  }

  /** Each parser takes the data of its own length and no other, so no data is taken by two of them. */
  lemma ParsesIff(d: seq<byte>)
    ensures ParseNewProcess(d).Success? <==> |d| == NEW_PROCESS_LEN
    ensures ParseResultPublished(d).Success? <==> |d| == RESULT_PUBLISHED_LEN
    ensures ParseProcessClosed(d).Success? <==> |d| == PROCESS_CLOSED_LEN
  {}

  /** The slices of the parsers, word by word. */
  lemma NewProcessWords(d: seq<byte>)
    requires |d| == NEW_PROCESS_LEN
    ensures var e := ParseNewProcess(d).value;
            && e.creator == WordAt(d, 0)[12..32] && e.processID == BigEndian(WordAt(d, 1)[24..])
            && e.txHash == WordAt(d, 2) && e.censusRoot == SwapEndianness(WordAt(d, 3))
            && e.censusSize == BigEndian(WordAt(d, 4)[24..]) && e.resPubStartBlock == BigEndian(WordAt(d, 5)[24..])
            && e.resPubWindow == BigEndian(WordAt(d, 6)[24..]) && e.minParticipation == WordAt(d, 7)[31]
            && e.minPositiveVotes == WordAt(d, 8)[31] && e.typ == WordAt(d, 9)[31]
  {
    assert d[..32] == WordAt(d, 0);
    assert d[56..64] == WordAt(d, 1)[24..] && d[152..160] == WordAt(d, 4)[24..];
    assert d[184..192] == WordAt(d, 5)[24..] && d[216..224] == WordAt(d, 6)[24..];
  }

  lemma ResultPublishedWords(d: seq<byte>)
    requires |d| == RESULT_PUBLISHED_LEN
    ensures var e := ParseResultPublished(d).value;
            && e.publisher == WordAt(d, 0)[12..32] && e.processID == BigEndian(WordAt(d, 1)[24..])
            && e.receiptsRoot == SwapEndianness(WordAt(d, 2))
            && e.result == BigEndian(WordAt(d, 3)[24..]) && e.nVotes == BigEndian(WordAt(d, 4)[24..])
  {
    assert d[..32] == WordAt(d, 0);
    assert d[56..64] == WordAt(d, 1)[24..] && d[120..128] == WordAt(d, 3)[24..] && d[152..160] == WordAt(d, 4)[24..];
  }

  lemma ProcessClosedWords(d: seq<byte>)
    requires |d| == PROCESS_CLOSED_LEN
    ensures var e := ParseProcessClosed(d).value;
            && e.caller == WordAt(d, 0)[12..32] && e.processID == BigEndian(WordAt(d, 1)[24..])
            && (e.success <==> WordAt(d, 2)[31] == 1)
  {
    assert d[..32] == WordAt(d, 0);
    assert d[56..64] == WordAt(d, 1)[24..];
  }

  /** Decoding undoes encoding. */
  lemma NewProcessRoundTrip(e: NewProcess)
    requires e.Sized()
    ensures ParseNewProcess(AbiEncode(NewProcessArgs(e))) == Success(e)
  {
    var args := NewProcessArgs(e);
    var d := AbiEncode(args);
    NewProcessWords(d);
    var e' := ParseNewProcess(d).value;
    forall i | 0 <= i < 10 ensures WordAt(d, i) == FixedBE(32, NumberOf(args[i])) { WordOfEncoding(args, i); }
    assert e'.creator == e.creator by { AddressWord(e.creator); }
    assert e'.txHash == e.txHash by { BytesWord(e.txHash); }
    assert e'.censusRoot == e.censusRoot by { RootWord(e.censusRoot); SwapTwice(e.censusRoot); }
    assert e'.processID == e.processID by { Uint64Word(e.processID); }
    assert e'.censusSize == e.censusSize by { Uint64Word(e.censusSize); }
    assert e'.resPubStartBlock == e.resPubStartBlock by { Uint64Word(e.resPubStartBlock); }
    assert e'.resPubWindow == e.resPubWindow by { Uint64Word(e.resPubWindow); }
    assert e'.minParticipation == e.minParticipation by { Uint8Word(e.minParticipation); }
    assert e'.minPositiveVotes == e.minPositiveVotes by { Uint8Word(e.minPositiveVotes); }
    assert e'.typ == e.typ by { Uint8Word(e.typ); }
  }

  lemma ResultPublishedRoundTrip(e: ResultPublished)
    requires e.Sized()
    ensures ParseResultPublished(AbiEncode(ResultPublishedArgs(e))) == Success(e)
  {
    var args := ResultPublishedArgs(e);
    var d := AbiEncode(args);
    ResultPublishedWords(d);
    forall i | 0 <= i < 5 ensures WordAt(d, i) == FixedBE(32, NumberOf(args[i])) { WordOfEncoding(args, i); }
    AddressWord(e.publisher);
    RootWord(e.receiptsRoot);
    SwapTwice(e.receiptsRoot);
    Uint64Word(e.processID);
    Uint64Word(e.result);
    Uint64Word(e.nVotes);
  }

  lemma ProcessClosedRoundTrip(e: ProcessClosed)
    requires e.Sized()
    ensures ParseProcessClosed(AbiEncode(ProcessClosedArgs(e))) == Success(e)
  {
    var args := ProcessClosedArgs(e);
    var d := AbiEncode(args);
    ProcessClosedWords(d);
    forall i | 0 <= i < 3 ensures WordAt(d, i) == FixedBE(32, NumberOf(args[i])) { WordOfEncoding(args, i); }
    AddressWord(e.caller);
    Uint64Word(e.processID);
  }

  /** The first `k` bytes of word `i` are padding. */
  predicate PadZero(d: seq<byte>, i: nat, k: nat)
    requires 32 * i + 32 <= |d| && k <= 32
  {
    WordAt(d, i)[..k] == ZeroBytes(k)
  }

  lemma AddressWordIff(word: seq<byte>)
    requires |word| == 32
    ensures FixedBE(32, BigEndian(word[12..32])) == word <==> word[..12] == ZeroBytes(12)
  {
    assert word[12..32] == word[12..];
    WordTailIff(word, 12);
  }

  lemma Uint8WordIff(word: seq<byte>)
    requires |word| == 32
    ensures FixedBE(32, word[31]) == word <==> word[..31] == ZeroBytes(31)
  {
    assert word[31..][..0] == [];
    WordTailIff(word, 31);
  }

  lemma BoolWordIff(word: seq<byte>)
    requires |word| == 32
    ensures FixedBE(32, if word[31] == 1 then 1 else 0) == word <==> word[..31] == ZeroBytes(31) && word[31] <= 1
  {
    Uint8WordIff(word);
    if word[31] > 1 {
      assert FixedBE(32, 0)[31] == 0;
    }
  }

  lemma RootWordBack(word: seq<byte>)
    requires |word| == 32
    ensures FixedBE(32, BytesToBigInt(SwapEndianness(word))) == word
  {
    SwapReadsBigEndian(word);
    FixedBEOfValue(word);
  }

  /** Encoding undoes decoding exactly on data with zero padding; elsewhere the parser drops what it does not read. */
  lemma NewProcessInverseIff(d: seq<byte>)
    requires |d| == NEW_PROCESS_LEN
    ensures AbiEncode(NewProcessArgs(ParseNewProcess(d).value)) == d
       <==> && PadZero(d, 0, 12) && PadZero(d, 1, 24) && PadZero(d, 4, 24) && PadZero(d, 5, 24) && PadZero(d, 6, 24)
            && PadZero(d, 7, 31) && PadZero(d, 8, 31) && PadZero(d, 9, 31)
  {
    var args := NewProcessArgs(ParseNewProcess(d).value);
    EncodingIff(args, d);
    NewProcessWordsIff(d);
    if AbiEncode(args) != d {
      var i :| 0 <= i < 10 && !WordIs(d, i, args);
    }
  }

  /** The numbers of the decoded arguments, word by word. */
  lemma NewProcessNumbers(d: seq<byte>)
    requires |d| == NEW_PROCESS_LEN
    ensures var args := NewProcessArgs(ParseNewProcess(d).value);
            && NumberOf(args[0]) == BigEndian(WordAt(d, 0)[12..32]) && NumberOf(args[1]) == BigEndian(WordAt(d, 1)[24..])
            && NumberOf(args[2]) == BigEndian(WordAt(d, 2)) && NumberOf(args[3]) == BytesToBigInt(SwapEndianness(WordAt(d, 3)))
            && (forall i | 4 <= i < 7 :: NumberOf(args[i]) == BigEndian(WordAt(d, i)[24..]))
            && (forall i | 7 <= i < 10 :: NumberOf(args[i]) == WordAt(d, i)[31])
  {
    NewProcessWords(d);
  }

  lemma NewProcessWordsIff(d: seq<byte>)
    requires |d| == NEW_PROCESS_LEN
    ensures var args := NewProcessArgs(ParseNewProcess(d).value);
            && (WordIs(d, 0, args) <==> PadZero(d, 0, 12)) && (WordIs(d, 1, args) <==> PadZero(d, 1, 24))
            && WordIs(d, 2, args) && WordIs(d, 3, args)
            && (forall i | 4 <= i < 7 :: WordIs(d, i, args) <==> PadZero(d, i, 24))
            && (forall i | 7 <= i < 10 :: WordIs(d, i, args) <==> PadZero(d, i, 31))
  {
    var args := NewProcessArgs(ParseNewProcess(d).value);
    NewProcessNumbers(d);
    AddressWordIff(WordAt(d, 0));
    WordTailIff(WordAt(d, 1), 24);
    BytesWord(WordAt(d, 2));
    RootWordBack(WordAt(d, 3));
    forall i | 4 <= i < 7 ensures WordIs(d, i, args) <==> PadZero(d, i, 24) { WordTailIff(WordAt(d, i), 24); }
    forall i | 7 <= i < 10 ensures WordIs(d, i, args) <==> PadZero(d, i, 31) { Uint8WordIff(WordAt(d, i)); }
  }

  lemma ResultPublishedInverseIff(d: seq<byte>)
    requires |d| == RESULT_PUBLISHED_LEN
    ensures AbiEncode(ResultPublishedArgs(ParseResultPublished(d).value)) == d
       <==> PadZero(d, 0, 12) && PadZero(d, 1, 24) && PadZero(d, 3, 24) && PadZero(d, 4, 24)
  {
    var args := ResultPublishedArgs(ParseResultPublished(d).value);
    EncodingIff(args, d);
    ResultPublishedWordsIff(d);
    if AbiEncode(args) != d {
      var i :| 0 <= i < 5 && !WordIs(d, i, args);
    }
  }

  lemma ResultPublishedNumbers(d: seq<byte>)
    requires |d| == RESULT_PUBLISHED_LEN
    ensures var args := ResultPublishedArgs(ParseResultPublished(d).value);
            && NumberOf(args[0]) == BigEndian(WordAt(d, 0)[12..32]) && NumberOf(args[1]) == BigEndian(WordAt(d, 1)[24..])
            && NumberOf(args[2]) == BytesToBigInt(SwapEndianness(WordAt(d, 2)))
            && NumberOf(args[3]) == BigEndian(WordAt(d, 3)[24..]) && NumberOf(args[4]) == BigEndian(WordAt(d, 4)[24..])
  {
    ResultPublishedWords(d);
  }

  lemma ResultPublishedWordsIff(d: seq<byte>)
    requires |d| == RESULT_PUBLISHED_LEN
    ensures var args := ResultPublishedArgs(ParseResultPublished(d).value);
            && (WordIs(d, 0, args) <==> PadZero(d, 0, 12)) && (WordIs(d, 1, args) <==> PadZero(d, 1, 24))
            && WordIs(d, 2, args) && (WordIs(d, 3, args) <==> PadZero(d, 3, 24)) && (WordIs(d, 4, args) <==> PadZero(d, 4, 24))
  {
    ResultPublishedNumbers(d);
    AddressWordIff(WordAt(d, 0));
    WordTailIff(WordAt(d, 1), 24);
    RootWordBack(WordAt(d, 2));
    WordTailIff(WordAt(d, 3), 24);
    WordTailIff(WordAt(d, 4), 24);
  }

  lemma ProcessClosedInverseIff(d: seq<byte>)
    requires |d| == PROCESS_CLOSED_LEN
    ensures AbiEncode(ProcessClosedArgs(ParseProcessClosed(d).value)) == d
       <==> PadZero(d, 0, 12) && PadZero(d, 1, 24) && PadZero(d, 2, 31) && WordAt(d, 2)[31] <= 1
  {
    var args := ProcessClosedArgs(ParseProcessClosed(d).value);
    EncodingIff(args, d);
    ProcessClosedWordsIff(d);
    if AbiEncode(args) != d {
      var i :| 0 <= i < 3 && !WordIs(d, i, args);
    }
  }

  lemma ProcessClosedWordsIff(d: seq<byte>)
    requires |d| == PROCESS_CLOSED_LEN
    ensures var args := ProcessClosedArgs(ParseProcessClosed(d).value);
            && (WordIs(d, 0, args) <==> PadZero(d, 0, 12)) && (WordIs(d, 1, args) <==> PadZero(d, 1, 24))
            && (WordIs(d, 2, args) <==> PadZero(d, 2, 31) && WordAt(d, 2)[31] <= 1)
  {
    ProcessClosedWords(d);
    AddressWordIff(WordAt(d, 0));
    WordTailIff(WordAt(d, 1), 24);
    BoolWordIff(WordAt(d, 2));
  }
}

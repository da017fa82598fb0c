/** censusbuilder/censusbuilder.go: the registry of censuses. */
module CensusBuilder {
  import opened Bytes
  import opened Results
  import opened Trie
  import opened Types
  import opened Census
  import opened CensusLaws
  import CR = CensusRuns

  /** The registry: the next id, the censuses in memory, and those an earlier lifetime left on disk. */
  datatype Registry = Registry(next: uint64, loaded: map<uint64, CensusState>, onDisk: map<uint64, CensusState>)

  const NEW_REGISTRY := Registry(0, map[], map[])

  /** A new census takes the next id, unless its directory is there already. */
  function Create(r: Registry): Result<Registry, Error>
  {
    if r.next in r.loaded || r.next in r.onDisk then Failure(CensusExists)
    else Success(r.(next := Wrap64(r.next + 1), loaded := r.loaded[r.next := EMPTY]))
  }

  /** A census on disk is loaded when first needed, and loading reopens it. */
  function Load(r: Registry, id: uint64): Result<Registry, Error>
  {
    if id in r.loaded then Success(r)
    else if id in r.onDisk then Success(r.(loaded := r.loaded[id := r.onDisk[id].(closed := false)], onDisk := r.onDisk - {id}))
    else Failure(NoSuchCensus)
  }

  /** An operation on one census: it is loaded if need be, and then takes the step. */
  function Act(r: Registry, id: uint64, op: CR.Op): Registry
  {
    match Load(r, id)
    case Failure(_) => r
    case Success(r') => r'.(loaded := r'.loaded[id := CR.Step(r'.loaded[id], op)])
  }

  class CensusBuilder {
    var nextCensusID: uint64
    var censuses: map<uint64, Census>
    var onDisk: map<uint64, CensusState>

    /** Different ids name different objects, and nothing is both in memory and waiting on disk. */
    ghost predicate Valid()
      reads this
    {
      && (forall i, j | i in censuses && j in censuses && i != j :: censuses[i] != censuses[j])
      && censuses.Keys !! onDisk.Keys
    }

    ghost function State(): Registry
      reads this, censuses.Values
    {
      Registry(nextCensusID, map id | id in censuses :: censuses[id].State(), onDisk)
    }

    constructor (next: uint64, onDisk: map<uint64, CensusState>)
      ensures Valid() && State() == Registry(next, map[], onDisk)
      ensures censuses == map[]
    {
      nextCensusID, censuses, this.onDisk := next, map[], onDisk;
    }

    method NewCensus() returns (r: Result<uint64, Error>)
      requires Valid()
      modifies this
      ensures Valid() && fresh(censuses.Values - old(censuses.Values))
      ensures match Create(old(State()))
              case Failure(e) => r == Failure(e) && State() == old(State())
              case Success(after) => r == Success(old(nextCensusID)) && State() == after
    {
      if nextCensusID in censuses || nextCensusID in onDisk { return Failure(CensusExists); }
      r := Success(nextCensusID);
      var c := new Census(EMPTY);
      assert c.State() == EMPTY && State() == old(State());
      AddCensus(nextCensusID, c);
      ghost var added := State();
      nextCensusID := Wrap64(nextCensusID + 1);
      assert State() == added.(next := nextCensusID);
    }

    /** Puts a new object under an id of its own. */
    method AddCensus(id: uint64, c: Census)
      requires Valid() && id !in censuses && id !in onDisk && c !in censuses.Values
      modifies this`censuses
      ensures Valid() && censuses == old(censuses)[id := c]
      ensures censuses.Values == old(censuses.Values) + {c}
      ensures State() == old(State()).(loaded := old(State()).loaded[id := c.State()])
    {
      forall i | i in censuses ensures censuses[i] != c {
        assert censuses[i] in censuses.Values;
      }
      censuses := censuses[id := c];
      ValuesOfUpdate(old(censuses), id, c);
    }

    method LoadCensusIfNotYet(id: uint64) returns (r: Result<(), Error>)
      requires Valid()
      modifies this
      ensures Valid() && fresh(censuses.Values - old(censuses.Values)) && nextCensusID == old(nextCensusID)
      ensures match Load(old(State()), id)
              case Failure(e) => r == Failure(e) && State() == old(State())
              case Success(after) => r == Success(()) && State() == after && id in censuses
      ensures r.Success? <==> id in old(censuses) || id in old(onDisk)
      ensures r.Success? && id !in old(censuses) ==> censuses[id].State() == old(onDisk)[id].(closed := false) && id !in onDisk
    {
      if id !in censuses {
        if id !in onDisk { return Failure(NoSuchCensus); }
        ghost var before := State();
        var c := new Census(onDisk[id]);
        onDisk := onDisk - {id};
        assert State() == before.(onDisk := before.onDisk - {id});
        AddCensus(id, c);
      }
      r := Success(());
    }

    /** A change to one census object is a change to one entry of the registry. */
    twostate lemma OneChanged(id: uint64)
      requires id in censuses && nextCensusID == old(nextCensusID) && censuses == old(censuses) && onDisk == old(onDisk)
      requires forall i | i in censuses && i != id :: censuses[i].State() == old(censuses[i].State())
      ensures State() == old(State()).(loaded := old(State()).loaded[id := censuses[id].State()])
    {}

    method CloseCensus(id: uint64) returns (r: Result<(), Error>)
      requires Valid()
      modifies this, censuses.Values
      ensures Valid() && fresh(censuses.Values - old(censuses.Values))
      ensures State() == Act(old(State()), id, CR.Close)
      ensures match Load(old(State()), id)
              case Failure(e) => r == Failure(e)
              case Success(after) => r == if after.loaded[id].closed then Failure(CensusAlreadyClosed) else Success(())
    {
      var loaded := LoadCensusIfNotYet(id);
      if loaded.Failure? { return Failure(loaded.error); }
      label Loaded:
      r := censuses[id].Close();
      OneChanged@Loaded(id);
    }

    method AddPublicKeys(id: uint64, pubKs: seq<PubKey>, weights: seq<int>) returns (r: Result<(), Error>)
      requires Valid()
      modifies this, censuses.Values
      ensures Valid() && fresh(censuses.Values - old(censuses.Values))
      ensures State() == Act(old(State()), id, CR.Add(pubKs, weights))
      ensures match Load(old(State()), id)
              case Failure(e) => r == Failure(e)
              case Success(after) => (match AddKeys(after.loaded[id], pubKs, weights)
                                      case Failure(e) => r == Failure(e)
                                      case Success(_) => r == Success(()))
    {
      var loaded := LoadCensusIfNotYet(id);
      if loaded.Failure? { return Failure(loaded.error); }
      ghost var before := censuses[id].State();
      label Loaded:
      r := censuses[id].AddPublicKeys(pubKs, weights);
      OneChanged@Loaded(id);
      assert censuses[id].State() == CR.Step(before, CR.Add(pubKs, weights));
    }

    method SetErrMsg(id: uint64, status: string) returns (r: Result<(), Error>)
      requires Valid()
      modifies this, censuses.Values
      ensures Valid() && fresh(censuses.Values - old(censuses.Values))
      ensures State() == Act(old(State()), id, CR.SetErrMsg(status))
      ensures r == match Load(old(State()), id) case Failure(e) => Failure(e) case Success(_) => Success(())
    {
      var loaded := LoadCensusIfNotYet(id);
      if loaded.Failure? { return Failure(loaded.error); }
      label Loaded:
      censuses[id].SetErrMsg(status);
      OneChanged@Loaded(id);
      r := Success(());
    }

    method GetCensusRoot(id: uint64) returns (r: Result<Digest, Error>)
      requires Valid()
      modifies this
      ensures Valid() && fresh(censuses.Values - old(censuses.Values))
      ensures match Load(old(State()), id)
              case Failure(e) => r == Failure(e) && State() == old(State())
              case Success(after) => State() == after && r == CensusRoot(after.loaded[id])
    {
      var loaded := LoadCensusIfNotYet(id);
      if loaded.Failure? { return Failure(loaded.error); }
      r := censuses[id].GetRoot();
    }

    method GetProof(id: uint64, pubK: PubKey) returns (r: Result<(uint64, PackedProof), Error>)
      requires Valid()
      modifies this
      ensures Valid() && fresh(censuses.Values - old(censuses.Values))
      ensures match Load(old(State()), id)
              case Failure(e) => r == Failure(e) && State() == old(State())
              case Success(after) => State() == after && r == ServeProof(after.loaded[id], pubK)
    {
      var loaded := LoadCensusIfNotYet(id);
      if loaded.Failure? { return Failure(loaded.error); }
      r := censuses[id].GetProof(pubK);
    }
  }

  // ---------------------------------------------------------------- runs of the registry

  /** `Read` stands for the operations that only load a census: its root, its proofs. */
  datatype RegistryOp = New | On(id: uint64, op: CR.Op) | Read(id: uint64)

  function RegistryStep(r: Registry, op: RegistryOp): Registry
  {
    match op
    case New => (match Create(r) case Failure(_) => r case Success(r') => r')
    case On(id, censusOp) => Act(r, id, censusOp)
    case Read(id) => (match Load(r, id) case Failure(_) => r case Success(r') => r')
  }

  function RegistryRun(r: Registry, ops: seq<RegistryOp>): Registry
    decreases |ops|
  {
    if ops == [] then r else RegistryStep(RegistryRun(r, ops[..|ops| - 1]), ops[|ops| - 1])
  }

  /** What the next lifetime finds: everything on disk, nothing in memory. */
  function Restarted(r: Registry): Registry
  {
    Registry(r.next, map[], r.onDisk + r.loaded)
  }

  /** The censuses in memory and on disk are 0 .. count - 1, none of them both, and the counter is at the next id. */
  ghost predicate Numbered(r: Registry, count: nat)
  {
    && count <= TWO_64 && r.next == Wrap64(count) && r.loaded.Keys !! r.onDisk.Keys
    && forall id: uint64 :: id in r.loaded || id in r.onDisk <==> id < count
  }

  /** Ids are handed out 0, 1, 2, ... without a gap or a repeat, until all 2^64 are taken; then no more are. */
  lemma CreateNumbers(r: Registry, count: nat)
    requires Numbered(r, count)
    ensures Create(r).Success? <==> count < TWO_64
    ensures count < TWO_64 ==> r.next == count && r.next !in r.loaded && r.next !in r.onDisk && Numbered(Create(r).value, count + 1)
  {}

  lemma LoadNumbers(r: Registry, count: nat, id: uint64)
    requires Numbered(r, count)
    ensures Load(r, id).Success? <==> id < count
    ensures id < count ==> id in Load(r, id).value.loaded && Numbered(Load(r, id).value, count)
  {}

  lemma {:induction false} RunNumbers(r: Registry, first: nat, ops: seq<RegistryOp>) returns (count: nat)
    requires Numbered(r, first)
    ensures first <= count && Numbered(RegistryRun(r, ops), count)
    decreases |ops|
  {
    if ops == [] {
      count := first;
    } else {
      count := RunNumbers(r, first, ops[..|ops| - 1]);
      var before, op := RegistryRun(r, ops[..|ops| - 1]), ops[|ops| - 1];
      match op
      case New =>
        CreateNumbers(before, count);
        if count < TWO_64 { count := count + 1; }
      case On(id, censusOp) =>
        LoadNumbers(before, count, id);
      case Read(id) =>
        LoadNumbers(before, count, id);
    }
  }

  /** A restart loses no id, so the next lifetime goes on counting where this one stopped. */
  lemma RestartNumbers(r: Registry, count: nat)
    requires Numbered(r, count)
    ensures Numbered(Restarted(r), count)
  {}

  /** The operations of a run that reach the census `id`: those sent to it once it is there. */
  function Received(r: Registry, ops: seq<RegistryOp>, id: uint64): seq<CR.Op>
    decreases |ops|
  {
    if ops == [] then []
    else
      var front, op := ops[..|ops| - 1], ops[|ops| - 1];
      var before := RegistryRun(r, front);
      if op.On? && op.id == id && (id in before.loaded || id in before.onDisk) then Received(r, front, id) + [op.op]
      else Received(r, front, id)
  }

  /** The census `id` of `r'` is what it was in `r`, or a new one, after the operations it received alone. */
  ghost predicate Isolated(r: Registry, r': Registry, received: seq<CR.Op>, id: uint64)
  {
    if id in r.loaded then
      id in r'.loaded && r'.loaded[id] == CR.Run(r.loaded[id], received)
    else if id in r.onDisk then
      if id in r'.loaded then r'.loaded[id] == CR.Run(r.onDisk[id].(closed := false), received) && id !in r'.onDisk
      else id in r'.onDisk && r'.onDisk[id] == r.onDisk[id] && received == []
    else
      id !in r'.onDisk && if id in r'.loaded then r'.loaded[id] == CR.Run(EMPTY, received) else received == []
  }

  /**
   Censuses do not disturb each other: over every run from any registry, with any censuses in memory and on disk,
   each census is exactly what it would be alone, after the operations sent to it; one on disk is first reopened,
   and stays as it is until something needs it.
   */
  lemma {:induction false} CensusesIsolated(r: Registry, ops: seq<RegistryOp>, id: uint64)
    ensures Isolated(r, RegistryRun(r, ops), Received(r, ops, id), id)
    decreases |ops|
  {
    if ops != [] {
      var front, op := ops[..|ops| - 1], ops[|ops| - 1];
      CensusesIsolated(r, front, id);
      var before, received := RegistryRun(r, front), Received(r, front, id);
      if op.On? && op.id == id {
        ActIsolated(r, before, received, id, op.op);
      } else {
        OthersIsolated(r, before, received, id, op);
      }
    }
  }

  lemma ActIsolated(r: Registry, before: Registry, received: seq<CR.Op>, id: uint64, op: CR.Op)
    requires Isolated(r, before, received, id)
    ensures Isolated(r, Act(before, id, op), if id in before.loaded || id in before.onDisk then received + [op] else received, id)
  {
    assert (received + [op])[..|received|] == received;
  }

  lemma OthersIsolated(r: Registry, before: Registry, received: seq<CR.Op>, id: uint64, op: RegistryOp)
    requires Isolated(r, before, received, id) && !(op.On? && op.id == id)
    ensures Isolated(r, RegistryStep(before, op), received, id)
  {}

  // ---------------------------------------------------------------- across a restart

  /**
   What a restart keeps, end to end: after any run of the next lifetime that leaves the census closed, proofs are
   served to exactly the keys that were on record before and those of the batches accepted since, with the index
   and weight last given to each, and each is accepted.
   */
  lemma ServedAfterRestart(next: uint64, disk: map<uint64, CensusState>, ops: seq<RegistryOp>, id: uint64, pubK: PubKey)
    requires id in disk && Valid(disk[id])
    requires var r := Registry(next, map[], disk);
             && CR.GoSlices(Received(r, ops, id))
             && id in RegistryRun(r, ops).loaded && RegistryRun(r, ops).loaded[id].closed
    ensures var r := Registry(next, map[], disk);
            var s, given := RegistryRun(r, ops).loaded[id], CR.Recorded(disk[id]) + CR.Assigned(disk[id].(closed := false), Received(r, ops, id));
            && (ServeProof(s, pubK).Success? <==> pubK in given)
            && (pubK in given ==>
                  var (index, proof) := ServeProof(s, pubK).value;
                  index == given[pubK].0 && CheckCensusProof(Root(s.tree), proof, index, pubK, Some(given[pubK].1)) == Success(true))
  {
    var r := Registry(next, map[], disk);
    CensusesIsolated(r, ops, id);
    CR.ReopenedValid(disk[id]);
    CR.ServedOverRuns(disk[id].(closed := false), Received(r, ops, id), pubK);
  }

  /** A census closed again right after a restart serves what it served before, for the same root. */
  lemma ReloadAndClose(next: uint64, disk: map<uint64, CensusState>, id: uint64, pubK: PubKey)
    requires id in disk && Valid(disk[id])
    ensures var s := disk[id].(closed := true);
            var r := RegistryRun(Registry(next, map[], disk), [On(id, CR.Close)]);
            && id in r.loaded && r.loaded[id] == s
            && CensusRoot(r.loaded[id]) == Success(Root(disk[id].tree))
            && (ServeProof(r.loaded[id], pubK).Success? <==> pubK in disk[id].table)
            && (pubK in disk[id].table ==>
                  ServeProof(r.loaded[id], pubK).value.0 == BytesToIndexAndWeight(disk[id].table[pubK]).value.0)
  {
    var start := Registry(next, map[], disk);
    assert RegistryRun(start, []) == start;
    assert RegistryRun(start, [On(id, CR.Close)]) == Act(start, id, CR.Close);
    CR.StepValid(disk[id], CR.Close);
    CR.ServedProofsAccepted(disk[id].(closed := true), pubK);
  }

  lemma ValuesOfUpdate<K, V>(m: map<K, V>, k: K, v: V)
    requires k !in m
    ensures m[k := v].Values == m.Values + {v}
  {
    var m' := m[k := v];
    assert m'[k] == v;
    forall x | x in m.Values ensures x in m'.Values {
      var i :| i in m && m[i] == x;
      assert m'[i] == x;
    }
  }
}

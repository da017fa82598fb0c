/** eth/eth.go and eth/tester.go: the process table follows the contract. */
module EthSync {
  import opened Bytes
  import opened Results
  import opened Types
  import opened Database
  import opened Events

  datatype Log = Log(blockNumber: uint64, data: seq<byte>)

  /** The process a log creates, if it is a creation log. */
  function ProcessOf(log: Log): Option<Process>
  {
    match ParseNewProcess(log.data)
    case Failure(_) => None
    case Success(e) =>
      Some(Process(e.processID, On, e.censusRoot, e.censusSize, log.blockNumber, e.resPubStartBlock, e.resPubWindow,
                   e.minParticipation, e.minPositiveVotes, e.typ))
  }

  /** Logs are told apart by their length; only creation logs change the table. */
  function Deliver(t: ProcessTable, log: Log): (ProcessTable, Result<(), Error>)
  {
    match ProcessOf(log)
    case Some(p) =>
      (match InsertProcess(t, p)
       case Failure(e) => (t, Failure(e))
       case Success(t') => (t', Success(())))
    case None =>
      if |log.data| == RESULT_PUBLISHED_LEN || |log.data| == PROCESS_CLOSED_LEN then (t, Success(()))
      else (t, Failure(UnrecognizedEvent))
  }

  function DeliverAll(t: ProcessTable, logs: seq<Log>): ProcessTable
  {
    if logs == [] then t else Deliver(DeliverAll(t, logs[..|logs| - 1]), logs[|logs| - 1]).0
  }

  class Client {
    const db: SQLite

    constructor (db: SQLite)
      ensures this.db == db
    {
      this.db := db;
    }

    method ProcessEventLog(log: Log) returns (r: Result<(), Error>)
      modifies db`processes
      ensures (db.processes, r) == Deliver(old(db.processes), log)
    {
      var l := |log.data|;
      if l == NEW_PROCESS_LEN {
        var e := ParseNewProcess(log.data).value;
        r := db.StoreProcess(Process(e.processID, On, e.censusRoot, e.censusSize, log.blockNumber, e.resPubStartBlock,
                                     e.resPubWindow, e.minParticipation, e.minPositiveVotes, e.typ));
      } else if l == RESULT_PUBLISHED_LEN || l == PROCESS_CLOSED_LEN {
        r := Success(());
      } else {
        r := Failure(UnrecognizedEvent);
      }
    }

    /** Replays logs; the ones that fail are logged and passed over. */
    method SyncEventsHistory(logs: Result<seq<Log>, Error>) returns (r: Result<(), Error>)
      modifies db`processes
      ensures match logs
              case Failure(e) => r == Failure(e) && db.processes == old(db.processes)
              case Success(ls) => r == Success(()) && db.processes == DeliverAll(old(db.processes), ls)
    {
      if logs.Failure? { return Failure(logs.error); }
      var ls := logs.value;
      for i := 0 to |ls|
        invariant db.processes == DeliverAll(old(db.processes), ls[..i])
      {
        var _ := ProcessEventLog(ls[i]);
        assert ls[..i + 1][..i] == ls[..i];
      }
      assert ls[..|ls|] == ls;
      r := Success(());
    }

    method SyncHistory(currBlockNum: Result<uint64, Error>, logs: Result<seq<Log>, Error>) returns (r: Result<(), Error>)
      modifies db`processes
      ensures if currBlockNum.Success? && logs.Success?
              then r == Success(()) && db.processes == FreezeTable(DeliverAll(old(db.processes), logs.value), currBlockNum.value)
              else r.Failure? && db.processes == old(db.processes)
    {
      if currBlockNum.Failure? { return Failure(currBlockNum.error); }
      r := SyncEventsHistory(logs);
      if r.Failure? { return r; }
      db.FrozeProcessesByCurrentBlockNum(currBlockNum.value);
    }
  }

  /**
   From the contract to the table: the log of an announced process stores a row with the announced values, in
   status On, when its id is new and its numbers fit the database; otherwise the table stays as it is.
   */
  lemma AnnouncedProcessStored(t: ProcessTable, block: uint64, e: NewProcess)
    requires e.Sized()
    ensures var t' := Deliver(t, Log(block, AbiEncode(NewProcessArgs(e)))).0;
            var fits := Storable(e.processID) && Storable(e.censusSize) && Storable(block) && Storable(e.resPubStartBlock) && Storable(e.resPubWindow);
            if fits && e.processID !in t then
              && t'.Keys == t.Keys + {e.processID} && (forall id | id in t :: t'[id] == t[id])
              && var p := t'[e.processID];
                 && p.id == e.processID && p.status == On && p.ethBlockNum == block && p.resPubStartBlock == e.resPubStartBlock
                 && p.resPubWindow == e.resPubWindow && p.censusRoot == e.censusRoot && p.censusSize == e.censusSize
                 && p.minParticipation == e.minParticipation && p.minPositiveVotes == e.minPositiveVotes && p.typ == e.typ
            else t' == t
  {
    NewProcessRoundTrip(e);
  }

  /**
   What becomes of any log. One of the length of a creation event creates its process if that fits and is new; the
   two other events are accepted without effect; all else is an error, and no error changes the table.
   */
  lemma DeliverSpec(t: ProcessTable, log: Log)
    ensures var (t', r) := Deliver(t, log);
            && (ProcessOf(log).Some? <==> |log.data| == NEW_PROCESS_LEN)
            && (r.Success? <==>
                  if |log.data| == NEW_PROCESS_LEN then StorableProcess(ProcessOf(log).value) && ProcessOf(log).value.id !in t
                  else |log.data| == RESULT_PUBLISHED_LEN || |log.data| == PROCESS_CLOSED_LEN)
            && t' == (if r.Success? && |log.data| == NEW_PROCESS_LEN then t[ProcessOf(log).value.id := ProcessOf(log).value] else t)
            && (|log.data| == NEW_PROCESS_LEN ==> ProcessOf(log).value.status == On && ProcessOf(log).value.ethBlockNum == log.blockNumber)
  {}

  // ---------------------------------------------------------------- confluence of creations and freezes

  /** What one step of synchronisation does to the table. */
  datatype Effect = Create(p: Process) | Frost(block: uint64) | Nothing

  function Apply(t: ProcessTable, e: Effect): ProcessTable
  {
    match e
    case Create(p) => if p.id in t then t else t[p.id := p]
    case Frost(block) => FreezeTable(t, block)
    case Nothing => t
  }

  function ApplyAll(t: ProcessTable, es: seq<Effect>): ProcessTable
    decreases |es|
  {
    if es == [] then t else Apply(ApplyAll(t, es[..|es| - 1]), es[|es| - 1])
  }

  ghost predicate OnePerID(es: seq<Effect>)
  {
    forall p, p' | Create(p) in es && Create(p') in es && p.id == p'.id :: p == p'
  }

  /** No freeze is ahead of block `last`. */
  ghost predicate FrostBy(es: seq<Effect>, last: uint64)
  {
    forall b | Frost(b) in es :: ToInt64(b) <= ToInt64(last)
  }

  /** What a process with this id is in the end: the one there at first, or the one created, once frozen. */
  ghost predicate SettledAt(t: ProcessTable, t': ProcessTable, es: seq<Effect>, last: uint64, id: uint64)
  {
    if id in t then id in t' && Freeze(t'[id], last) == Freeze(t[id], last)
    else if id in t' then exists p :: Create(p) in es && p.id == id && Freeze(t'[id], last) == Freeze(p, last)
    else forall p | Create(p) in es :: p.id != id
  }

  lemma FreezeAbsorbs(p: Process, b: uint64, last: uint64)
    requires ToInt64(b) <= ToInt64(last)
    ensures Freeze(Freeze(p, b), last) == Freeze(p, last)
  {}

  lemma {:induction false} AllSettle(t: ProcessTable, es: seq<Effect>, last: uint64, id: uint64)
    requires FrostBy(es, last)
    ensures SettledAt(t, ApplyAll(t, es), es, last, id)
    decreases |es|
  {
    if es != [] {
      var front, e := es[..|es| - 1], es[|es| - 1];
      assert es == front + [e];
      assert e in es && forall x | x in front :: x in es;
      AllSettle(t, front, last, id);
      OneSettles(t, ApplyAll(t, front), front, e, es, last, id);
    }
  }

  lemma OneSettles(t: ProcessTable, t': ProcessTable, front: seq<Effect>, e: Effect, es: seq<Effect>, last: uint64, id: uint64)
    requires SettledAt(t, t', front, last, id) && FrostBy(es, last)
    requires es == front + [e]
    ensures SettledAt(t, Apply(t', e), es, last, id)
  {
    assert e in es;
    var t'' := Apply(t', e);
    if e.Frost? && id in t' { FreezeAbsorbs(t'[id], e.block, last); }
    if id !in t {
      if id in t' {
        var p :| Create(p) in front && p.id == id && Freeze(t'[id], last) == Freeze(p, last);
        assert Create(p) in es;
        assert Freeze(t''[id], last) == Freeze(p, last);
      } else if id in t'' {
        assert Create(e.p) in es;
      } else {
        forall p | Create(p) in es ensures p.id != id {
          assert Create(p) in front || Create(p) == e;
        }
      }
    }
  }

  lemma SettledAgree(t: ProcessTable, a: ProcessTable, b: ProcessTable, es: seq<Effect>, es': seq<Effect>, last: uint64, id: uint64)
    requires SettledAt(t, a, es, last, id) && SettledAt(t, b, es', last, id)
    requires OnePerID(es) && forall p :: Create(p) in es <==> Create(p) in es'
    ensures id in a <==> id in b
    ensures id in a ==> Freeze(a[id], last) == Freeze(b[id], last)
  {}

  lemma EffectsConfluent(t: ProcessTable, es: seq<Effect>, es': seq<Effect>, last: uint64)
    requires forall p :: Create(p) in es <==> Create(p) in es'
    requires OnePerID(es) && FrostBy(es, last) && FrostBy(es', last)
    ensures FreezeTable(ApplyAll(t, es), last) == FreezeTable(ApplyAll(t, es'), last)
  {
    var a, b := ApplyAll(t, es), ApplyAll(t, es');
    forall id ensures (id in a <==> id in b) && (id in a ==> Freeze(a[id], last) == Freeze(b[id], last)) {
      AllSettle(t, es, last, id);
      AllSettle(t, es', last, id);
      SettledAgree(t, a, b, es, es', last, id);
    }
  }

  // ---------------------------------------------------------------- confluence of event delivery

  datatype SyncOp = Delivered(log: Log) | Froze(block: uint64)

  function SyncStep(t: ProcessTable, op: SyncOp): ProcessTable
  {
    match op
    case Delivered(log) => Deliver(t, log).0
    case Froze(block) => FreezeTable(t, block)
  }

  function SyncRun(t: ProcessTable, ops: seq<SyncOp>): ProcessTable
    decreases |ops|
  {
    if ops == [] then t else SyncStep(SyncRun(t, ops[..|ops| - 1]), ops[|ops| - 1])
  }

  /** The log creates this process, and the database can hold it. */
  predicate Creates(log: Log, p: Process)
  {
    ProcessOf(log) == Some(p) && StorableProcess(p)
  }

  function EffectOf(op: SyncOp): Effect
  {
    match op
    case Froze(block) => Frost(block)
    case Delivered(log) =>
      match ProcessOf(log)
      case None => Nothing
      case Some(p) => if StorableProcess(p) then Create(p) else Nothing
  }

  function EffectsOf(ops: seq<SyncOp>): (es: seq<Effect>)
    ensures |es| == |ops| && forall i :: 0 <= i < |ops| ==> es[i] == EffectOf(ops[i])
  {
    seq(|ops|, i requires 0 <= i < |ops| => EffectOf(ops[i]))
  }

  lemma StepIsEffect(t: ProcessTable, op: SyncOp)
    ensures SyncStep(t, op) == Apply(t, EffectOf(op))
  {}

  lemma {:induction false} RunIsEffects(t: ProcessTable, ops: seq<SyncOp>)
    ensures SyncRun(t, ops) == ApplyAll(t, EffectsOf(ops))
    decreases |ops|
  {
    if ops != [] {
      var n := |ops| - 1;
      assert EffectsOf(ops)[..n] == EffectsOf(ops[..n]);
      RunIsEffects(t, ops[..n]);
      StepIsEffect(SyncRun(t, ops[..n]), ops[n]);
    }
  }

  lemma CreationIff(ops: seq<SyncOp>, p: Process)
    ensures Create(p) in EffectsOf(ops) <==> exists log :: Delivered(log) in ops && Creates(log, p)
  {
    var es := EffectsOf(ops);
    if Create(p) in es {
      var i :| 0 <= i < |es| && es[i] == Create(p);
      assert ops[i] in ops && Creates(ops[i].log, p);
    }
    if log :| Delivered(log) in ops && Creates(log, p) {
      var i :| 0 <= i < |ops| && ops[i] == Delivered(log);
      assert es[i] == Create(p);
    }
  }

  /** Each process id has one creation event, however often it is delivered. */
  ghost predicate OneCreationEach(ops: seq<SyncOp>)
  {
    forall log, log', p, p' |
      Delivered(log) in ops && Delivered(log') in ops && Creates(log, p) && Creates(log', p') && p.id == p'.id :: p == p'
  }

  /** No freeze of the run is ahead of block `last`. */
  ghost predicate FreezesBy(ops: seq<SyncOp>, last: uint64)
  {
    forall b | Froze(b) in ops :: ToInt64(b) <= ToInt64(last)
  }

  lemma FreezesAreFrost(ops: seq<SyncOp>, last: uint64)
    requires FreezesBy(ops, last)
    ensures FrostBy(EffectsOf(ops), last)
  {
    var es := EffectsOf(ops);
    forall b | Frost(b) in es ensures ToInt64(b) <= ToInt64(last) {
      var i :| 0 <= i < |es| && es[i] == Frost(b);
      assert ops[i] == Froze(b);
    }
  }

  lemma CreationsAreOne(ops: seq<SyncOp>)
    requires OneCreationEach(ops)
    ensures OnePerID(EffectsOf(ops))
  {
    var es := EffectsOf(ops);
    forall p, p' | Create(p) in es && Create(p') in es && p.id == p'.id ensures p == p' {
      CreationIff(ops, p);
      CreationIff(ops, p');
    }
  }

  /**
   Event delivery is confluent. Whatever table a node starts from, two runs that deliver the same logs, in any
   order, any number of times, with any earlier freezes in between, agree after a last freeze.
   */
  lemma DeliveryConfluent(t: ProcessTable, ops: seq<SyncOp>, ops': seq<SyncOp>, last: uint64)
    requires forall log :: Delivered(log) in ops <==> Delivered(log) in ops'
    requires OneCreationEach(ops) && FreezesBy(ops, last) && FreezesBy(ops', last)
    ensures FreezeTable(SyncRun(t, ops), last) == FreezeTable(SyncRun(t, ops'), last)
  {
    var es, es' := EffectsOf(ops), EffectsOf(ops');
    forall p ensures Create(p) in es <==> Create(p) in es' {
      CreationIff(ops, p);
      CreationIff(ops', p);
    }
    CreationsAreOne(ops);
    FreezesAreFrost(ops, last);
    FreezesAreFrost(ops', last);
    EffectsConfluent(t, es, es', last);
    RunIsEffects(t, ops);
    RunIsEffects(t, ops');
  }

  /** In particular a replay of the history in order, once each, and the closing freeze of SyncHistory. */
  lemma {:induction false} ReplayIsRun(t: ProcessTable, logs: seq<Log>)
    ensures SyncRun(t, AsOps(logs)) == DeliverAll(t, logs)
    ensures forall log :: Delivered(log) in AsOps(logs) <==> log in logs
    decreases |logs|
  {
    if logs != [] {
      var n := |logs| - 1;
      assert AsOps(logs)[..n] == AsOps(logs[..n]);
      ReplayIsRun(t, logs[..n]);
    }
    forall log | log in logs ensures Delivered(log) in AsOps(logs) {
      var i :| 0 <= i < |logs| && logs[i] == log;
      assert AsOps(logs)[i] == Delivered(log);
    }
  }

  function AsOps(logs: seq<Log>): (ops: seq<SyncOp>)
    ensures |ops| == |logs| && forall i :: 0 <= i < |logs| ==> ops[i] == Delivered(logs[i])
  {
    seq(|logs|, i requires 0 <= i < |logs| => Delivered(logs[i]))
  }

  /** A node that saw live events early, late or twice ends where a clean replay ends. */
  lemma LiveEventsDoNoHarm(t: ProcessTable, ops: seq<SyncOp>, logs: seq<Log>, last: uint64)
    requires forall log :: Delivered(log) in ops <==> log in logs
    requires OneCreationEach(ops) && FreezesBy(ops, last)
    ensures FreezeTable(SyncRun(t, ops), last) == FreezeTable(DeliverAll(t, logs), last)
  {
    ReplayIsRun(t, logs);
    DeliveryConfluent(t, ops, AsOps(logs), last);
  }

  /** The order of two deliveries matters exactly when both create the same new process differently. */
  lemma SwapIff(t: ProcessTable, log: Log, log': Log)
    ensures Deliver(Deliver(t, log).0, log').0 == Deliver(Deliver(t, log').0, log).0
       <==> !exists p, p' :: Creates(log, p) && Creates(log', p') && p.id == p'.id && p.id !in t && p != p'
  {
    StepIsEffect(t, Delivered(log));
    StepIsEffect(t, Delivered(log'));
    StepIsEffect(Deliver(t, log).0, Delivered(log'));
    StepIsEffect(Deliver(t, log').0, Delivered(log));
    var e, e' := EffectOf(Delivered(log)), EffectOf(Delivered(log'));
    SwapEffects(t, e, e');
    assert forall p :: Creates(log, p) <==> e == Create(p);
    assert forall p :: Creates(log', p) <==> e' == Create(p);
  }

  lemma SwapEffects(t: ProcessTable, e: Effect, e': Effect)
    requires !e.Frost? && !e'.Frost?
    ensures Apply(Apply(t, e), e') == Apply(Apply(t, e'), e)
       <==> !(e.Create? && e'.Create? && e.p.id == e'.p.id && e.p.id !in t && e.p != e'.p)
  {
    if e.Create? && e'.Create? && e.p.id !in t && e'.p.id !in t {
      if e.p.id == e'.p.id {
        assert Apply(Apply(t, e), e')[e.p.id] == e.p && Apply(Apply(t, e'), e)[e.p.id] == e'.p;
      } else {
        assert t[e.p.id := e.p][e'.p.id := e'.p] == t[e'.p.id := e'.p][e.p.id := e.p];
      }
    }
  }

  // ---------------------------------------------------------------- block by block

  /** Stores the events of a block up to the first that fails; `n` counts events. */
  function StoreEvents(t: ProcessTable, block: uint64, events: seq<Process>, n: nat): (ProcessTable, Result<(), Error>)
    requires n <= |events|
  {
    if n == 0 then (t, Success(()))
    else
      var (before, r) := StoreEvents(t, block, events, n - 1);
      if r.Failure? then (before, r)
      else
        match InsertProcess(before, events[n - 1].(ethBlockNum := block))
        case Failure(e) => (before, Failure(e))
        case Success(t') => (t', Success(()))
  }

  /** Every process whose publishing starts at this very block becomes Frozen. */
  function FreezeAt(t: ProcessTable, block: uint64): ProcessTable
  {
    map id | id in t :: if t[id].resPubStartBlock == block then t[id].(status := Frozen) else t[id]
  }

  function Advance(t: ProcessTable, block: uint64, events: seq<Process>): (ProcessTable, Result<(), Error>)
  {
    var (stored, r) := StoreEvents(t, block, events, |events|);
    if r.Failure? then (stored, r)
    else if !Storable(block) then (stored, Failure(HighBit))
    else (FreezeAt(stored, block), Success(()))
  }

  ghost predicate Keyed(t: ProcessTable)
  {
    forall id | id in t :: t[id].id == id && Storable(id)
  }

  lemma {:induction false} StoreEventsStops(t: ProcessTable, block: uint64, events: seq<Process>, n: nat)
    requires n <= |events| && StoreEvents(t, block, events, n).1.Failure?
    ensures StoreEvents(t, block, events, |events|) == StoreEvents(t, block, events, n)
    decreases |events| - n
  {
    if n < |events| { StoreEventsStops(t, block, events, n + 1); }
  }

  lemma {:induction false} StoreEventsKeyed(t: ProcessTable, block: uint64, events: seq<Process>, n: nat)
    requires n <= |events| && Keyed(t)
    ensures Keyed(StoreEvents(t, block, events, n).0)
  {
    if n > 0 { StoreEventsKeyed(t, block, events, n - 1); }
  }

  class TestEthClient {
    const db: SQLite
    var currentBlock: uint64
    const blocksWithEvent: map<uint64, seq<Process>>

    constructor (db: SQLite, startBlock: uint64, blocks: map<uint64, seq<Process>>)
      ensures this.db == db && currentBlock == startBlock && blocksWithEvent == blocks
    {
      this.db, currentBlock, blocksWithEvent := db, startBlock, blocks;
    }

    method AdvanceBlock() returns (r: Result<(), Error>)
      requires Keyed(db.processes)
      modifies this`currentBlock, db`processes
      ensures currentBlock == Wrap64(old(currentBlock) + 1)
      ensures (db.processes, r) == Advance(old(db.processes), currentBlock, EventsAt(blocksWithEvent, currentBlock))
      ensures Keyed(db.processes)
    {
      currentBlock := Wrap64(currentBlock + 1);
      if currentBlock in blocksWithEvent {
        var events := blocksWithEvent[currentBlock];
        for i := 0 to |events|
          invariant currentBlock == Wrap64(old(currentBlock) + 1)
          invariant (db.processes, Success(())) == StoreEvents(old(db.processes), currentBlock, events, i)
        {
          r := db.StoreProcess(events[i].(ethBlockNum := currentBlock));
          if r.Failure? {
            StoreEventsStops(old(db.processes), currentBlock, events, i + 1);
            StoreEventsKeyed(old(db.processes), currentBlock, events, i + 1);
            return r;
          }
        }
      }
      StoreEventsKeyed(old(db.processes), currentBlock, EventsAt(blocksWithEvent, currentBlock), |EventsAt(blocksWithEvent, currentBlock)|);
      r := FreezeCurrent();
    }

    /** Freezes the processes that start publishing at the current block, one by one. */
    method FreezeCurrent() returns (r: Result<(), Error>)
      requires Keyed(db.processes)
      modifies db`processes
      ensures if Storable(currentBlock) then r == Success(()) && db.processes == FreezeAt(old(db.processes), currentBlock)
              else r == Failure(HighBit) && db.processes == old(db.processes)
      ensures Keyed(db.processes)
    {
      var processes := db.ReadProcessesByResPubStartBlock(currentBlock);
      if processes.Failure? { return Failure(processes.error); }
      var listed := processes.value;
      for i := 0 to |listed|
        invariant db.processes == FreezeListed(old(db.processes), listed[..i])
      {
        assert listed[i] in listed;
        assert listed[..i + 1] == listed[..i] + [listed[i]];
        r := db.UpdateProcessStatus(listed[i].id, Frozen);
        FreezeOneMore(old(db.processes), currentBlock, listed, i);
      }
      assert listed[..|listed|] == listed;
      ListedIsFreezeAt(old(db.processes), currentBlock, listed);
      r := Success(());
    }
  }

  lemma FreezeOneMore(t: ProcessTable, block: uint64, listed: seq<Process>, i: nat)
    requires IsReadOf(t, t.Keys, block, listed) && Keyed(t) && i < |listed|
    ensures SetStatus(FreezeListed(t, listed[..i]), listed[i].id, Frozen) == FreezeListed(t, listed[..i + 1])
  {
    assert listed[i] in listed;
    assert listed[..i + 1] == listed[..i] + [listed[i]];
  }

  function EventsAt(blocks: map<uint64, seq<Process>>, block: uint64): seq<Process>
  {
    if block in blocks then blocks[block] else []
  }

  ghost function FreezeListed(t: ProcessTable, listed: seq<Process>): ProcessTable
  {
    map id | id in t :: if t[id] in listed then t[id].(status := Frozen) else t[id]
  }

  lemma ListedIsFreezeAt(t: ProcessTable, block: uint64, listed: seq<Process>)
    requires IsReadOf(t, t.Keys, block, listed) && Keyed(t)
    ensures FreezeListed(t, listed) == FreezeAt(t, block)
  {}
}

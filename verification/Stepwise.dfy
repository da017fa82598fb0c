/** Freezing block by block against freezing in bulk. */
module Stepwise {
  import opened Bytes
  import opened Results
  import opened Types
  import opened Database
  import opened EthSync

  ghost predicate AllOn(t: ProcessTable)
  {
    forall id | id in t :: t[id].status == On
  }

  /** No event of a block asks for publishing to start before that block. */
  ghost predicate Timely(block: uint64, events: seq<Process>)
  {
    forall e | e in events :: block <= e.resPubStartBlock
  }

  /** `t` and `u` hold the same ids; beyond those of `base` they hold the same processes, all of them On. */
  ghost predicate Beside(t: ProcessTable, u: ProcessTable, t': ProcessTable, u': ProcessTable, block: uint64, events: seq<Process>, n: nat)
    requires n <= |events|
  {
    && t.Keys <= t'.Keys && u.Keys <= u'.Keys && t'.Keys == u'.Keys
    && (forall id | id in t :: t'[id] == t[id]) && (forall id | id in u :: u'[id] == u[id])
    && (forall id | id in u' && id !in u :: t'[id] == u'[id] && u'[id].status == On
          && exists i :: 0 <= i < n && events[i].id == id && events[i].resPubStartBlock == u'[id].resPubStartBlock)
  }

  /** Storing events does not look at statuses: two tables with the same ids take the same events. */
  lemma {:induction false} StoreBeside(t: ProcessTable, u: ProcessTable, block: uint64, events: seq<Process>, n: nat)
    requires t.Keys == u.Keys && n <= |events|
    ensures StoreEvents(t, block, events, n).1 == StoreEvents(u, block, events, n).1
    ensures Beside(t, u, StoreEvents(t, block, events, n).0, StoreEvents(u, block, events, n).0, block, events, n)
  {
    if n > 0 {
      StoreBeside(t, u, block, events, n - 1);
      var (t', r) := StoreEvents(t, block, events, n - 1);
      var (u', q) := StoreEvents(u, block, events, n - 1);
      if r.Success? {
        InsertBeside(t, u, t', u', block, events, n);
      }
    }
  }

  lemma InsertBeside(t: ProcessTable, u: ProcessTable, t': ProcessTable, u': ProcessTable, block: uint64, events: seq<Process>, n: nat)
    requires t.Keys == u.Keys && 0 < n <= |events| && Beside(t, u, t', u', block, events, n - 1)
    ensures var p := events[n - 1].(ethBlockNum := block);
            var r, q := InsertProcess(t', p), InsertProcess(u', p);
            && r.Success? == q.Success? && (r.Failure? ==> r.error == q.error)
            && Beside(t, u, if r.Success? then r.value else t', if q.Success? then q.value else u', block, events, n)
  {}

  /** When every event is stored, every event has its row. */
  lemma {:induction false} AllStored(t: ProcessTable, block: uint64, events: seq<Process>, n: nat)
    requires n <= |events| && StoreEvents(t, block, events, n).1.Success?
    ensures var t' := StoreEvents(t, block, events, n).0;
            && (forall id | id in t :: id in t' && t'[id] == t[id])
            && forall i | 0 <= i < n :: events[i].id in t' && events[i].id !in t && t'[events[i].id].resPubStartBlock == events[i].resPubStartBlock
  {
    if n > 0 { AllStored(t, block, events, n - 1); }
  }

  /**
   One block, when it goes through: the node that froze step by step stays in step with a bulk freeze of
   everything stored exactly when the events of the block are timely.
   */
  lemma AdvanceInStepIff(u: ProcessTable, block: uint64, events: seq<Process>)
    requires AllOn(u) && 0 < block < TWO_63
    requires Advance(FreezeTable(u, block - 1), block, events).1.Success?
    ensures var u' := StoreEvents(u, block, events, |events|).0;
            && AllOn(u')
            && (Advance(FreezeTable(u, block - 1), block, events).0 == FreezeTable(u', block) <==> Timely(block, events))
  {
    var t := FreezeTable(u, block - 1);
    var u', t' := StoreEvents(u, block, events, |events|).0, StoreEvents(t, block, events, |events|).0;
    StoreBeside(t, u, block, events, |events|);
    StaysOn(t, u, t', u', block, events);
    if Timely(block, events) {
      TimelyInStep(u, t', u', block, events);
    } else {
      AllStored(u, block, events, |events|);
      var e :| e in events && e.resPubStartBlock < block;
      var i :| 0 <= i < |events| && events[i] == e;
      LateNeverFrozen(u, u', t', block, e);
    }
  }

  lemma StaysOn(t: ProcessTable, u: ProcessTable, t': ProcessTable, u': ProcessTable, block: uint64, events: seq<Process>)
    requires AllOn(u) && Beside(t, u, t', u', block, events, |events|)
    ensures AllOn(u')
  {
    forall id | id in u' ensures u'[id].status == On {
      if id in u { assert u'[id] == u[id]; }
    }
  }

  lemma TimelyInStep(u: ProcessTable, t': ProcessTable, u': ProcessTable, block: uint64, events: seq<Process>)
    requires AllOn(u) && 0 < block < TWO_63 && Timely(block, events)
    requires Beside(FreezeTable(u, block - 1), u, t', u', block, events, |events|)
    ensures FreezeAt(t', block) == FreezeTable(u', block)
  {
    forall id | id in u' ensures FreezeAt(t', block)[id] == Freeze(u'[id], block) {
      if id in u {
        OldInStep(u[id], t'[id], block);
      } else {
        var i :| 0 <= i < |events| && events[i].id == id && events[i].resPubStartBlock == u'[id].resPubStartBlock;
        assert events[i] in events;
      }
    }
  }

  lemma OldInStep(p: Process, q: Process, block: uint64)
    requires p.status == On && 0 < block < TWO_63 && q == Freeze(p, block - 1)
    ensures (if q.resPubStartBlock == block then q.(status := Frozen) else q) == Freeze(p, block)
  {}

  lemma LateNeverFrozen(u: ProcessTable, u': ProcessTable, t': ProcessTable, block: uint64, e: Process)
    requires block < TWO_63 && e.id in u' && e.id in t' && e.id !in u && t'[e.id] == u'[e.id]
    requires u'[e.id].status == On && u'[e.id].resPubStartBlock == e.resPubStartBlock < block
    ensures FreezeAt(t', block) != FreezeTable(u', block)
  {
    assert FreezeAt(t', block)[e.id].status == On && FreezeTable(u', block)[e.id].status == Frozen;
  }

  /** A block whose events do not all go in freezes nothing. */
  lemma AdvanceFailureFreezesNothing(t: ProcessTable, block: uint64, events: seq<Process>, id: uint64)
    requires Advance(t, block, events).1.Failure? && id in t
    ensures id in Advance(t, block, events).0 && Advance(t, block, events).0[id] == t[id]
  {
    StoreBeside(t, t, block, events, |events|);
  }

  /** The events of a block all fit the database, and their ids are new and different. */
  ghost predicate AllFit(t: ProcessTable, block: uint64, events: seq<Process>, n: nat)
    requires n <= |events|
  {
    && (forall i | 0 <= i < n :: StorableProcess(events[i].(ethBlockNum := block)) && events[i].id !in t)
    && (forall i, j | 0 <= i < j < n :: events[i].id != events[j].id)
  }

  /** A block goes through exactly when its events fit. */
  lemma AdvanceSucceedsIff(t: ProcessTable, block: uint64, events: seq<Process>)
    requires block < TWO_63
    ensures Advance(t, block, events).1.Success? <==> AllFit(t, block, events, |events|)
  {
    EventsFitIff(t, block, events, |events|);
  }

  lemma {:induction false} EventsFitIff(t: ProcessTable, block: uint64, events: seq<Process>, n: nat)
    requires n <= |events|
    ensures var r := StoreEvents(t, block, events, n);
            && (r.1.Success? <==> AllFit(t, block, events, n))
            && (r.1.Success? ==> HoldsEvents(t, r.0, events, n))
  {
    if n > 0 {
      EventsFitIff(t, block, events, n - 1);
      var before := StoreEvents(t, block, events, n - 1);
      if before.1.Success? { OneEventMore(t, block, events, n, before.0); }
    }
  }

  /** `t'` has the ids of `t` and of the first `n` events. */
  ghost predicate HoldsEvents(t: ProcessTable, t': ProcessTable, events: seq<Process>, n: nat)
    requires n <= |events|
  {
    forall id :: id in t' <==> id in t || exists i :: 0 <= i < n && events[i].id == id
  }

  lemma OneEventMore(t: ProcessTable, block: uint64, events: seq<Process>, n: nat, t': ProcessTable)
    requires 0 < n <= |events| && HoldsEvents(t, t', events, n - 1)
    ensures var r := InsertProcess(t', events[n - 1].(ethBlockNum := block));
            && (AllFit(t, block, events, n) <==> AllFit(t, block, events, n - 1) && r.Success?)
            && (r.Success? ==> HoldsEvents(t, r.value, events, n))
  {
    var e := events[n - 1];
    if e.id !in t' {
      forall i | 0 <= i < n - 1 ensures events[i].id != e.id {}
    }
  }

  /**
   What a block stores, exactly: the events up to the first that does not fit, each as announced, with the number
   of the block.
   */
  lemma AdvanceStores(t: ProcessTable, block: uint64, events: seq<Process>, n: nat)
    requires block < TWO_63 && n <= |events| && AllFit(t, block, events, n)
    requires n < |events| ==> !AllFit(t, block, events, n + 1)
    ensures var (t', r) := Advance(t, block, events);
            && (r.Success? <==> n == |events|)
            && HoldsEvents(t, t', events, n)
            && forall i | 0 <= i < n ::
                 t'[events[i].id] == events[i].(ethBlockNum := block,
                                                status := if r.Success? && events[i].resPubStartBlock == block then Frozen else On)
  {
    EventsFitIff(t, block, events, n);
    StoredAsAnnounced(t, block, events, n);
    StoresUpTo(t, block, events, n);
    FreezesStored(StoreEvents(t, block, events, n).0, Advance(t, block, events).0, Advance(t, block, events).1.Success?, block, events, n);
  }

  /** The loop over the events keeps what it stored before the first that does not fit. */
  lemma StoresUpTo(t: ProcessTable, block: uint64, events: seq<Process>, n: nat)
    requires block < TWO_63 && n <= |events| && AllFit(t, block, events, n)
    requires n < |events| ==> !AllFit(t, block, events, n + 1)
    ensures var (t', r) := Advance(t, block, events);
            var stored := StoreEvents(t, block, events, n).0;
            (r.Success? <==> n == |events|) && t' == if r.Success? then FreezeAt(stored, block) else stored
  {
    EventsFitIff(t, block, events, n);
    if n < |events| { FailsAfter(t, block, events, n); }
  }

  lemma FailsAfter(t: ProcessTable, block: uint64, events: seq<Process>, n: nat)
    requires n < |events| && StoreEvents(t, block, events, n).1.Success? && !AllFit(t, block, events, n + 1)
    ensures StoreEvents(t, block, events, |events|).0 == StoreEvents(t, block, events, n).0
    ensures StoreEvents(t, block, events, |events|).1.Failure?
  {
    EventsFitIff(t, block, events, n + 1);
    NextFails(t, block, events, n);
    StoreEventsStops(t, block, events, n + 1);
  }

  lemma NextFails(t: ProcessTable, block: uint64, events: seq<Process>, n: nat)
    requires n < |events| && StoreEvents(t, block, events, n).1.Success? && StoreEvents(t, block, events, n + 1).1.Failure?
    ensures StoreEvents(t, block, events, n + 1).0 == StoreEvents(t, block, events, n).0
  {}

  lemma FreezesStored(stored: ProcessTable, t': ProcessTable, through: bool, block: uint64, events: seq<Process>, n: nat)
    requires n <= |events| && t' == if through then FreezeAt(stored, block) else stored
    requires forall i | 0 <= i < n :: events[i].id in stored && stored[events[i].id] == events[i].(ethBlockNum := block, status := On)
    ensures t'.Keys == stored.Keys
    ensures forall i | 0 <= i < n ::
              t'[events[i].id] == events[i].(ethBlockNum := block, status := if through && events[i].resPubStartBlock == block then Frozen else On)
  {}

  lemma {:induction false} StoredAsAnnounced(t: ProcessTable, block: uint64, events: seq<Process>, n: nat)
    requires n <= |events| && AllFit(t, block, events, n)
    ensures var r := StoreEvents(t, block, events, n);
            && r.1.Success?
            && forall i | 0 <= i < n :: events[i].id in r.0 && r.0[events[i].id] == events[i].(ethBlockNum := block, status := On)
  {
    EventsFitIff(t, block, events, n);
    if n > 0 { StoredAsAnnounced(t, block, events, n - 1); }
  }

  // ---------------------------------------------------------------- runs of blocks

  /** The state after `n` blocks, and which of them went through. */
  function AdvanceRun(t: ProcessTable, start: uint64, blocks: map<uint64, seq<Process>>, n: nat): (r: (ProcessTable, seq<bool>))
    requires start + n < TWO_63
    ensures |r.1| == n
  {
    if n == 0 then (t, [])
    else
      var before := AdvanceRun(t, start, blocks, n - 1);
      var block := Advance(before.0, start + n, EventsAt(blocks, start + n));
      (block.0, before.1 + [block.1.Success?])
  }

  /** The same blocks, storing events and never freezing. */
  function StoreRun(u: ProcessTable, start: uint64, blocks: map<uint64, seq<Process>>, n: nat): ProcessTable
    requires start + n < TWO_63
  {
    if n == 0 then u
    else
      StoreBlock(StoreRun(u, start, blocks, n - 1), start + n, EventsAt(blocks, start + n))
  }

  function StoreBlock(u: ProcessTable, block: uint64, events: seq<Process>): ProcessTable
  {
    StoreEvents(u, block, events, |events|).0
  }

  /** Block number `k` of a run goes through exactly when its events fit the table it finds. */
  lemma {:induction false} WentThroughIff(t: ProcessTable, start: uint64, blocks: map<uint64, seq<Process>>, n: nat, k: nat)
    requires 0 < k <= n && start + n < TWO_63
    ensures var events := EventsAt(blocks, start + k);
            AdvanceRun(t, start, blocks, n).1[k - 1] <==> AllFit(AdvanceRun(t, start, blocks, k - 1).0, start + k, events, |events|)
  {
    if k < n {
      WentThroughIff(t, start, blocks, n - 1, k);
    } else {
      AdvanceSucceedsIff(AdvanceRun(t, start, blocks, k - 1).0, start + k, EventsAt(blocks, start + k));
    }
  }

  // ---------------------------------------------------------------- which processes a run freezes

  /**
   The publishing of `p` started in a block of the run that went through, and `p` was there by then: from the
   start, or created no later than that block.
   */
  ghost predicate FrozeOnTime(t: ProcessTable, start: uint64, went: seq<bool>, p: Process, id: uint64)
  {
    && start < p.resPubStartBlock <= start + |went|
    && (id in t || p.ethBlockNum <= p.resPubStartBlock)
    && went[p.resPubStartBlock - start - 1]
  }

  /** `p` is the process as stored; only its status may have changed, in exactly this way. */
  ghost predicate Settled(t: ProcessTable, start: uint64, went: seq<bool>, p: Process, id: uint64)
  {
    && (if id in t then p == t[id].(status := p.status) else start < p.ethBlockNum <= start + |went|)
    && p.status == if FrozeOnTime(t, start, went, p, id) then Frozen else if id in t then t[id].status else On
  }

  /**
   The status of every process after any run of blocks, late events and failing blocks included: Frozen from
   the block its publishing starts at, if that block went through with the process in the table, and otherwise
   the status it had at the start or On.
   */
  lemma {:induction false} StatusAfterRun(t: ProcessTable, start: uint64, blocks: map<uint64, seq<Process>>, n: nat, id: uint64)
    requires start + n < TWO_63 && id in AdvanceRun(t, start, blocks, n).0
    ensures var (t', went) := AdvanceRun(t, start, blocks, n);
            Settled(t, start, went, t'[id], id)
  {
    if n > 0 {
      var (before, went) := AdvanceRun(t, start, blocks, n - 1);
      var block, events := start + n, EventsAt(blocks, start + n);
      if id in before {
        StatusAfterRun(t, start, blocks, n - 1, id);
      } else {
        NewIsNew(t, start, blocks, n - 1, id);
      }
      BlockSettles(t, start, went, before, events, id);
    }
  }

  lemma BlockSettles(t: ProcessTable, start: uint64, went: seq<bool>, before: ProcessTable, events: seq<Process>, id: uint64)
    requires start + |went| + 1 < TWO_63
    requires if id in before then Settled(t, start, went, before[id], id) else id !in t
    ensures var (after, r) := Advance(before, start + |went| + 1, events);
            id in after ==> Settled(t, start, went + [r.Success?], after[id], id)
  {
    OneBlock(before, start + |went| + 1, events, id);
  }

  /** What a block does to one process. */
  lemma OneBlock(t: ProcessTable, block: uint64, events: seq<Process>, id: uint64)
    requires block < TWO_63
    ensures var (t', r) := Advance(t, block, events);
            && (id in t ==> id in t')
            && (id in t' ==>
                  && (if id in t then t'[id] == t[id].(status := t'[id].status) else t'[id].ethBlockNum == block)
                  && t'[id].status == if r.Success? && t'[id].resPubStartBlock == block then Frozen else if id in t then t[id].status else On)
  {
    StoredOne(t, block, events, |events|, id);
  }

  lemma {:induction false} StoredOne(t: ProcessTable, block: uint64, events: seq<Process>, n: nat, id: uint64)
    requires n <= |events|
    ensures var t' := StoreEvents(t, block, events, n).0;
            && (id in t ==> id in t' && t'[id] == t[id])
            && (id in t' && id !in t ==> t'[id].ethBlockNum == block && t'[id].status == On)
  {
    if n > 0 { StoredOne(t, block, events, n - 1, id); }
  }

  lemma {:induction false} NewIsNew(t: ProcessTable, start: uint64, blocks: map<uint64, seq<Process>>, n: nat, id: uint64)
    requires start + n < TWO_63 && id !in AdvanceRun(t, start, blocks, n).0
    ensures id !in t
  {
    if n > 0 {
      OneBlock(AdvanceRun(t, start, blocks, n - 1).0, start + n, EventsAt(blocks, start + n), id);
      NewIsNew(t, start, blocks, n - 1, id);
    }
  }

  /** Once the block at which its publishing starts is over, a process never changes again. */
  lemma {:induction false} SkippedForGood(t: ProcessTable, start: uint64, blocks: map<uint64, seq<Process>>, k: nat, n: nat, id: uint64)
    requires k <= n && start + n < TWO_63 && id in AdvanceRun(t, start, blocks, k).0
    requires AdvanceRun(t, start, blocks, k).0[id].resPubStartBlock <= start + k
    ensures id in AdvanceRun(t, start, blocks, n).0 && AdvanceRun(t, start, blocks, n).0[id] == AdvanceRun(t, start, blocks, k).0[id]
    decreases n
  {
    if k < n {
      SkippedForGood(t, start, blocks, k, n - 1, id);
      OneBlock(AdvanceRun(t, start, blocks, n - 1).0, start + n, EventsAt(blocks, start + n), id);
    }
  }

  /** A process created after its own publishing block stays On for good. */
  lemma LateStaysOn(t: ProcessTable, start: uint64, blocks: map<uint64, seq<Process>>, k: nat, n: nat, id: uint64)
    requires k <= n && start + n < TWO_63 && id in AdvanceRun(t, start, blocks, k).0 && id !in t
    requires var p := AdvanceRun(t, start, blocks, k).0[id]; p.resPubStartBlock < p.ethBlockNum
    ensures id in AdvanceRun(t, start, blocks, n).0 && AdvanceRun(t, start, blocks, n).0[id].status == On
  {
    StatusAfterRun(t, start, blocks, k, id);
    SkippedForGood(t, start, blocks, k, n, id);
  }

  /** So does a process On whose publishing starts at a block with an event that does not fit. */
  lemma DueAtFailureStaysOn(t: ProcessTable, start: uint64, blocks: map<uint64, seq<Process>>, k: nat, n: nat, id: uint64)
    requires 0 < k <= n && start + n < TWO_63 && id in AdvanceRun(t, start, blocks, k).0
    requires var events := EventsAt(blocks, start + k);
             !AllFit(AdvanceRun(t, start, blocks, k - 1).0, start + k, events, |events|)
    requires AdvanceRun(t, start, blocks, k).0[id].resPubStartBlock == start + k
    requires id in t ==> t[id].status == On
    ensures id in AdvanceRun(t, start, blocks, n).0 && AdvanceRun(t, start, blocks, n).0[id].status == On
  {
    WentThroughIff(t, start, blocks, k, k);
    StatusAfterRun(t, start, blocks, k, id);
    SkippedForGood(t, start, blocks, k, n, id);
  }

  // ---------------------------------------------------------------- stepwise against bulk

  /** If the publishing of `p` has started, `p` was frozen: before the run, or by its block. */
  ghost predicate NotSkipped(t: ProcessTable, start: uint64, went: seq<bool>, p: Process, id: uint64)
  {
    p.resPubStartBlock <= start + |went| ==> (id in t && p.resPubStartBlock <= start) || FrozeOnTime(t, start, went, p, id)
  }

  ghost predicate NoneSkipped(t: ProcessTable, start: uint64, went: seq<bool>, t': ProcessTable)
  {
    forall id | id in t' :: NotSkipped(t, start, went, t'[id], id)
  }

  /**
   Any run of blocks, after a bulk freeze at its start, ends in the table that one bulk freeze at its last
   block would give exactly when no process was skipped: none was created after its publishing block, and
   none had that block fail.
   */
  lemma StepwiseIsBulkIff(u: ProcessTable, start: uint64, blocks: map<uint64, seq<Process>>, n: nat)
    requires AllOn(u) && start + n < TWO_63
    ensures var (t', went) := AdvanceRun(FreezeTable(u, start), start, blocks, n);
            t' == FreezeTable(StoreRun(u, start, blocks, n), start + n) <==> NoneSkipped(FreezeTable(u, start), start, went, t')
  {
    var t := FreezeTable(u, start);
    BulkBeside(u, start);
    RunBeside(t, u, start, blocks, n);
    AllSettled(t, start, blocks, n);
    TablesAgreeIff(t, u, start, AdvanceRun(t, start, blocks, n).1, AdvanceRun(t, start, blocks, n).0, StoreRun(u, start, blocks, n));
  }

  ghost predicate EachSettled(t: ProcessTable, start: uint64, went: seq<bool>, t': ProcessTable)
  {
    forall id | id in t' :: Settled(t, start, went, t'[id], id)
  }

  lemma AllSettled(t: ProcessTable, start: uint64, blocks: map<uint64, seq<Process>>, n: nat)
    requires start + n < TWO_63
    ensures var (t', went) := AdvanceRun(t, start, blocks, n);
            EachSettled(t, start, went, t')
  {
    var (t', went) := AdvanceRun(t, start, blocks, n);
    forall id | id in t' ensures Settled(t, start, went, t'[id], id) {
      StatusAfterRun(t, start, blocks, n, id);
    }
  }

  lemma TablesAgreeIff(t: ProcessTable, u: ProcessTable, start: uint64, went: seq<bool>, t': ProcessTable, stored: ProcessTable)
    requires AllOn(u) && start + |went| < TWO_63 && t == FreezeTable(u, start) && SameButStatus(t', stored)
    requires EachSettled(t, start, went, t')
    ensures t' == FreezeTable(stored, start + |went|) <==> NoneSkipped(t, start, went, t')
  {
    var bulk := FreezeTable(stored, start + |went|);
    SameTablesIff(t', bulk);
    forall id | id in t' ensures t'[id] == bulk[id] <==> NotSkipped(t, start, went, t'[id], id) {
      OneAgainstBulk(t, u, start, went, t'[id], stored[id], id);
    }
  }

  lemma SameTablesIff(t: ProcessTable, t': ProcessTable)
    requires t.Keys == t'.Keys
    ensures t == t' <==> forall id | id in t :: t[id] == t'[id]
  {}

  lemma OneAgainstBulk(t: ProcessTable, u: ProcessTable, start: uint64, went: seq<bool>, p: Process, q: Process, id: uint64)
    requires AllOn(u) && start + |went| < TWO_63 && t == FreezeTable(u, start)
    requires Settled(t, start, went, p, id) && p == q.(status := p.status) && q.status == On
    ensures p == Freeze(q, start + |went|) <==> NotSkipped(t, start, went, p, id)
  {
    if id in t { assert t[id] == Freeze(u[id], start) && u[id].status == On; }
  }

  /** `t` and `u` hold the same processes, but for their statuses, and those of `u` are all On. */
  ghost predicate SameButStatus(t: ProcessTable, u: ProcessTable)
  {
    AllOn(u) && t.Keys == u.Keys && forall id | id in t :: t[id] == u[id].(status := t[id].status)
  }

  lemma BulkBeside(u: ProcessTable, block: uint64)
    requires AllOn(u)
    ensures SameButStatus(FreezeTable(u, block), u)
  {}

  lemma {:induction false} RunBeside(t: ProcessTable, u: ProcessTable, start: uint64, blocks: map<uint64, seq<Process>>, n: nat)
    requires start + n < TWO_63 && SameButStatus(t, u)
    ensures SameButStatus(AdvanceRun(t, start, blocks, n).0, StoreRun(u, start, blocks, n))
  {
    if n > 0 {
      RunBeside(t, u, start, blocks, n - 1);
      BlockBeside(AdvanceRun(t, start, blocks, n - 1).0, StoreRun(u, start, blocks, n - 1), start + n, EventsAt(blocks, start + n));
    }
  }

  lemma BlockBeside(t: ProcessTable, u: ProcessTable, block: uint64, events: seq<Process>)
    requires SameButStatus(t, u)
    ensures SameButStatus(Advance(t, block, events).0, StoreBlock(u, block, events))
  {
    var t', u' := StoreEvents(t, block, events, |events|).0, StoreBlock(u, block, events);
    StoreBeside(t, u, block, events, |events|);
    StaysOn(t, u, t', u', block, events);
    forall id | id in t' ensures t'[id] == u'[id].(status := t'[id].status) {
      if id in u { assert t'[id] == t[id] && u'[id] == u[id]; }
    }
  }

  /**
   In particular after a run of blocks that all went through with timely events; a process is then Frozen
   exactly when its publishing has started.
   */
  lemma StepwiseRefinesBulk(u: ProcessTable, start: uint64, blocks: map<uint64, seq<Process>>, n: nat)
    requires AllOn(u) && start + n < TWO_63
    requires forall block | start < block <= start + n :: Timely(block, EventsAt(blocks, block))
    requires false !in AdvanceRun(FreezeTable(u, start), start, blocks, n).1
    ensures var t, stored := AdvanceRun(FreezeTable(u, start), start, blocks, n).0, StoreRun(u, start, blocks, n);
            && t == FreezeTable(stored, start + n)
            && forall id | id in t :: t[id].status == Frozen <==> t[id].resPubStartBlock <= start + n
  {
    TimelyNotSkipped(FreezeTable(u, start), start, blocks, n);
    StepwiseIsBulkIff(u, start, blocks, n);
    BulkBeside(u, start);
    RunBeside(FreezeTable(u, start), u, start, blocks, n);
    BulkStatus(StoreRun(u, start, blocks, n), start + n);
  }

  lemma BulkStatus(stored: ProcessTable, last: uint64)
    requires AllOn(stored) && last < TWO_63
    ensures forall id | id in stored :: FreezeTable(stored, last)[id].status == Frozen <==> stored[id].resPubStartBlock <= last
  {}

  lemma TimelyNotSkipped(t: ProcessTable, start: uint64, blocks: map<uint64, seq<Process>>, n: nat)
    requires start + n < TWO_63 && false !in AdvanceRun(t, start, blocks, n).1
    requires forall block | start < block <= start + n :: Timely(block, EventsAt(blocks, block))
    ensures NoneSkipped(t, start, AdvanceRun(t, start, blocks, n).1, AdvanceRun(t, start, blocks, n).0)
  {
    var (t', went) := AdvanceRun(t, start, blocks, n);
    forall id | id in t' ensures NotSkipped(t, start, went, t'[id], id) {
      StatusAfterRun(t, start, blocks, n, id);
      TimelyRun(t, start, blocks, n, id);
    }
  }

  /** Timely events create no process after its publishing block. */
  lemma {:induction false} TimelyRun(t: ProcessTable, start: uint64, blocks: map<uint64, seq<Process>>, n: nat, id: uint64)
    requires start + n < TWO_63 && id in AdvanceRun(t, start, blocks, n).0
    requires forall block | start < block <= start + n :: Timely(block, EventsAt(blocks, block))
    ensures OnTime(t, AdvanceRun(t, start, blocks, n).0[id], id)
  {
    if n > 0 {
      var before, block, events := AdvanceRun(t, start, blocks, n - 1).0, start + n, EventsAt(blocks, start + n);
      if id in before { TimelyRun(t, start, blocks, n - 1, id); }
      assert Timely(block, events);
      TimelyBlock(t, before, block, events, id);
    }
  }

  ghost predicate OnTime(t: ProcessTable, p: Process, id: uint64)
  {
    id in t || p.ethBlockNum <= p.resPubStartBlock
  }

  lemma TimelyBlock(t: ProcessTable, before: ProcessTable, block: uint64, events: seq<Process>, id: uint64)
    requires block < TWO_63 && Timely(block, events) && id in Advance(before, block, events).0
    requires id in before ==> OnTime(t, before[id], id)
    ensures OnTime(t, Advance(before, block, events).0[id], id)
  {
    OneBlock(before, block, events, id);
    if id !in before {
      StoreBeside(before, before, block, events, |events|);
      var stored := StoreBlock(before, block, events);
      var i :| 0 <= i < |events| && events[i].id == id && events[i].resPubStartBlock == stored[id].resPubStartBlock;
      assert events[i] in events;
    }
  }
}

/**
 When a handler owns its outbox record, exactly, over every run. The record is written when
 the handler begins and again when it commits; a flush by anyone sweeps it, and the monitor
 may clear it while the handler waits for its replicas.

 The last part is about replicas that answer that they are being copied to.
 */
module ReplicationRecords {
  import opened Replication
  import opened ReplicationSafety
  import opened ReplicationAnswers

  predicate Sweeps(step: Step) {
    step.Write? && step.flush && step.reply.TookEffect()
  }

  /** What a step does to the ownership of a record. */
  function OwnedAfter(step: Step, op: Op, owned: bool): bool {
    match step
    case Begin(k, ok, _) => if k == op then ok else owned
    case Commit(k, ok, _) => if k == op && ok then true else owned
    case Write(_, _, _) => !Sweeps(step) && owned
    case Discard(k, cleared) => !(k == op && cleared) && owned
    case _ => owned
  }

  function Owned(steps: seq<Step>, op: Op): bool {
    steps != [] && OwnedAfter(steps[|steps| - 1], op, Owned(steps[..|steps| - 1], op))
  }

  /** The handler is running, and no background task may finish its work. */
  predicate InFlight(c: Cluster, st: State, op: Op) {
    op in st.mem.handlers && (st.mem.handlers[op].Delivered? ==> c.mode != Async)
  }

  /** A sender that works for a running handler is its own, or its background task. */
  predicate OwnSender(c: Cluster, st: State, op: Op) {
    && (op in st.mem.senders && st.mem.senders[op].origin == Request ==>
          op in st.mem.handlers && st.mem.handlers[op].Waiting?)
    && (op in st.mem.senders && op in st.mem.handlers && !st.mem.handlers[op].Waiting? ==>
          c.mode == Async && st.mem.handlers[op].Delivered?)
    && (op in st.mem.senders && op in st.mem.handlers && st.mem.handlers[op].Waiting? ==>
          st.mem.senders[op].origin == Request)
  }

  ghost predicate RecordInv(c: Cluster, st: State, op: Op, owned: bool) {
    OwnSender(c, st, op) && (InFlight(c, st, op) ==> (op in st.disk.outbox <==> owned))
  }

  lemma VisitRecord(c: Cluster, st: State, k: Op, outcome: Outcome, op: Op, owned: bool)
    requires RecordInv(c, st, op, owned) && Enabled(c, st, Visit(k, outcome))
    ensures RecordInv(c, DoVisit(c, st, k, outcome), op, owned)
  {
  }

  lemma EndSendRecord(c: Cluster, st: State, k: Op, op: Op, owned: bool)
    requires RecordInv(c, st, op, owned) && Enabled(c, st, EndSend(k))
    ensures RecordInv(c, DoEndSend(c, st, k), op, owned)
  {
  }

  lemma SendStepRecord(c: Cluster, st: State, step: Step, op: Op, owned: bool)
    requires Known(st, op) && RecordInv(c, st, op, owned) && Enabled(c, st, step)
    requires step.StartSend? || step.Recover? || step.Finalize?
    ensures RecordInv(c, Do(c, st, step), op, OwnedAfter(step, op, owned))
  {
    hide DoBegin, DoWrite, DoCommit, DoVisit, DoEndSend, DoResyncStart, DoResyncFailed, DoResyncCopied, DoDiscard;
  }

  lemma HandlerStepRecord(c: Cluster, st: State, step: Step, op: Op, owned: bool)
    requires Known(st, op) && RecordInv(c, st, op, owned) && Enabled(c, st, step)
    requires step.Begin? || step.Write? || step.Commit? || step.Bump?
    ensures RecordInv(c, Do(c, st, step), op, OwnedAfter(step, op, owned))
  {
    hide DoVisit, DoEndSend, DoRecover, DoResyncStart, DoResyncFailed, DoResyncCopied, DoDiscard, DoResyncDone, DoCrash;
  }

  lemma MonitorStepRecord(c: Cluster, st: State, step: Step, op: Op, owned: bool)
    requires Known(st, op) && RecordInv(c, st, op, owned) && Enabled(c, st, step)
    requires step.PingFailed? || step.Reachable? || step.MarkDirty? || step.Land? || step.Flag? || step.ResyncStart? ||
             step.ResyncFailed? || step.ResyncCopied? || step.Discard? || step.ResyncDone? || step.Crash?
    ensures RecordInv(c, Do(c, st, step), op, OwnedAfter(step, op, owned))
  {
    hide DoBegin, DoWrite, DoCommit, DoVisit, DoEndSend, DoRecover;
  }

  lemma RecordKept(c: Cluster, st: State, step: Step, op: Op, owned: bool)
    requires Known(st, op) && RecordInv(c, st, op, owned) && Enabled(c, st, step)
    ensures RecordInv(c, Do(c, st, step), op, OwnedAfter(step, op, owned))
  {
    hide Known, RecordInv, DoBegin, DoWrite, DoCommit, DoStartSend, DoVisit, DoEndSend, DoFinalize, DoRecover, DoLand, DoFlag;
    hide DoResyncStart, DoResyncFailed, DoResyncCopied, DoDiscard, DoResyncDone, DoCrash;
    match step
    case Visit(k, outcome) => VisitRecord(c, st, k, outcome, op, owned);
    case EndSend(k) => EndSendRecord(c, st, k, op, owned);
    case StartSend(_) | Recover(_, _, _) | Finalize(_) => SendStepRecord(c, st, step, op, owned);
    case Begin(_, _, _) | Write(_, _, _) | Commit(_, _, _) | Bump(_) => HandlerStepRecord(c, st, step, op, owned);
    case _ => MonitorStepRecord(c, st, step, op, owned);
  }

  lemma {:induction false} RecordHolds(c: Cluster, steps: seq<Step>, op: Op)
    requires c.Valid() && Runs(c, steps)
    ensures RecordInv(c, After(c, steps), op, Owned(steps, op))
  {
    hide Known, RecordInv, Do, OwnedAfter, Enabled, Counted;
    if steps == [] {
      FirstRecord(c, op);
    } else {
      var prefix, last := steps[..|steps| - 1], steps[|steps| - 1];
      RecordHolds(c, prefix, op);
      AnswersHold(c, prefix, op);
      RecordKept(c, After(c, prefix), last, op, Owned(prefix, op));
    }
  }

  lemma FirstRecord(c: Cluster, op: Op)
    ensures RecordInv(c, Init(c), op, false)
  {
  }

  /**
   In every run, crashes included: a running handler has its record if and only if nobody has
   swept or cleared it since the handler last wrote it.
   */
  lemma RecordIsExact(c: Cluster, steps: seq<Step>, op: Op)
    requires c.Valid() && Runs(c, steps) && InFlight(c, After(c, steps), op)
    ensures op in After(c, steps).disk.outbox <==> Owned(steps, op)
  {
    RecordHolds(c, steps, op);
  }

  // ---------- Without flushes only the monitor takes a record ----------

  /** The monitor has cleared the record at most of a handler that already sends. */
  ghost predicate DropInv(st: State, op: Op, owned: bool, dropped: bool) {
    && (op !in st.past.used ==> !dropped)
    && (op in st.mem.handlers && (st.mem.handlers[op].Journaled? || BeforeSend(st.mem.handlers[op])) ==> !dropped)
    && (op in st.mem.handlers ==> (owned <==> !dropped))
  }

  lemma DropKept(c: Cluster, st: State, step: Step, op: Op, owned: bool, dropped: bool)
    requires Known(st, op) && OwnSender(c, st, op) && DropInv(st, op, owned, dropped) && Enabled(c, st, step) && !Sweeps(step)
    ensures DropInv(Do(c, st, step), op, OwnedAfter(step, op, owned), dropped || step == Discard(op, true))
  {
  }

  lemma {:induction false} DropHolds(c: Cluster, steps: seq<Step>, op: Op)
    requires c.Valid() && Runs(c, steps) && forall i | 0 <= i < |steps| :: !Sweeps(steps[i])
    ensures DropInv(After(c, steps), op, Owned(steps, op), Discard(op, true) in steps)
  {
    hide Known, DropInv, Do, OwnedAfter, Enabled, Counted, Sweeps, OwnSender, InFlight;
    if steps == [] {
      FirstDrop(c, op);
    } else {
      var prefix, last := steps[..|steps| - 1], steps[|steps| - 1];
      DropHolds(c, prefix, op);
      AnswersHold(c, prefix, op);
      RecordHolds(c, prefix, op);
      DropKept(c, After(c, prefix), last, op, Owned(prefix, op), Discard(op, true) in prefix);
      assert steps == prefix + [last];
    }
  }

  lemma FirstDrop(c: Cluster, op: Op)
    ensures DropInv(Init(c), op, false, false)
  {
  }

  /**
   In every run without a flush a handler that has not begun to send has its record, and one
   that waits for its replicas has it if and only if the monitor has not cleared it.
   */
  lemma MonitorAloneTakesRecords(c: Cluster, steps: seq<Step>, op: Op)
    requires c.Valid() && Runs(c, steps) && InFlight(c, After(c, steps), op)
    requires forall i | 0 <= i < |steps| :: !Sweeps(steps[i])
    ensures op in After(c, steps).disk.outbox <==> Discard(op, true) !in steps
    ensures var stage := After(c, steps).mem.handlers[op];
            stage.Journaled? || BeforeSend(stage) ==> op in After(c, steps).disk.outbox
  {
    RecordIsExact(c, steps, op);
    DropHolds(c, steps, op);
  }

  // ---------- A replica that says it is being copied to ----------

  /** Counted as being copied to, while nobody copies to it. */
  predicate Stuck(st: State, r: Replica) {
    r in st.mem.resync && !(Resyncing(st) && st.mem.fence.target == r)
  }

  /** An answer of that kind to a write is taken at its word. */
  lemma ConflictSticks(c: Cluster, st: State, op: Op, delivered: bool, queued: bool, landed: bool)
    requires Enabled(c, st, Visit(op, Fail(delivered, queued, true, landed)))
    ensures Stuck(DoVisit(c, st, op, Fail(delivered, queued, true, landed)), c.replicas[st.mem.senders[op].next])
  {
  }

  lemma StuckStays(c: Cluster, st: State, step: Step, r: Replica)
    requires Enabled(c, st, step) && !step.Crash? && Stuck(st, r)
    ensures Stuck(Do(c, st, step), r) && !(step.ResyncStart? && step.replica == r)
  {
  }

  /** From then on, until a crash, the monitor never copies to that replica. */
  lemma {:induction false} NeverCopied(c: Cluster, steps: seq<Step>, more: seq<Step>, r: Replica)
    requires Runs(c, steps) && Runs(c, steps + more) && Crash !in more && Stuck(After(c, steps), r)
    ensures Stuck(After(c, steps + more), r)
    ensures forall i | 0 <= i < |more| :: !(more[i].ResyncStart? && more[i].replica == r)
    decreases |more|
  {
    hide Do, Enabled, Stuck;
    if more == [] {
      assert steps + more == steps;
    } else {
      var all, less, last := steps + more, more[..|more| - 1], more[|more| - 1];
      assert all[..|all| - 1] == steps + less && more == less + [last];
      NeverCopied(c, steps, less, r);
      StuckStays(c, After(c, steps + less), last, r);
    }
  }

  /** So the cluster never settles: once all flag writes have landed, the replica is dirty on disk. */
  lemma NeverSettles(c: Cluster, steps: seq<Step>, more: seq<Step>, r: Replica)
    requires c.Valid() && Runs(c, steps) && Runs(c, steps + more) && Crash !in more
    requires Prompt(c, steps + more) && Careful(c, steps + more) && Recorded(c, steps + more) && Held(c, steps + more) && Alone(c, steps + more)
    requires r in c.replicas && Stuck(After(c, steps), r) && After(c, steps + more).mem.writes == {}
    ensures r in OnDisk(After(c, steps + more))
  {
    hide Covered, DiskCovered, Firm, Guarded, OpInv;
    NeverCopied(c, steps, more, r);
    NothingForgotten(c, steps + more);
  }
}

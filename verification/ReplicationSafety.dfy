/**
 Safety of the replication machine over whole runs.

 `Inv` is kept by every step except a crash. It says that no local write is forgotten
 while the primary stays up, as long as a failing write that took effect has its record
 (`Recorded`) and a flush finds no other local write at the replica that it empties
 (`Alone`). `DiskInv` is what survives a crash. It needs three more conditions: a mark
 reaches the disk before anyone relies on it (`Prompt`), the monitor removes the outbox
 record of a write only when no other replica is still owed that write (`Careful`), and no
 flag is cleared on disk while the record of a handler is swept (`Held`).
 */
module ReplicationSafety {
  import opened Replication

  /** Who may know of a write, and when. */
  ghost predicate Known(st: State, op: Op) {
    && (op in st.disk.local || op in st.disk.outbox || op in st.mem.recovery || op in st.mem.handlers || op in st.past.wrote ==>
          op in st.past.used)
    && (op in st.disk.local ==> op in st.past.wrote)
    && (op in st.disk.outbox && st.disk.outbox[op] == Committed ==> op in st.past.wrote)
    && (op in st.mem.senders ==> op in st.past.wrote && op !in st.mem.recovery)
    && (op in st.mem.handlers ==> op !in st.mem.recovery && (op in st.past.wrote <==> !st.mem.handlers[op].Journaled?))
    && (op in st.mem.handlers && (st.mem.handlers[op].Journaled? || BeforeSend(st.mem.handlers[op])) ==>
          op !in st.mem.senders && forall r :: (r, op) !in st.disk.pending)
    && (op in st.mem.handlers && op in st.disk.local && (st.mem.handlers[op].Marked? || st.mem.handlers[op].Bumped?) ==>
          op in st.disk.outbox)
    && (forall r :: (r, op) in st.disk.pending ==> op in st.past.wrote)
  }

  /** A write made while the monitor copies has not been sent to anyone yet. */
  ghost predicate Late(c: Cluster, st: State, op: Op) {
    && op !in st.mem.recovery
    && (op in st.mem.senders ==> st.mem.senders[op].next == 0)
    && (c.mode != Async && op in st.mem.handlers ==> !st.mem.handlers[op].Delivered?)
    && (op in st.disk.outbox || (op in st.mem.handlers && st.mem.handlers[op].Written?))
    && (forall r :: (r, op) !in st.disk.pending)
  }

  predicate Resyncing(st: State) {
    st.mem.fence.Copying? || st.mem.fence.Copied?
  }

  /** The monitor copies to a dirty replica, everything written before it took the fence. */
  ghost predicate Fenced(c: Cluster, st: State, op: Op) {
    Resyncing(st) ==>
      && st.mem.fence.target in c.replicas && st.mem.fence.target in st.mem.dirty && st.mem.fence.target in st.mem.resync
      && (op in st.mem.fence.snapshot ==> op in st.past.wrote)
      && (op in st.disk.local && op !in st.mem.fence.snapshot ==> Late(c, st, op))
      && (st.mem.fence.Copied? && op in st.disk.local && op in st.mem.fence.snapshot ==> (st.mem.fence.target, op) in st.applied)
  }

  /** What holds between a local write and the i-th replica. */
  ghost predicate Good(c: Cluster, st: State, op: Op, i: nat)
    requires i < |c.replicas|
  {
    op in st.disk.local ==>
      var r := c.replicas[i];
      // behind its own progress a pass leaves only replicas that have the write or await a copy
      && (op in st.mem.senders && i < st.mem.senders[op].next ==> Reached(st, op, r))
      && (c.mode != Async && op in st.mem.handlers && st.mem.handlers[op].Delivered? ==> Reached(st, op, r))
      // a queued write was sent round
      && (op in st.disk.outbox && op !in st.mem.recovery && (exists q :: (q, op) in st.disk.pending) ==>
            Reached(st, op, r) || Heading(st, op, i))
      // no local write is forgotten
      && (Reached(st, op, r) || op in st.disk.outbox || Heading(st, op, i))
  }

  /** Everything known about one write. */
  ghost predicate OpInv(c: Cluster, st: State, op: Op) {
    Known(st, op) && Fenced(c, st, op) && forall i: nat | i < |c.replicas| :: Good(c, st, op, i)
  }

  ghost predicate Inv(c: Cluster, st: State) {
    st.mem.resync <= st.mem.dirty && forall op :: OpInv(c, st, op)
  }

  /** The monitor clears the record of a write only if no other replica depends on it. */
  predicate CarefulStep(c: Cluster, st: State, step: Step) {
    step.Discard? && step.cleared && st.mem.fence.Copied? ==>
      forall i: nat | i < |c.replicas| ::
        c.replicas[i] == st.mem.fence.target || (step.op !in st.mem.recovery && !Heading(st, step.op, i))
  }

  /** The weaker condition that suffices while the primary stays up. */
  predicate NotReplaying(c: Cluster, st: State, step: Step) {
    step.Discard? && step.cleared && st.mem.fence.Copied? ==>
      step.op !in st.mem.recovery || forall i: nat | i < |c.replicas| :: c.replicas[i] == st.mem.fence.target
  }

  /** A write that took effect and fails has its record, and so has one whose commit mark is lost. */
  predicate RecordedStep(st: State, step: Step) {
    match step
    case Write(op, flush, reply) =>
      reply.TookEffect() ==> reply.Stored? || (reply.Threw? && !reply.caught && !flush && op in st.disk.outbox)
    case Commit(op, ok, recordLeft) => ok || recordLeft || op in st.disk.outbox || op !in st.disk.local
    case _ => true
  }

  /** A flush that empties a replica finds no other local write there. */
  predicate AloneStep(c: Cluster, st: State, step: Step) {
    && step.Visit? && step.outcome.Ack? && step.op in st.past.flushes
    && step.op in st.mem.senders && st.mem.senders[step.op].next < |c.replicas| ==>
      forall k | k in st.disk.local :: k == step.op || (c.replicas[st.mem.senders[step.op].next], k) !in st.applied
  }

  // ---------- Every step but a crash keeps the invariant ----------

  /** A step that touches nothing the invariant says about a write keeps it. */
  lemma UntouchedKeeps(c: Cluster, st: State, st': State, op: Op)
    requires OpInv(c, st, op)
    requires st.mem.dirty <= st'.mem.dirty && st.mem.resync <= st'.mem.resync && st.past.used <= st'.past.used
    requires st'.mem.fence == st.mem.fence || (!Resyncing(st) && !Resyncing(st'))
    requires op in st.disk.local ==>
      forall r :: (r, op) in st.applied ==> (r, op) in st'.applied || (r in st'.mem.dirty && !Resyncing(st))
    requires (op in st.disk.local <==> op in st'.disk.local) && (op in st.mem.recovery <==> op in st'.mem.recovery)
    requires op in st.past.wrote <==> op in st'.past.wrote
    requires op in st.disk.outbox <==> op in st'.disk.outbox
    requires op in st.disk.outbox ==> st'.disk.outbox[op] == st.disk.outbox[op]
    requires op in st.mem.handlers <==> op in st'.mem.handlers
    requires op in st.mem.handlers ==> st'.mem.handlers[op] == st.mem.handlers[op]
    requires op in st.mem.senders <==> op in st'.mem.senders
    requires op in st.mem.senders ==> st'.mem.senders[op] == st.mem.senders[op]
    requires forall r :: (r, op) in st.disk.pending <==> (r, op) in st'.disk.pending
    ensures OpInv(c, st', op)
  {
    forall i: nat | i < |c.replicas| ensures Good(c, st', op, i) {
      assert Good(c, st, op, i);
    }
  }

  lemma BeginKeeps(c: Cluster, st: State, k: Op, ok: bool, left: bool, op: Op)
    requires OpInv(c, st, op) && k !in st.past.used
    ensures OpInv(c, DoBegin(st, k, ok, left), op)
  {
    var st' := DoBegin(st, k, ok, left);
    if op != k {
      UntouchedKeeps(c, st, st', op);
    } else {
      forall i: nat | i < |c.replicas| ensures Good(c, st', op, i) {
        assert Good(c, st, op, i);
      }
    }
  }

  /** A flush takes the other writes out of the promise, together with their records. */
  lemma SweepKeeps(c: Cluster, st: State, st': State, op: Op)
    requires OpInv(c, st, op) && op !in st'.disk.local && op !in st'.disk.outbox && st'.disk.pending == {}
    requires st.past.used <= st'.past.used && (op in st.past.wrote <==> op in st'.past.wrote)
    requires st'.mem == st.mem.(handlers := st'.mem.handlers)
    requires op in st.mem.handlers <==> op in st'.mem.handlers
    requires op in st.mem.handlers ==> st'.mem.handlers[op] == st.mem.handlers[op]
    ensures OpInv(c, st', op)
  {
  }

  lemma WriteKeeps(c: Cluster, st: State, k: Op, flush: bool, reply: Reply, op: Op)
    requires OpInv(c, st, op) && k in st.mem.handlers && st.mem.handlers[k] == Journaled
    requires OpInv(c, st, k) && RecordedStep(st, Write(k, flush, reply))
    ensures OpInv(c, DoWrite(c, st, k, flush, reply), op)
  {
    var st' := DoWrite(c, st, k, flush, reply);
    if op != k {
      if flush && reply.TookEffect() {
        SweepKeeps(c, st, st', op);
      } else {
        UntouchedKeeps(c, st, st', op);
      }
    } else {
      forall i: nat | i < |c.replicas| ensures Good(c, st', op, i) {
        assert Good(c, st, op, i);
      }
    }
  }

  lemma CommitKeeps(c: Cluster, st: State, k: Op, ok: bool, left: bool, op: Op)
    requires OpInv(c, st, op) && k in st.mem.handlers && st.mem.handlers[k] == Written
    requires RecordedStep(st, Commit(k, ok, left))
    ensures OpInv(c, DoCommit(st, k, ok, left), op)
  {
    var st' := DoCommit(st, k, ok, left);
    if op != k {
      UntouchedKeeps(c, st, st', op);
    } else {
      forall i: nat | i < |c.replicas| ensures Good(c, st', op, i) {
        assert Good(c, st, op, i);
      }
    }
  }

  lemma BumpKeeps(c: Cluster, st: State, k: Op, op: Op)
    requires OpInv(c, st, op) && k in st.mem.handlers && st.mem.handlers[k] == Marked
    ensures OpInv(c, AtStage(st, k, Bumped), op)
  {
    var st' := AtStage(st, k, Bumped);
    if op != k {
      UntouchedKeeps(c, st, st', op);
    } else {
      forall i: nat | i < |c.replicas| ensures Good(c, st', op, i) {
        assert Good(c, st, op, i);
      }
    }
  }

  lemma StartSendKeeps(c: Cluster, st: State, k: Op, op: Op)
    requires OpInv(c, st, op) && k in st.mem.handlers && st.mem.handlers[k] == Bumped
    ensures OpInv(c, DoStartSend(c, st, k), op)
  {
    var st' := DoStartSend(c, st, k);
    if op != k {
      UntouchedKeeps(c, st, st', op);
    } else {
      forall i: nat | i < |c.replicas| ensures Good(c, st', op, i) {
        assert Good(c, st, op, i);
      }
    }
  }

  lemma VisitKeeps(c: Cluster, st: State, k: Op, outcome: Outcome, op: Op)
    requires OpInv(c, st, op) && c.Valid() && st.mem.resync <= st.mem.dirty && Enabled(c, st, Visit(k, outcome))
    requires AloneStep(c, st, Visit(k, outcome))
    ensures OpInv(c, DoVisit(c, st, k, outcome), op)
  {
    var st' := DoVisit(c, st, k, outcome);
    if op != k {
      UntouchedKeeps(c, st, st', op);
    } else {
      forall i: nat | i < |c.replicas| ensures Good(c, st', op, i) {
        assert Good(c, st, op, i);
      }
    }
  }

  lemma EndSendKeeps(c: Cluster, st: State, k: Op, op: Op)
    requires OpInv(c, st, op) && Enabled(c, st, EndSend(k))
    ensures OpInv(c, DoEndSend(c, st, k), op)
  {
    var st' := DoEndSend(c, st, k);
    if op != k {
      UntouchedKeeps(c, st, st', op);
    } else {
      forall i: nat | i < |c.replicas| ensures Good(c, st', op, i) {
        assert Good(c, st, op, i);
      }
    }
  }

  lemma FinalizeKeeps(c: Cluster, st: State, k: Op, op: Op)
    requires OpInv(c, st, op) && k in st.mem.handlers && st.mem.handlers[k] == Delivered
    ensures OpInv(c, DoFinalize(c, st, k), op)
  {
    var st' := DoFinalize(c, st, k);
    if op != k {
      UntouchedKeeps(c, st, st', op);
    } else {
      forall i: nat | i < |c.replicas| ensures Good(c, st', op, i) {
        assert Good(c, st, op, i);
      }
    }
  }

  lemma RecoverKeeps(c: Cluster, st: State, k: Op, truncated: bool, marked: set<Replica>, op: Op)
    requires OpInv(c, st, op) && k in st.mem.recovery
    ensures OpInv(c, DoRecover(c, st, k, truncated, marked), op)
  {
    var st' := DoRecover(c, st, k, truncated, marked);
    if op != k {
      UntouchedKeeps(c, st, st', op);
    } else {
      forall i: nat | i < |c.replicas| ensures Good(c, st', op, i) {
        assert Good(c, st, op, i) && c.replicas[i] in c.All();
      }
    }
  }

  lemma FlagKeeps(c: Cluster, st: State, landed: bool, op: Op)
    requires OpInv(c, st, op) && st.mem.fence.Flagging?
    ensures OpInv(c, DoFlag(st, landed), op)
  {
    var st' := DoFlag(st, landed);
    forall i: nat | i < |c.replicas| ensures Good(c, st', op, i) {
      assert Good(c, st, op, i);
    }
  }

  lemma ResyncStartKeeps(c: Cluster, st: State, r: Replica, landed: bool, op: Op)
    requires OpInv(c, st, op) && r in c.replicas && r in st.mem.dirty && st.mem.fence.Free?
    ensures OpInv(c, DoResyncStart(st, r, landed), op)
  {
    var st' := DoResyncStart(st, r, landed);
    forall i: nat | i < |c.replicas| ensures Good(c, st', op, i) {
      assert Good(c, st, op, i);
    }
  }

  lemma ResyncFailedKeeps(c: Cluster, st: State, landed: bool, op: Op)
    requires OpInv(c, st, op) && st.mem.fence.Copying?
    ensures OpInv(c, DoResyncFailed(st, landed), op)
  {
    var st' := DoResyncFailed(st, landed);
    forall i: nat | i < |c.replicas| ensures Good(c, st', op, i) {
      assert Good(c, st, op, i);
    }
  }

  lemma ResyncCopiedKeeps(c: Cluster, st: State, extra: set<Op>, op: Op)
    requires OpInv(c, st, op) && st.mem.fence.Copying?
    ensures OpInv(c, DoResyncCopied(st, extra), op)
  {
    var st' := DoResyncCopied(st, extra);
    forall i: nat | i < |c.replicas| ensures Good(c, st', op, i) {
      assert Good(c, st, op, i);
    }
  }

  lemma DiscardKeeps(c: Cluster, st: State, k: Op, cleared: bool, op: Op)
    requires OpInv(c, st, op) && Enabled(c, st, Discard(k, cleared)) && NotReplaying(c, st, Discard(k, cleared))
    ensures OpInv(c, DoDiscard(st, k, cleared), op)
  {
    var st' := DoDiscard(st, k, cleared);
    if op != k {
      UntouchedKeeps(c, st, st', op);
    } else {
      forall i: nat | i < |c.replicas| ensures Good(c, st', op, i) {
        assert Good(c, st, op, i);
      }
    }
  }

  lemma ResyncDoneKeeps(c: Cluster, st: State, op: Op)
    requires OpInv(c, st, op) && st.mem.fence.Copied?
    ensures OpInv(c, DoResyncDone(st), op)
  {
    var st' := DoResyncDone(st);
    forall i: nat | i < |c.replicas| ensures Good(c, st', op, i) {
      assert Good(c, st, op, i);
    }
  }

  lemma OpKept(c: Cluster, st: State, step: Step, op: Op)
    requires c.Valid() && Inv(c, st)
    requires Enabled(c, st, step) && !step.Crash? && NotReplaying(c, st, step) && RecordedStep(st, step) && AloneStep(c, st, step)
    ensures OpInv(c, Do(c, st, step), op)
  {
    hide DoBegin, DoWrite, DoCommit, DoStartSend, DoVisit, DoEndSend, DoFinalize, DoRecover, DoFlag, DoResyncStart;
    hide DoResyncFailed, DoResyncCopied, DoDiscard, DoResyncDone, DoCrash, OpInv;
    assert OpInv(c, st, op);
    match step
    case Begin(k, ok, left) => BeginKeeps(c, st, k, ok, left, op);
    case Write(k, flush, reply) =>
      assert OpInv(c, st, k);
      WriteKeeps(c, st, k, flush, reply, op);
    case Commit(k, ok, left) => CommitKeeps(c, st, k, ok, left, op);
    case Bump(k) => BumpKeeps(c, st, k, op);
    case StartSend(k) => StartSendKeeps(c, st, k, op);
    case Visit(k, outcome) => VisitKeeps(c, st, k, outcome, op);
    case EndSend(k) => EndSendKeeps(c, st, k, op);
    case Finalize(k) => FinalizeKeeps(c, st, k, op);
    case Recover(k, truncated, marked) => RecoverKeeps(c, st, k, truncated, marked, op);
    case Flag(landed) => FlagKeeps(c, st, landed, op);
    case ResyncStart(r, landed) => ResyncStartKeeps(c, st, r, landed, op);
    case ResyncFailed(landed) => ResyncFailedKeeps(c, st, landed, op);
    case ResyncCopied(extra) => ResyncCopiedKeeps(c, st, extra, op);
    case Discard(k, cleared) => DiscardKeeps(c, st, k, cleared, op);
    case ResyncDone => ResyncDoneKeeps(c, st, op);
    case PingFailed(_) | Reachable(_) | MarkDirty(_, _) | Land(_, _, _) => UntouchedKeeps(c, st, Do(c, st, step), op);
    case Crash =>
  }

  lemma ResyncKept(c: Cluster, st: State, step: Step)
    requires Inv(c, st) && Enabled(c, st, step)
    ensures Do(c, st, step).mem.resync <= Do(c, st, step).mem.dirty
  {
    hide Known, Good, Late;
    assert OpInv(c, st, 0);
  }

  lemma InvKept(c: Cluster, st: State, step: Step)
    requires c.Valid() && Inv(c, st)
    requires Enabled(c, st, step) && !step.Crash? && NotReplaying(c, st, step) && RecordedStep(st, step) && AloneStep(c, st, step)
    ensures Inv(c, Do(c, st, step))
  {
    hide OpInv;
    ResyncKept(c, st, step);
    forall op ensures OpInv(c, Do(c, st, step), op) {
      OpKept(c, st, step, op);
    }
  }

  lemma InitInv(c: Cluster)
    ensures Inv(c, Init(c)) && Init(c).mem.recovery == {}
  {
  }

  lemma NothingToReplay(c: Cluster, st: State, step: Step)
    requires Enabled(c, st, step) && !step.Crash? && st.mem.recovery == {}
    ensures Do(c, st, step).mem.recovery == {} && NotReplaying(c, st, step)
  {
  }

  lemma InvIsCovered(c: Cluster, st: State)
    requires Inv(c, st)
    ensures Covered(c, st)
  {
    forall op, i: nat | op in st.disk.local && i < |c.replicas|
      ensures Reached(st, op, c.replicas[i]) || op in st.disk.outbox || Heading(st, op, i)
    {
      assert OpInv(c, st, op) && Good(c, st, op, i);
    }
  }

  /** Along the run every failing write that took effect has its record. */
  predicate Recorded(c: Cluster, steps: seq<Step>)
    requires Runs(c, steps)
  {
    steps == [] ||
    (Recorded(c, steps[..|steps| - 1]) && RecordedStep(After(c, steps[..|steps| - 1]), steps[|steps| - 1]))
  }

  predicate Alone(c: Cluster, steps: seq<Step>)
    requires Runs(c, steps)
  {
    steps == [] ||
    (Alone(c, steps[..|steps| - 1]) && AloneStep(c, After(c, steps[..|steps| - 1]), steps[|steps| - 1]))
  }

  /** While the primary stays up, no local write is ever forgotten, whatever interleaves. */
  lemma {:induction false} UpIsCovered(c: Cluster, steps: seq<Step>)
    requires c.Valid() && Runs(c, steps) && Crash !in steps && Recorded(c, steps) && Alone(c, steps)
    ensures Inv(c, After(c, steps)) && After(c, steps).mem.recovery == {}
    ensures Covered(c, After(c, steps))
  {
    hide Inv, Covered, RecordedStep, AloneStep, Do, Enabled, Init;
    if steps == [] {
      InitInv(c);
    } else {
      var prefix, last := steps[..|steps| - 1], steps[|steps| - 1];
      UpIsCovered(c, prefix);
      NothingToReplay(c, After(c, prefix), last);
      InvKept(c, After(c, prefix), last);
    }
    InvIsCovered(c, After(c, steps));
  }

  /**
   The condition is exact: a commit mark that is lost for a local write without a record forgets
   the write at once, unless every replica awaits a full copy anyway.
   */
  lemma LostCommitIsExact(c: Cluster, st: State, k: Op)
    requires c.Valid() && Inv(c, st) && Enabled(c, st, Commit(k, false, false)) && k in st.disk.local
    ensures Covered(c, Do(c, st, Commit(k, false, false))) <==>
            k in st.disk.outbox || forall i: nat | i < |c.replicas| :: Reached(st, k, c.replicas[i])
  {
    var st' := Do(c, st, Commit(k, false, false));
    assert OpInv(c, st, k);
    if k in st.disk.outbox || forall i: nat | i < |c.replicas| :: Reached(st, k, c.replicas[i]) {
      forall op, i: nat | op in st'.disk.local && i < |c.replicas|
        ensures Reached(st', op, c.replicas[i]) || op in st'.disk.outbox || Heading(st', op, i)
      {
        assert OpInv(c, st, op) && Good(c, st, op, i);
        assert Reached(st', op, c.replicas[i]) <==> Reached(st, op, c.replicas[i]);
      }
    } else {
      var i: nat :| i < |c.replicas| && !Reached(st, k, c.replicas[i]);
      assert !Reached(st', k, c.replicas[i]) && k !in st'.disk.outbox && !Heading(st', k, i);
    }
  }

  /**
   Exactly when the acknowledged delivery of a flush keeps the promise: every other local write
   that the replica held still has its record or is on its way there.
   */
  lemma FlushDeliveryIsExact(c: Cluster, st: State, f: Op)
    requires c.Valid() && Inv(c, st) && Enabled(c, st, Visit(f, Ack)) && f in st.past.flushes
    ensures var i := st.mem.senders[f].next;
      Covered(c, Do(c, st, Visit(f, Ack))) <==>
      forall k | k in st.disk.local && k != f && (c.replicas[i], k) in st.applied :: k in st.disk.outbox || Heading(st, k, i)
  {
    var i, st' := st.mem.senders[f].next, Do(c, st, Visit(f, Ack));
    var r := c.replicas[i];
    assert r !in st'.mem.dirty;
    if forall k | k in st.disk.local && k != f && (r, k) in st.applied :: k in st.disk.outbox || Heading(st, k, i) {
      forall op, j: nat | op in st'.disk.local && j < |c.replicas|
        ensures Reached(st', op, c.replicas[j]) || op in st'.disk.outbox || Heading(st', op, j)
      {
        assert OpInv(c, st, op) && Good(c, st, op, j);
        assert j != i ==> c.replicas[j] != r;
      }
    } else {
      var k :| k in st.disk.local && k != f && (r, k) in st.applied && k !in st.disk.outbox && !Heading(st, k, i);
      assert !Reached(st', k, r) && k !in st'.disk.outbox && !Heading(st', k, i);
    }
  }

  // ---------- Crashes ----------

  /** A restart keeps the promise exactly when the disk alone already kept it. */
  lemma CrashIsExact(c: Cluster, st: State)
    ensures Covered(c, Do(c, st, Crash)) <==> DiskCovered(c, st)
  {
    var st' := Do(c, st, Crash);
    if Covered(c, st') {
      forall op, i | op in st.disk.local && 0 <= i < |c.replicas|
        ensures (c.replicas[i], op) in st.applied || c.replicas[i] in OnDisk(st) || op in st.disk.outbox
      {
        assert Reached(st', op, c.replicas[i]) || op in st'.disk.outbox || Heading(st', op, i);
      }
    }
  }

  lemma CrashKeeps(c: Cluster, st: State)
    requires Inv(c, st) && DiskCovered(c, st)
    ensures Inv(c, Do(c, st, Crash))
  {
    var st' := Do(c, st, Crash);
    forall op ensures OpInv(c, st', op) {
      assert OpInv(c, st, op);
    }
  }

  /** A handler whose record a flush has swept, and that has not committed yet. */
  predicate Exposed(st: State, op: Op) {
    && op in st.mem.handlers && op !in st.disk.outbox
    && (st.mem.handlers[op].Journaled? || st.mem.handlers[op].Written?)
  }

  /** Memory and disk agree about dirty replicas, up to the one flag write in flight. */
  ghost predicate MarkInv(c: Cluster, st: State) {
    && (forall r | r in st.mem.dirty && r in c.replicas :: r in st.disk.marks || (r, true) in st.mem.writes)
    && (forall r | (r, false) in st.mem.writes :: r !in st.mem.dirty)
    && (forall v, w | v in st.mem.writes && w in st.mem.writes :: v == w)
    && (st.mem.fence.Flagging? ==> st.mem.writes == {} && st.mem.fence.target !in st.mem.dirty)
    && (Resyncing(st) ==> st.mem.fence.target in st.disk.marks)
  }

  /** Every local write is at the replica, awaits a copy, still has its record, or is about to get it again. */
  ghost predicate Firm(c: Cluster, st: State) {
    forall op, i: nat | op in st.disk.local && i < |c.replicas| ::
      Reached(st, op, c.replicas[i]) || op in st.disk.outbox || Exposed(st, op)
  }

  /** While a handler is exposed, the disk condemns every replica. */
  ghost predicate Guarded(c: Cluster, st: State) {
    forall op, r | Exposed(st, op) && r in c.replicas :: r in st.disk.marks
  }

  /** The durable part of a mark succeeds; a clean flag may be lost. */
  predicate Lands(c: Cluster, step: Step) {
    match step
    case Visit(_, outcome) => outcome.Fail? ==> outcome.landed
    case Recover(_, _, marked) => c.All() <= marked
    case MarkDirty(_, landed) => landed
    case ResyncStart(_, landed) => landed
    case ResyncFailed(landed) => landed
    case Land(_, value, landed) => value ==> landed
    case _ => true
  }

  predicate PromptStep(c: Cluster, st: State, step: Step) {
    && Lands(c, step)
    && ((st.mem.writes == {} && !st.mem.fence.Flagging?) || step.Land? || step.Flag? || step.Crash?)
  }

  /** No flag is cleared while the record of a handler is missing. */
  predicate HeldStep(st: State, step: Step) {
    step.Flag? || (step.Land? && !step.value) ==> forall op | op in st.mem.handlers :: !Exposed(st, op)
  }

  lemma VisitMarks(c: Cluster, st: State, k: Op, outcome: Outcome)
    requires MarkInv(c, st) && Enabled(c, st, Visit(k, outcome)) && PromptStep(c, st, Visit(k, outcome))
    ensures MarkInv(c, DoVisit(c, st, k, outcome))
  {
  }

  lemma WriteMarks(c: Cluster, st: State, k: Op, flush: bool, reply: Reply)
    requires MarkInv(c, st) && PromptStep(c, st, Write(k, flush, reply)) && (Resyncing(st) ==> st.mem.fence.target in c.replicas)
    ensures MarkInv(c, DoWrite(c, st, k, flush, reply))
  {
    assert forall r | r in c.replicas :: r in c.All();
  }

  lemma HandlerMarks(c: Cluster, st: State, step: Step)
    requires MarkInv(c, st) && Enabled(c, st, step) && PromptStep(c, st, step) && (Resyncing(st) ==> st.mem.fence.target in c.replicas)
    requires step.Begin? || step.Commit? || step.Bump? || step.StartSend? || step.EndSend? || step.Finalize? || step.Recover?
    ensures MarkInv(c, Do(c, st, step))
  {
    hide DoVisit, DoResyncStart, DoResyncFailed, DoResyncCopied, DoDiscard, DoResyncDone, DoCrash, DoFlag, DoLand;
    assert forall r | r in c.replicas :: r in c.All();
  }

  lemma MonitorMarks(c: Cluster, st: State, step: Step)
    requires MarkInv(c, st) && Enabled(c, st, step) && PromptStep(c, st, step) && (Resyncing(st) ==> st.mem.fence.target in st.mem.dirty)
    requires step.PingFailed? || step.Reachable? || step.MarkDirty? || step.Land? || step.Flag? || step.ResyncStart? ||
             step.ResyncFailed? || step.ResyncCopied? || step.Discard? || step.ResyncDone? || step.Crash?
    ensures MarkInv(c, Do(c, st, step))
  {
    hide DoVisit, DoBegin, DoWrite, DoCommit, DoStartSend, DoEndSend, DoFinalize, DoRecover;
  }

  lemma MarkInvKept(c: Cluster, st: State, step: Step)
    requires Inv(c, st) && MarkInv(c, st) && Enabled(c, st, step) && PromptStep(c, st, step)
    ensures MarkInv(c, Do(c, st, step))
  {
    hide Known, Good, Late, MarkInv, DoVisit, DoBegin, DoWrite, DoCommit, DoStartSend, DoEndSend, DoFinalize, DoRecover;
    hide DoResyncStart, DoResyncFailed, DoResyncCopied, DoDiscard, DoResyncDone, DoCrash, DoFlag, DoLand;
    assert OpInv(c, st, 0);
    match step
    case Visit(k, outcome) => VisitMarks(c, st, k, outcome);
    case Write(k, flush, reply) => WriteMarks(c, st, k, flush, reply);
    case Begin(_, _, _) | Commit(_, _, _) | Bump(_) | StartSend(_) | EndSend(_) | Finalize(_) | Recover(_, _, _) =>
      HandlerMarks(c, st, step);
    case _ => MonitorMarks(c, st, step);
  }

  lemma VisitFirm(c: Cluster, st: State, k: Op, outcome: Outcome)
    requires c.Valid() && Firm(c, st) && Enabled(c, st, Visit(k, outcome)) && AloneStep(c, st, Visit(k, outcome))
    ensures Firm(c, DoVisit(c, st, k, outcome))
  {
    var st' := DoVisit(c, st, k, outcome);
    forall op, i: nat | op in st'.disk.local && i < |c.replicas|
      ensures Reached(st', op, c.replicas[i]) || op in st'.disk.outbox || Exposed(st', op)
    {
      assert Reached(st, op, c.replicas[i]) || op in st.disk.outbox || Exposed(st, op);
    }
  }

  lemma FirmKept(c: Cluster, st: State, step: Step)
    requires c.Valid() && Inv(c, st) && Firm(c, st) && Enabled(c, st, step) && CarefulStep(c, st, step) && RecordedStep(st, step)
    requires AloneStep(c, st, step) && (step.Crash? ==> DiskCovered(c, st))
    ensures Firm(c, Do(c, st, step))
  {
    hide DoVisit;
    if step.Visit? {
      VisitFirm(c, st, step.op, step.outcome);
    } else {
      var st' := Do(c, st, step);
      forall op, i: nat | op in st'.disk.local && i < |c.replicas|
        ensures Reached(st', op, c.replicas[i]) || op in st'.disk.outbox || Exposed(st', op)
      {
        assert OpInv(c, st, op) && Good(c, st, op, i);
        assert op in st.disk.local ==> Reached(st, op, c.replicas[i]) || op in st.disk.outbox || Exposed(st, op);
      }
    }
  }

  lemma GuardedKept(c: Cluster, st: State, step: Step)
    requires Inv(c, st) && Guarded(c, st) && Enabled(c, st, step) && RecordedStep(st, step) && HeldStep(st, step)
    ensures Guarded(c, Do(c, st, step))
  {
    var st' := Do(c, st, step);
    forall op, r | Exposed(st', op) && r in c.replicas
      ensures r in st'.disk.marks
    {
      assert OpInv(c, st, op);
      assert r in c.All();
      assert Exposed(st, op) || (step.Write? && step.flush && step.reply.TookEffect());
    }
  }

  /** What a crash cannot break. */
  ghost predicate DiskInv(c: Cluster, st: State) {
    Inv(c, st) && MarkInv(c, st) && Firm(c, st) && Guarded(c, st) && DiskCovered(c, st)
  }

  lemma DiskCoveredKept(c: Cluster, st: State, step: Step)
    requires DiskInv(c, st) && Enabled(c, st, step) && PromptStep(c, st, step) && AloneStep(c, st, step)
    requires MarkInv(c, Do(c, st, step)) && Firm(c, Do(c, st, step)) && Guarded(c, Do(c, st, step))
    ensures DiskCovered(c, Do(c, st, step))
  {
    var st' := Do(c, st, step);
    forall op, i: nat | op in st'.disk.local && i < |c.replicas|
      ensures (c.replicas[i], op) in st'.applied || c.replicas[i] in OnDisk(st') || op in st'.disk.outbox
    {
      assert Reached(st', op, c.replicas[i]) || op in st'.disk.outbox || Exposed(st', op);
      if step.PingFailed? || step.Reachable? {
        assert OnDisk(st') == OnDisk(st);
      }
    }
  }

  lemma DiskInvKept(c: Cluster, st: State, step: Step)
    requires c.Valid() && DiskInv(c, st) && Enabled(c, st, step)
    requires PromptStep(c, st, step) && CarefulStep(c, st, step) && RecordedStep(st, step) && HeldStep(st, step) && AloneStep(c, st, step)
    ensures DiskInv(c, Do(c, st, step))
  {
    hide Inv, MarkInv, Firm, Guarded, DiskCovered;
    if step.Crash? {
      CrashKeeps(c, st);
    } else {
      InvKept(c, st, step);
    }
    MarkInvKept(c, st, step);
    FirmKept(c, st, step);
    GuardedKept(c, st, step);
    DiskCoveredKept(c, st, step);
  }

  /** Every flag write lands before anything else happens. */
  predicate Prompt(c: Cluster, steps: seq<Step>)
    requires Runs(c, steps)
  {
    steps == [] ||
    (Prompt(c, steps[..|steps| - 1]) && PromptStep(c, After(c, steps[..|steps| - 1]), steps[|steps| - 1]))
  }

  predicate Careful(c: Cluster, steps: seq<Step>)
    requires Runs(c, steps)
  {
    steps == [] ||
    (Careful(c, steps[..|steps| - 1]) && CarefulStep(c, After(c, steps[..|steps| - 1]), steps[|steps| - 1]))
  }

  predicate Held(c: Cluster, steps: seq<Step>)
    requires Runs(c, steps)
  {
    steps == [] ||
    (Held(c, steps[..|steps| - 1]) && HeldStep(After(c, steps[..|steps| - 1]), steps[|steps| - 1]))
  }

  /** Through any number of crashes and restarts no local write is forgotten. */
  lemma {:induction false} NothingForgotten(c: Cluster, steps: seq<Step>)
    requires c.Valid() && Runs(c, steps) && Prompt(c, steps) && Careful(c, steps) && Recorded(c, steps) && Held(c, steps) && Alone(c, steps)
    ensures DiskInv(c, After(c, steps))
    ensures Covered(c, After(c, steps)) && DiskCovered(c, After(c, steps))
  {
    if steps == [] {
      InitInv(c);
    } else {
      var prefix, last := steps[..|steps| - 1], steps[|steps| - 1];
      NothingForgotten(c, prefix);
      DiskInvKept(c, After(c, prefix), last);
    }
    InvIsCovered(c, After(c, steps));
  }

  lemma CleanDiskIsDelivered(c: Cluster, st: State)
    requires DiskCovered(c, st) && st.disk.outbox == map[] && OnDisk(st) == {}
    ensures forall op, r | op in st.disk.local && r in c.replicas :: (r, op) in st.applied
  {
    forall op, r | op in st.disk.local && r in c.replicas ensures (r, op) in st.applied {
      var i: nat :| i < |c.replicas| && c.replicas[i] == r;
    }
  }

  /** With no record, mark or queued request left, every replica holds every write. */
  lemma Converged(c: Cluster, steps: seq<Step>)
    requires c.Valid() && Runs(c, steps) && Prompt(c, steps) && Careful(c, steps) && Recorded(c, steps) && Held(c, steps) && Alone(c, steps)
    requires After(c, steps).disk.outbox == map[] && OnDisk(After(c, steps)) == {}
    ensures forall op, r | op in After(c, steps).disk.local && r in c.replicas :: (r, op) in After(c, steps).applied
  {
    NothingForgotten(c, steps);
    CleanDiskIsDelivered(c, After(c, steps));
  }

  lemma {:induction false} OneReplicaIsCareful(c: Cluster, steps: seq<Step>)
    requires c.Valid() && |c.replicas| <= 1 && Runs(c, steps) && Prompt(c, steps) && Recorded(c, steps) && Held(c, steps) && Alone(c, steps)
    ensures Careful(c, steps)
  {
    if steps != [] {
      var prefix, last := steps[..|steps| - 1], steps[|steps| - 1];
      OneReplicaIsCareful(c, prefix);
      NothingForgotten(c, prefix);
      assert OpInv(c, After(c, prefix), 0);
    }
  }
}

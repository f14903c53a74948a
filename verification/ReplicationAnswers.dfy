/**
 What a client may conclude from a success answer, in every run, crashes included.
 */
module ReplicationAnswers {
  import opened Replication
  import opened ReplicationSafety

  lemma BeginKnown(c: Cluster, st: State, k: Op, ok: bool, left: bool, op: Op)
    requires Known(st, op) && Enabled(c, st, Begin(k, ok, left))
    ensures Known(DoBegin(st, k, ok, left), op)
  {
  }

  lemma WriteKnown(c: Cluster, st: State, k: Op, flush: bool, reply: Reply, op: Op)
    requires Known(st, op) && Enabled(c, st, Write(k, flush, reply))
    ensures Known(DoWrite(c, st, k, flush, reply), op)
  {
  }

  lemma CommitKnown(c: Cluster, st: State, k: Op, ok: bool, left: bool, op: Op)
    requires Known(st, op) && Enabled(c, st, Commit(k, ok, left))
    ensures Known(DoCommit(st, k, ok, left), op)
  {
  }

  lemma StartSendKnown(c: Cluster, st: State, k: Op, op: Op)
    requires Known(st, op) && Enabled(c, st, StartSend(k))
    ensures Known(DoStartSend(c, st, k), op)
  {
  }

  lemma VisitKnown(c: Cluster, st: State, k: Op, outcome: Outcome, op: Op)
    requires Known(st, op) && Enabled(c, st, Visit(k, outcome))
    ensures Known(DoVisit(c, st, k, outcome), op)
  {
  }

  lemma EndSendKnown(c: Cluster, st: State, k: Op, op: Op)
    requires Known(st, op) && Enabled(c, st, EndSend(k))
    ensures Known(DoEndSend(c, st, k), op)
  {
  }

  lemma RecoverKnown(c: Cluster, st: State, k: Op, truncated: bool, marked: set<Replica>, op: Op)
    requires Known(st, op) && Enabled(c, st, Recover(k, truncated, marked))
    ensures Known(DoRecover(c, st, k, truncated, marked), op)
  {
  }

  lemma OtherKnown(c: Cluster, st: State, step: Step, op: Op)
    requires Known(st, op) && Enabled(c, st, step)
    requires !(step.Begin? || step.Write? || step.Commit? || step.StartSend? || step.Visit? || step.EndSend? || step.Recover?)
    ensures Known(Do(c, st, step), op)
  {
    hide DoBegin, DoWrite, DoCommit, DoStartSend, DoVisit, DoEndSend, DoRecover;
  }

  /** In every run, crashes and lost records included. */
  lemma KnownKept(c: Cluster, st: State, step: Step, op: Op)
    requires Known(st, op) && Enabled(c, st, step)
    ensures Known(Do(c, st, step), op)
  {
    hide DoBegin, DoWrite, DoCommit, DoStartSend, DoVisit, DoEndSend, DoFinalize, DoRecover, DoLand, DoFlag, DoResyncStart;
    hide DoResyncFailed, DoResyncCopied, DoDiscard, DoResyncDone, DoCrash, Known;
    match step
    case Begin(k, ok, left) => BeginKnown(c, st, k, ok, left, op);
    case Write(k, flush, reply) => WriteKnown(c, st, k, flush, reply, op);
    case Commit(k, ok, left) => CommitKnown(c, st, k, ok, left, op);
    case StartSend(k) => StartSendKnown(c, st, k, op);
    case Visit(k, outcome) => VisitKnown(c, st, k, outcome, op);
    case EndSend(k) => EndSendKnown(c, st, k, op);
    case Recover(k, truncated, marked) => RecoverKnown(c, st, k, truncated, marked, op);
    case _ => OtherKnown(c, st, step, op);
  }

  /** Enough different replicas acknowledged, where the configuration insists on it. */
  ghost predicate EnoughReplicas(c: Cluster, st: State, op: Op) {
    c.mode != Async && c.failOnError && c.replicas != [] ==> |AckedBy(st, op)| >= c.RequiredAcks()
  }

  /** The counters of a pass count different replicas, and an answer rests on them. */
  ghost predicate Counted(c: Cluster, st: State, op: Op) {
    && (op !in st.past.used ==> op !in st.past.answered && op !in st.past.escaped && AckedBy(st, op) == {})
    && (op in st.mem.handlers ==> op !in st.past.answered && op !in st.past.escaped)
    && (op in st.mem.handlers && !st.mem.handlers[op].Waiting? && !st.mem.handlers[op].Delivered? ==>
          AckedBy(st, op) == {})
    && (op in st.mem.handlers && st.mem.handlers[op].Delivered? ==> EnoughReplicas(c, st, op))
    && (op in st.mem.senders && st.mem.senders[op].origin == Request ==>
          && op in st.mem.handlers && st.mem.handlers[op].Waiting?
          && st.mem.senders[op].acked == |AckedBy(st, op)|
          && (forall i | st.mem.senders[op].next <= i < |c.replicas| :: c.replicas[i] !in AckedBy(st, op)))
    && AckedBy(st, op) <= c.All()
    && (op in st.past.answered && st.past.answered[op] ==> op in st.past.wrote && EnoughReplicas(c, st, op))
  }

  lemma KnownIsUsed(st: State, op: Op)
    requires Known(st, op)
    ensures op in st.mem.senders || op in st.mem.handlers ==> op in st.past.used
    ensures op in st.mem.handlers && (st.mem.handlers[op].Journaled? || BeforeSend(st.mem.handlers[op])) ==> op !in st.mem.senders
    ensures op in st.mem.handlers && !st.mem.handlers[op].Journaled? ==> op in st.past.wrote
  {
  }

  /** A step that does not touch a write leaves its counters. */
  lemma CountedFrame(c: Cluster, st: State, st': State, op: Op)
    requires Counted(c, st, op) && AckedBy(st', op) == AckedBy(st, op)
    requires (op in st.past.used <==> op in st'.past.used) && st.past.wrote <= st'.past.wrote
    requires (op in st.past.escaped <==> op in st'.past.escaped) && (op in st.past.answered <==> op in st'.past.answered)
    requires op in st.past.answered ==> st'.past.answered[op] == st.past.answered[op]
    requires (op in st.mem.handlers <==> op in st'.mem.handlers) && (op in st.mem.senders <==> op in st'.mem.senders)
    requires op in st.mem.handlers ==> st'.mem.handlers[op] == st.mem.handlers[op]
    requires op in st.mem.senders ==> st'.mem.senders[op] == st.mem.senders[op]
    ensures Counted(c, st', op)
  {
  }

  lemma OneMore(a: set<Replica>, r: Replica)
    ensures |a + {r}| == if r in a then |a| else |a| + 1
  {
    if r in a {
      assert a + {r} == a;
    }
  }

  lemma AckCounts(c: Cluster, st: State, op: Op)
    requires c.Valid() && op in st.past.used && Counted(c, st, op) && Enabled(c, st, Visit(op, Ack))
    requires op in st.mem.handlers ==> st.mem.handlers[op].Waiting? || st.mem.handlers[op].Delivered?
    ensures Counted(c, DoVisit(c, st, op, Ack), op)
  {
    var r := c.replicas[st.mem.senders[op].next];
    OneMore(AckedBy(st, op), r);
    assert AckedBy(DoVisit(c, st, op, Ack), op) == AckedBy(st, op) + {r};
  }

  lemma NoAckCounts(c: Cluster, st: State, op: Op, outcome: Outcome)
    requires Counted(c, st, op) && Enabled(c, st, Visit(op, outcome)) && !outcome.Ack?
    ensures Counted(c, DoVisit(c, st, op, outcome), op)
  {
    assert AckedBy(DoVisit(c, st, op, outcome), op) == AckedBy(st, op);
  }

  lemma VisitCounts(c: Cluster, st: State, k: Op, outcome: Outcome, op: Op)
    requires c.Valid() && Known(st, op) && Counted(c, st, op) && Enabled(c, st, Visit(k, outcome))
    ensures Counted(c, DoVisit(c, st, k, outcome), op)
  {
    hide Known, Counted;
    KnownIsUsed(st, op);
    if op != k {
      CountedFrame(c, st, DoVisit(c, st, k, outcome), op);
    } else if outcome.Ack? {
      AckCounts(c, st, op);
    } else {
      NoAckCounts(c, st, op, outcome);
    }
  }

  lemma EndSendCounts(c: Cluster, st: State, k: Op, op: Op)
    requires Known(st, op) && Counted(c, st, op) && Enabled(c, st, EndSend(k))
    ensures Counted(c, DoEndSend(c, st, k), op)
  {
    hide Known;
    KnownIsUsed(st, op);
    assert AckedBy(DoEndSend(c, st, k), op) == AckedBy(st, op);
    if op != k {
      CountedFrame(c, st, DoEndSend(c, st, k), op);
    }
  }

  lemma BeginCounts(c: Cluster, st: State, k: Op, ok: bool, left: bool, op: Op)
    requires Known(st, op) && Counted(c, st, op) && k !in st.past.used
    ensures Counted(c, DoBegin(st, k, ok, left), op)
  {
    assert AckedBy(DoBegin(st, k, ok, left), op) == AckedBy(st, op);
  }

  lemma WriteCounts(c: Cluster, st: State, k: Op, flush: bool, reply: Reply, op: Op)
    requires Known(st, op) && Counted(c, st, op) && k in st.mem.handlers && st.mem.handlers[k] == Journaled
    ensures Counted(c, DoWrite(c, st, k, flush, reply), op)
  {
    hide Known;
    KnownIsUsed(st, op);
    assert AckedBy(DoWrite(c, st, k, flush, reply), op) == AckedBy(st, op);
    if op != k {
      CountedFrame(c, st, DoWrite(c, st, k, flush, reply), op);
    }
  }

  lemma CommitCounts(c: Cluster, st: State, k: Op, ok: bool, left: bool, op: Op)
    requires Known(st, op) && Counted(c, st, op) && k in st.mem.handlers && st.mem.handlers[k] == Written
    ensures Counted(c, DoCommit(st, k, ok, left), op)
  {
    assert AckedBy(DoCommit(st, k, ok, left), op) == AckedBy(st, op);
  }

  lemma BumpCounts(c: Cluster, st: State, k: Op, op: Op)
    requires Known(st, op) && Counted(c, st, op) && k in st.mem.handlers && st.mem.handlers[k] == Marked
    ensures Counted(c, AtStage(st, k, Bumped), op)
  {
    assert AckedBy(AtStage(st, k, Bumped), op) == AckedBy(st, op);
  }

  lemma StartSendCounts(c: Cluster, st: State, k: Op, op: Op)
    requires Known(st, op) && Counted(c, st, op) && k in st.mem.handlers && st.mem.handlers[k] == Bumped
    ensures Counted(c, DoStartSend(c, st, k), op)
  {
    assert AckedBy(DoStartSend(c, st, k), op) == AckedBy(st, op);
  }

  lemma FinalizeCounts(c: Cluster, st: State, k: Op, op: Op)
    requires Known(st, op) && Counted(c, st, op) && k in st.mem.handlers && st.mem.handlers[k] == Delivered
    ensures Counted(c, DoFinalize(c, st, k), op)
  {
    assert AckedBy(DoFinalize(c, st, k), op) == AckedBy(st, op);
  }

  lemma RecoverCounts(c: Cluster, st: State, k: Op, truncated: bool, marked: set<Replica>, op: Op)
    requires Known(st, op) && Counted(c, st, op) && Enabled(c, st, Recover(k, truncated, marked))
    ensures Counted(c, DoRecover(c, st, k, truncated, marked), op)
  {
    assert AckedBy(DoRecover(c, st, k, truncated, marked), op) == AckedBy(st, op);
  }

  /** Steps of the monitor and of a restart leave the counters alone. */
  lemma OtherCounts(c: Cluster, st: State, step: Step, op: Op)
    requires Counted(c, st, op) && Enabled(c, st, step)
    requires step.PingFailed? || step.Reachable? || step.MarkDirty? || step.Land? || step.Flag? ||
             step.ResyncStart? || step.ResyncFailed? || step.ResyncCopied? || step.Discard? || step.ResyncDone? || step.Crash?
    ensures Counted(c, Do(c, st, step), op)
  {
    hide DoVisit, DoEndSend, DoBegin, DoWrite, DoCommit, DoStartSend, DoFinalize, DoRecover;
    var st' := Do(c, st, step);
    assert st'.past == st.past && AckedBy(st', op) == AckedBy(st, op);
    if !step.Crash? {
      hide Counted;
      CountedFrame(c, st, st', op);
    }
  }

  lemma CountedKept(c: Cluster, st: State, step: Step, op: Op)
    requires c.Valid() && Known(st, op) && Counted(c, st, op) && Enabled(c, st, step)
    ensures Counted(c, Do(c, st, step), op)
  {
    hide DoVisit, DoEndSend, DoBegin, DoWrite, DoCommit, DoStartSend, DoFinalize, DoRecover, DoLand, DoResyncStart;
    hide DoResyncFailed, DoResyncCopied, DoDiscard, DoResyncDone, DoCrash, DoFlag, Counted, Known;
    match step
    case Begin(k, ok, left) => BeginCounts(c, st, k, ok, left, op);
    case Write(k, flush, reply) => WriteCounts(c, st, k, flush, reply, op);
    case Commit(k, ok, left) => CommitCounts(c, st, k, ok, left, op);
    case Bump(k) => BumpCounts(c, st, k, op);
    case StartSend(k) => StartSendCounts(c, st, k, op);
    case Visit(k, outcome) => VisitCounts(c, st, k, outcome, op);
    case EndSend(k) => EndSendCounts(c, st, k, op);
    case Finalize(k) => FinalizeCounts(c, st, k, op);
    case Recover(k, truncated, marked) => RecoverCounts(c, st, k, truncated, marked, op);
    case _ => OtherCounts(c, st, step, op);
  }

  /** A success answer means that the write was stored and that enough different replicas took it. */
  lemma {:induction false} AnswersHold(c: Cluster, steps: seq<Step>, op: Op)
    requires c.Valid() && Runs(c, steps)
    ensures Known(After(c, steps), op) && Counted(c, After(c, steps), op)
    ensures var st := After(c, steps);
            op in st.past.answered && st.past.answered[op] ==> op in st.past.wrote && EnoughReplicas(c, st, op)
  {
    if steps != [] {
      var prefix, last := steps[..|steps| - 1], steps[|steps| - 1];
      AnswersHold(c, prefix, op);
      KnownKept(c, After(c, prefix), last, op);
      CountedKept(c, After(c, prefix), last, op);
    }
  }

  // ---------- What the answers mean ----------

  lemma {:induction false} AllCounts(rs: seq<Replica>)
    requires forall i, j | 0 <= i < j < |rs| :: rs[i] != rs[j]
    ensures |set r | r in rs| == |rs|
  {
    if rs != [] {
      var init, last := rs[..|rs| - 1], rs[|rs| - 1];
      AllCounts(init);
      assert (set r | r in rs) == (set r | r in init) + {last};
      assert last !in (set r | r in init);
    }
  }

  lemma SmallerSubset<T>(a: set<T>, b: set<T>)
    requires a <= b
    ensures |a| <= |b| && (|a| == |b| ==> a == b)
  {
    assert b == a + (b - a);
    assert |b| == |a| + |b - a|;
  }

  /** What each mode asks of the replicas. */
  ghost predicate Agreed(c: Cluster, acks: set<Replica>) {
    match c.mode
    case SyncOne => acks != {}
    case Quorum => 2 * |acks| > |c.replicas|
    case _ => acks == c.All()
  }

  /** The code's number says the same. */
  lemma RequiredIsExact(c: Cluster, acks: set<Replica>)
    requires c.Valid() && c.replicas != [] && acks <= c.All()
    ensures |acks| >= c.RequiredAcks() <==> Agreed(c, acks)
  {
    AllCounts(c.replicas);
    SmallerSubset(acks, c.All());
  }

  /** A client that is told success by a cluster that insists has one replica, more than half of them, or all. */
  lemma SuccessMeans(c: Cluster, steps: seq<Step>, op: Op)
    requires c.Valid() && Runs(c, steps) && c.replicas != [] && c.failOnError && c.mode != Async
    requires op in After(c, steps).past.answered && After(c, steps).past.answered[op]
    ensures Agreed(c, AckedBy(After(c, steps), op)) && AckedBy(After(c, steps), op) <= c.All()
  {
    hide Agreed;
    AnswersHold(c, steps, op);
    RequiredIsExact(c, AckedBy(After(c, steps), op));
  }

  /** Any two writes that a quorum cluster reported as successful have a replica in common. */
  lemma QuorumsMeet(c: Cluster, steps: seq<Step>, one: Op, two: Op)
    requires c.Valid() && Runs(c, steps) && c.replicas != [] && c.failOnError && c.mode == Quorum
    requires forall op | op in {one, two} :: op in After(c, steps).past.answered && After(c, steps).past.answered[op]
    ensures exists r :: r in AckedBy(After(c, steps), one) && r in AckedBy(After(c, steps), two)
  {
    SuccessMeans(c, steps, one);
    SuccessMeans(c, steps, two);
    AllCounts(c.replicas);
    Overlap(AckedBy(After(c, steps), one), AckedBy(After(c, steps), two), c.All());
  }

  lemma Overlap<T>(a: set<T>, b: set<T>, all: set<T>)
    requires a <= all && b <= all && |a| + |b| > |all|
    ensures exists r :: r in a && r in b
  {
    SmallerSubset(a + b, all);
    assert |a + b| + |a * b| == |a| + |b|;
    assert a * b != {};
    var r :| r in a * b;
  }

  // ---------- What a pass achieves ----------

  /** A pass over the replicas starts with this step. */
  predicate Starts(step: Step, op: Op) {
    (step.StartSend? || step.Recover?) && step.op == op
  }

  /** A request for this write fails at a replica and cannot be queued for it either. */
  predicate Drops(step: Step, op: Op) {
    step.Visit? && step.op == op && step.outcome.Fail? && !step.outcome.queued
  }

  /** The replicas that acknowledged the write since its last pass began. */
  ghost function Taken(c: Cluster, steps: seq<Step>, op: Op): set<Replica>
    requires Runs(c, steps)
    decreases |steps|
  {
    if steps == [] then {}
    else
      var prefix, last := steps[..|steps| - 1], steps[|steps| - 1];
      if Starts(last, op) then {}
      else if last == Visit(op, Ack) then Taken(c, prefix, op) + {c.replicas[After(c, prefix).mem.senders[op].next]}
      else Taken(c, prefix, op)
  }

  /** Since then some request was dropped. */
  ghost predicate Lost(steps: seq<Step>, op: Op)
    decreases |steps|
  {
    steps != [] &&
    var prefix, last := steps[..|steps| - 1], steps[|steps| - 1];
    !Starts(last, op) && (Drops(last, op) || Lost(prefix, op))
  }

  ghost predicate PassInv(c: Cluster, st: State, op: Op, taken: set<Replica>, lost: bool) {
    op in st.mem.senders ==>
      var s := st.mem.senders[op];
      && s.next <= |c.replicas| && s.acked == |taken| && (s.queueLoss <==> lost)
      && taken <= AckedBy(st, op) && forall r | r in taken :: r in c.replicas[..s.next]
  }

  lemma AckPass(c: Cluster, st: State, op: Op, taken: set<Replica>, lost: bool)
    requires c.Valid() && PassInv(c, st, op, taken, lost) && Enabled(c, st, Visit(op, Ack))
    ensures PassInv(c, DoVisit(c, st, op, Ack), op, taken + {c.replicas[st.mem.senders[op].next]}, lost)
  {
    var i := st.mem.senders[op].next;
    OneMore(taken, c.replicas[i]);
    assert c.replicas[..i + 1] == c.replicas[..i] + [c.replicas[i]];
    assert AckedBy(DoVisit(c, st, op, Ack), op) == AckedBy(st, op) + {c.replicas[i]};
  }

  lemma NoAckPass(c: Cluster, st: State, op: Op, outcome: Outcome, taken: set<Replica>, lost: bool)
    requires PassInv(c, st, op, taken, lost) && Enabled(c, st, Visit(op, outcome)) && !outcome.Ack?
    ensures PassInv(c, DoVisit(c, st, op, outcome), op, taken, Drops(Visit(op, outcome), op) || lost)
  {
    var i := st.mem.senders[op].next;
    assert c.replicas[..i + 1] == c.replicas[..i] + [c.replicas[i]];
    assert AckedBy(DoVisit(c, st, op, outcome), op) == AckedBy(st, op);
  }

  lemma VisitPass(c: Cluster, st: State, k: Op, outcome: Outcome, op: Op, taken: set<Replica>, lost: bool)
    requires c.Valid() && PassInv(c, st, op, taken, lost) && Enabled(c, st, Visit(k, outcome))
    ensures PassInv(c, DoVisit(c, st, k, outcome), op,
              if k == op && outcome.Ack? then taken + {c.replicas[st.mem.senders[k].next]} else taken,
              Drops(Visit(k, outcome), op) || lost)
  {
    if k == op {
      hide DoVisit, PassInv;
      if outcome.Ack? {
        AckPass(c, st, op, taken, lost);
      } else {
        NoAckPass(c, st, op, outcome, taken, lost);
      }
    } else {
      assert AckedBy(DoVisit(c, st, k, outcome), op) == AckedBy(st, op);
    }
  }

  /** Steps that neither visit a replica nor start or end a pass. */
  lemma NoPass(c: Cluster, st: State, step: Step)
    requires Enabled(c, st, step)
    requires !step.StartSend? && !step.Visit? && !step.EndSend? && !step.Recover? && !step.Crash?
    ensures Do(c, st, step).mem.senders == st.mem.senders && Do(c, st, step).past.acks == st.past.acks
  {
    hide DoVisit, DoEndSend, DoRecover, DoCrash, DoStartSend;
  }

  lemma OtherPass(c: Cluster, st: State, step: Step, op: Op, taken: set<Replica>, lost: bool)
    requires Known(st, op) && PassInv(c, st, op, taken, lost) && Enabled(c, st, step) && !step.Visit?
    ensures PassInv(c, Do(c, st, step), op, if Starts(step, op) then {} else taken, !Starts(step, op) && lost)
  {
    hide DoVisit, DoBegin, DoWrite, DoCommit, DoFinalize, DoLand, DoFlag, DoResyncStart, DoResyncFailed, DoResyncCopied, DoDiscard, DoResyncDone;
    if step.StartSend? || step.EndSend? || step.Recover? || step.Crash? {
      assert Do(c, st, step).past.acks == st.past.acks;
    } else {
      NoPass(c, st, step);
    }
  }

  lemma {:induction false} PassHolds(c: Cluster, steps: seq<Step>, op: Op)
    requires c.Valid() && Runs(c, steps)
    ensures PassInv(c, After(c, steps), op, Taken(c, steps, op), Lost(steps, op))
    decreases |steps|
  {
    hide Do, DoVisit, PassInv, Starts, Drops, Known, Counted;
    if steps == [] {
      FirstPass(c, op);
    } else {
      var prefix, last := steps[..|steps| - 1], steps[|steps| - 1];
      PassHolds(c, prefix, op);
      AnswersHold(c, prefix, op);
      PassStep(c, After(c, prefix), last, op, Taken(c, prefix, op), Lost(prefix, op));
    }
  }

  lemma FirstPass(c: Cluster, op: Op)
    ensures PassInv(c, Init(c), op, {}, false)
  {
  }

  lemma PassStep(c: Cluster, st: State, step: Step, op: Op, taken: set<Replica>, lost: bool)
    requires c.Valid() && Known(st, op) && PassInv(c, st, op, taken, lost) && Enabled(c, st, step)
    ensures PassInv(c, Do(c, st, step), op,
              if Starts(step, op) then {}
              else if step == Visit(op, Ack) then taken + {c.replicas[st.mem.senders[op].next]} else taken,
              !Starts(step, op) && (Drops(step, op) || lost))
  {
    hide DoVisit, DoBegin, DoWrite, DoCommit, DoStartSend, DoEndSend, DoFinalize, DoRecover, DoCrash, PassInv, Known;
    if step.Visit? {
      VisitPass(c, st, step.op, step.outcome, op, taken, lost);
    } else {
      OtherPass(c, st, step, op, taken, lost);
    }
  }

  /**
   A pass succeeds exactly when the replicas of its mode acknowledged in it, or when errors are
   tolerated and every request that failed was queued. A handler then goes on, and otherwise tells
   its client at once. An asynchronous pass removes the record when all replicas acknowledged, a
   replay when it succeeded and no replica awaits a copy.
   */
  lemma PassIsExact(c: Cluster, steps: seq<Step>, op: Op)
    requires c.Valid() && Runs(c, steps) && Enabled(c, After(c, steps), EndSend(op))
    ensures var st, st' := After(c, steps), DoEndSend(c, After(c, steps), op);
      var agreed := c.replicas == [] || Agreed(c, Taken(c, steps, op));
      var succeeds := agreed || (!c.failOnError && !Lost(steps, op));
      match st.mem.senders[op].origin
      case Request =>
        && Taken(c, steps, op) == AckedBy(st, op) && st'.disk == st.disk
        && if succeeds then op in st'.mem.handlers && st'.mem.handlers[op] == Delivered
           else op !in st'.mem.handlers && op in st'.past.answered && !st'.past.answered[op]
      case Background => st'.disk.outbox == if agreed then st.disk.outbox - {op} else st.disk.outbox
      case Recovery =>
        st'.disk.outbox == if succeeds && st.mem.dirty == {} && st.mem.resync == {} then st.disk.outbox - {op} else st.disk.outbox
  {
    hide Known, Agreed, Taken, Lost;
    AnswersHold(c, steps, op);
    PassHolds(c, steps, op);
    var st, taken := After(c, steps), Taken(c, steps, op);
    if st.mem.senders[op].origin == Request {
      SmallerSubset(taken, AckedBy(st, op));
    }
    if c.replicas != [] {
      assert taken <= c.All();
      RequiredIsExact(c, taken);
    }
  }
}

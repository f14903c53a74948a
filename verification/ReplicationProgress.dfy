/**
 That the protocol can always finish. From every state that a run can reach, a restart, a
 replay of the outbox, full copies to the dirty replicas and one more restart empty the outbox
 and every mark, without any failure and within the rules; then every replica holds every
 local write. A restart is really needed: nothing else sends a record again whose handler has
 given up.
 */
module ReplicationProgress {
  import opened Replication
  import opened ReplicationSafety
  import opened ReplicationLimits
  import opened ReplicationPaths
  import opened ReplicationFlushes

  /** Everything that names a replica names a configured one. */
  ghost predicate Configured(c: Cluster, st: State) {
    && st.disk.marks <= c.All() && st.mem.dirty <= c.All()
    && (forall p | p in st.disk.pending :: p.0 in c.All())
    && (forall w | w in st.mem.writes :: w.0 in c.All())
    && (st.mem.fence.Free? || st.mem.fence.target in c.All())
  }

  lemma VisitConfigured(c: Cluster, st: State, k: Op, outcome: Outcome)
    requires Configured(c, st) && Enabled(c, st, Visit(k, outcome))
    ensures Configured(c, DoVisit(c, st, k, outcome))
  {
  }

  lemma HandlerConfigured(c: Cluster, st: State, step: Step)
    requires Configured(c, st) && Enabled(c, st, step)
    requires step.Begin? || step.Write? || step.Commit? || step.Bump? || step.StartSend? || step.EndSend? || step.Finalize? || step.Recover?
    ensures Configured(c, Do(c, st, step))
  {
    hide DoVisit, DoLand, DoFlag, DoResyncStart, DoResyncFailed, DoResyncCopied, DoDiscard, DoResyncDone, DoCrash;
  }

  lemma ConfiguredKept(c: Cluster, st: State, step: Step)
    requires Configured(c, st) && Enabled(c, st, step)
    ensures Configured(c, Do(c, st, step))
  {
    hide DoVisit, DoBegin, DoWrite, DoCommit, DoStartSend, DoEndSend, DoFinalize, DoRecover;
    match step
    case Visit(k, outcome) => VisitConfigured(c, st, k, outcome);
    case Begin(_, _, _) | Write(_, _, _) | Commit(_, _, _) | Bump(_) | StartSend(_) | EndSend(_) | Finalize(_) | Recover(_, _, _) =>
      HandlerConfigured(c, st, step);
    case _ =>
  }

  lemma {:induction false} ConfiguredHolds(c: Cluster, steps: seq<Step>)
    requires Runs(c, steps)
    ensures Configured(c, After(c, steps))
  {
    hide Do, Enabled;
    if steps != [] {
      var prefix, last := steps[..|steps| - 1], steps[|steps| - 1];
      ConfiguredHolds(c, prefix);
      ConfiguredKept(c, After(c, prefix), last);
    }
  }

  const KEPT := Rules(true, true, true, true, true, false)

  lemma Restart(c: Cluster, rules: Rules, st: State)
    requires Configured(c, st) && Orderly(st) && !rules.up
    ensures Leads(c, rules, st, DoCrash(st)) && Booting(c, DoCrash(st))
  {
    hide Leads;
    Stay(c, rules, st);
    Take(c, rules, st, st, Crash);
    assert st.disk.outbox.Keys == {} ==> st.disk.outbox == map[];
  }

  /** After a restart, the replay and the copies nothing is marked, and every record left is committed. */
  lemma FirstRound(c: Cluster, rules: Rules, st: State) returns (st': State)
    requires Configured(c, st) && Orderly(st) && !rules.up
    ensures Leads(c, rules, st, st') && Configured(c, st') && Orderly(st') && st'.disk.local == st.disk.local
    ensures st'.disk.marks == {} && st'.disk.pending == {} && forall op | op in st'.disk.outbox :: st'.disk.outbox[op] == Committed
  {
    hide Leads;
    Restart(c, rules, st);
    var s1 := DoCrash(st);
    var s2 := ReplayAll(c, rules, s1);
    Then(c, rules, st, s1, s2);
    st' := CopyAll(c, rules, s2);
    Then(c, rules, st, s2, st');
  }

  /** The second restart sends what is left to clean replicas. */
  lemma SecondRound(c: Cluster, rules: Rules, st: State) returns (st': State)
    requires Configured(c, st) && Orderly(st) && !rules.up && OnDisk(st) == {}
    requires forall op | op in st.disk.outbox :: st.disk.outbox[op] == Committed
    ensures Leads(c, rules, st, st') && st'.disk.local == st.disk.local && st'.disk.outbox == map[] && OnDisk(st') == {}
  {
    hide Leads;
    Restart(c, rules, st);
    var s1 := DoCrash(st);
    st' := ReplayAll(c, rules, s1);
    Then(c, rules, st, s1, st');
  }

  /** A state from which nothing is owed to anyone. */
  ghost predicate Settled(c: Cluster, st: State) {
    && st.disk.outbox == map[] && OnDisk(st) == {}
    && forall op, r | op in st.disk.local && r in c.replicas :: (r, op) in st.applied
  }

  /** From every reachable state where an open flush stands alone, the writes of the primary can reach every replica. */
  lemma CanSettle(c: Cluster, st: State)
    requires c.Valid() && Reach(c, KEPT, st) && Orderly(st)
    ensures exists st' :: Leads(c, KEPT, st, st') && st'.disk.local == st.disk.local && Settled(c, st')
  {
    hide Leads, Prompt, Careful, Recorded, Held, Alone, Orderly;
    var run :| Runs(c, run) && Lawful(c, run, KEPT) && After(c, run) == st;
    ConfiguredHolds(c, run);
    var s1 := FirstRound(c, KEPT, st);
    assert OnDisk(s1) == {};
    var s2 := SecondRound(c, KEPT, s1);
    Then(c, KEPT, st, s1, s2);
    LeadsReach(c, KEPT, st, s2);
    var all :| Runs(c, all) && Lawful(c, all, KEPT) && After(c, all) == s2;
    Converged(c, all);
  }

  /** A primary that waits for its flushes can settle from everywhere. */
  lemma ExclusiveCanSettle(c: Cluster, steps: seq<Step>)
    requires c.Valid() && Runs(c, steps)
    requires Prompt(c, steps) && Careful(c, steps) && Recorded(c, steps) && Held(c, steps) && Exclusive(c, steps)
    ensures exists st' ::
      Leads(c, KEPT, After(c, steps), st') && st'.disk.local == After(c, steps).disk.local && Settled(c, st')
  {
    hide Leads, Prompt, Careful, Recorded, Held, Alone, Exclusive, Settled;
    ExclusiveIsAlone(c, steps);
    var st := After(c, steps);
    assert Lawful(c, steps, KEPT);
    assert Orderly(st) by {
      forall f | f in st.disk.outbox && f in st.past.flushes ensures st.disk.local <= {f} {
        assert Open(st, f);
      }
    }
    CanSettle(c, st);
  }

  // ---------- The replay takes its turn ----------

  /** In asynchronous mode a replay leaves its passes to the background; otherwise it runs one at a time. */
  ghost predicate InTurn(c: Cluster, st: State) {
    && (c.mode == Async ==> forall k | k in st.mem.senders :: st.mem.senders[k].origin == Background)
    && (c.mode != Async ==> forall k | k in st.mem.senders :: st.mem.senders[k].origin != Background)
    && (forall k, l | k in st.mem.senders && l in st.mem.senders ::
          st.mem.senders[k].origin == Recovery && st.mem.senders[l].origin == Recovery ==> k == l)
  }

  lemma {:induction false} ReplayInTurn(c: Cluster, steps: seq<Step>)
    requires Runs(c, steps)
    ensures InTurn(c, After(c, steps))
    ensures c.mode == Async ==>
      forall op, cut, marked | op in After(c, steps).mem.recovery :: Enabled(c, After(c, steps), Recover(op, cut, marked))
  {
    hide Do, InTurn;
    if steps == [] {
      FirstTurn(c);
    } else {
      var prefix, last := steps[..|steps| - 1], steps[|steps| - 1];
      ReplayInTurn(c, prefix);
      TurnKept(c, After(c, prefix), last);
    }
    TurnComes(c, After(c, steps));
  }

  lemma FirstTurn(c: Cluster)
    ensures InTurn(c, Init(c))
  {
  }

  lemma TurnComes(c: Cluster, st: State)
    requires InTurn(c, st)
    ensures c.mode == Async ==> forall op, cut, marked | op in st.mem.recovery :: Enabled(c, st, Recover(op, cut, marked))
  {
  }

  lemma SameTurn(c: Cluster, st: State, step: Step)
    requires Enabled(c, st, step)
    requires !step.StartSend? && !step.Visit? && !step.EndSend? && !step.Recover? && !step.Crash?
    ensures Do(c, st, step).mem.senders == st.mem.senders
  {
    hide DoVisit, DoEndSend, DoRecover, DoCrash, DoStartSend;
  }

  lemma VisitOrigins(c: Cluster, st: State, k: Op, outcome: Outcome)
    requires Enabled(c, st, Visit(k, outcome))
    ensures var st' := DoVisit(c, st, k, outcome);
      st'.mem.senders.Keys == st.mem.senders.Keys && forall l | l in st.mem.senders :: st'.mem.senders[l].origin == st.mem.senders[l].origin
  {
  }

  lemma TurnKept(c: Cluster, st: State, step: Step)
    requires InTurn(c, st) && Enabled(c, st, step)
    ensures InTurn(c, Do(c, st, step))
  {
    hide DoBegin, DoWrite, DoCommit, DoFinalize, DoLand, DoFlag, DoResyncStart, DoResyncFailed, DoResyncCopied, DoDiscard, DoResyncDone;
    hide DoVisit;
    match step
    case Visit(k, outcome) => VisitOrigins(c, st, k, outcome);
    case StartSend(_) | EndSend(_) | Recover(_, _, _) | Crash =>
    case _ => SameTurn(c, st, step);
  }

  // ---------- Replicas that are left out ----------

  /** From the moment a replica is marked or unreachable, every pass that comes to it skips it. */
  lemma MarkedIsSkipped(c: Cluster, st: State, step: Step, r: Replica, op: Op, outcome: Outcome)
    requires Enabled(c, st, step) && (step == PingFailed(r) || step == MarkDirty(r, true) || step == MarkDirty(r, false))
    requires var st' := Do(c, st, step);
      Enabled(c, st', Visit(op, outcome)) && c.replicas[st'.mem.senders[op].next] == r
    ensures outcome == Skip
  {
  }

  /** It stays left out, whatever else happens, until a copy to it is done or the primary restarts. */
  lemma {:induction false} DirtyStays(c: Cluster, steps: seq<Step>, more: seq<Step>, r: Replica)
    requires Runs(c, steps) && Runs(c, steps + more) && r in After(c, steps).mem.dirty
    requires forall i | 0 <= i < |more| :: more[i] != Crash && more[i] != ResyncDone
    ensures r in After(c, steps + more).mem.dirty
    decreases |more|
  {
    hide Do, Enabled;
    if more == [] {
      assert steps + more == steps;
    } else {
      var init, last := more[..|more| - 1], more[|more| - 1];
      assert (steps + more)[..|steps + more| - 1] == steps + init;
      DirtyStays(c, steps, init, r);
      DirtyKept(c, After(c, steps + init), last, r);
    }
  }

  lemma DirtyKept(c: Cluster, st: State, step: Step, r: Replica)
    requires Enabled(c, st, step) && r in st.mem.dirty && step != Crash && step != ResyncDone
    ensures r in Do(c, st, step).mem.dirty
  {
  }

  /** What a visit changes at the replicas: nothing elsewhere, and there the write, after a flush nothing but it. */
  lemma VisitIsExact(c: Cluster, st: State, op: Op, outcome: Outcome, r: Replica, k: Op)
    requires Enabled(c, st, Visit(op, outcome))
    ensures var reached := outcome.Ack? || (outcome.Fail? && outcome.delivered);
      (r, k) in DoVisit(c, st, op, outcome).applied <==>
        if reached && r == c.replicas[st.mem.senders[op].next] then k == op || (op !in st.past.flushes && (r, k) in st.applied)
        else (r, k) in st.applied
  {
  }

  // ---------- What fails can be tried again ----------

  /** A copy that failed leaves the replica dirty, and the monitor free to start over. */
  lemma CopyIsRetried(c: Cluster, st: State, landed: bool)
    requires Enabled(c, st, ResyncFailed(landed)) && st.mem.fence.target in c.replicas && st.mem.monitor
    ensures Enabled(c, DoResyncFailed(st, landed), ResyncStart(st.mem.fence.target, true))
  {
  }

  /** Flag writes in flight all come to an end, without a failure and within the rules. */
  lemma {:induction false} FlagsLand(c: Cluster, rules: Rules, st: State) returns (st': State)
    requires forall op | op in st.mem.handlers :: !Exposed(st, op)
    ensures Leads(c, rules, st, st') && st'.mem == st.mem.(writes := {}) && st'.disk == st.disk.(marks := st'.disk.marks)
    ensures st'.past == st.past && st'.applied == st.applied
    decreases |st.mem.writes|
  {
    hide Leads;
    Stay(c, rules, st);
    if st.mem.writes == {} {
      st' := st;
    } else {
      var w := Member(st.mem.writes);
      var next := DoLand(st, w.0, w.1, true);
      Take(c, rules, st, st, Land(w.0, w.1, true));
      assert next.mem.writes == st.mem.writes - {w};
      st' := FlagsLand(c, rules, next);
      Then(c, rules, st, next, st');
    }
  }

  // ---------- Records that nobody works on ----------

  /** The record of a write that no handler, sender, replay or queue knows of. */
  predicate Orphan(st: State, k: Op) {
    && k in st.disk.outbox && k in st.past.used && k !in st.mem.handlers && k !in st.mem.senders && k !in st.mem.recovery
    && forall p | p in st.disk.pending :: p.1 != k
  }

  /** The step is a restart, or a flush takes effect in it. */
  predicate Rescues(step: Step) {
    step.Crash? || (step.Write? && step.flush && step.reply.TookEffect())
  }

  lemma HandlerOrphan(c: Cluster, st: State, step: Step, k: Op)
    requires Orphan(st, k) && Enabled(c, st, step) && !Rescues(step)
    requires step.Begin? || step.Write? || step.Commit? || step.Bump? || step.StartSend? || step.Finalize? || step.Recover?
    ensures Orphan(Do(c, st, step), k)
  {
    hide DoVisit, DoEndSend, DoLand, DoFlag, DoResyncStart, DoResyncFailed, DoResyncCopied, DoDiscard, DoResyncDone, DoCrash;
  }

  lemma OrphanKept(c: Cluster, st: State, step: Step, k: Op)
    requires Orphan(st, k) && Enabled(c, st, step) && !Rescues(step)
    ensures Orphan(Do(c, st, step), k)
  {
    hide DoBegin, DoWrite, DoCommit, DoStartSend, DoFinalize, DoRecover;
    match step
    case Begin(_, _, _) | Write(_, _, _) | Commit(_, _, _) | Bump(_) | StartSend(_) | Finalize(_) | Recover(_, _, _) =>
      HandlerOrphan(c, st, step, k);
    case _ =>
  }

  /** Such a record stays through whatever else happens, until a restart or a flush. */
  lemma {:induction false} OrphanStays(c: Cluster, steps: seq<Step>, more: seq<Step>, k: Op)
    requires Runs(c, steps) && Runs(c, steps + more) && Orphan(After(c, steps), k)
    requires forall i | 0 <= i < |more| :: !Rescues(more[i])
    ensures Orphan(After(c, steps + more), k)
    decreases |more|
  {
    hide Do, Enabled, Orphan;
    if more == [] {
      assert steps + more == steps;
    } else {
      var init, last := more[..|more| - 1], more[|more| - 1];
      assert (steps + more)[..|steps + more| - 1] == steps + init;
      OrphanStays(c, steps, init, k);
      OrphanKept(c, After(c, steps + init), last, k);
    }
  }

  /** Every cluster with a replica can get there, within all the rules. */
  lemma OrphansHappen(c: Cluster)
    requires c.replicas != []
    ensures exists st :: Reach(c, KEPT, st) && Orphan(st, 0)
  {
    hide Leads, Reach;
    var st := FlushRecordStays(c, KEPT);
    Start(c);
    Relax(c, KEPT, Init(c));
    LeadsReach(c, KEPT, Init(c), st);
  }
}

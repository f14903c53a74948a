/**
 Where the replication protocol stops keeping its promise, and that these are the only places.

 Each of the five conditions is needed, and for which clusters is decided exactly. Four are
 here; that a flush empties the replica it reaches is the matter of `ReplicationFlushes`.

 After a full copy to one replica the monitor drops the requests queued for it and, with
 each, the outbox record of that write. A handler that still has other replicas ahead of
 it then has nothing on disk, and a crash loses the write for them. A cluster with at
 most one replica cannot get there; every larger one can.

 The durable dirty flag is computed under a lock and written after the lock is released, so
 an old "clean" can overwrite a newer "dirty". Every cluster with a replica can get there.

 A flush sweeps the outbox out of the database, its own record included. If the commit mark
 that would bring the record back is lost, the flush is forgotten without any crash. If a
 flag is cleared before the commit mark, a crash forgets it. Every cluster with a replica
 can get to both.
 */
module ReplicationLimits {
  import opened Replication
  import opened ReplicationSafety

  /** Which conditions a run keeps; `up` excludes crashes. */
  datatype Rules = Rules(prompt: bool, careful: bool, recorded: bool, held: bool, alone: bool, up: bool)

  const ALL := Rules(true, true, true, true, true, true)

  predicate Obeys(c: Cluster, st: State, step: Step, rules: Rules) {
    && (rules.prompt ==> PromptStep(c, st, step)) && (rules.careful ==> CarefulStep(c, st, step))
    && (rules.recorded ==> RecordedStep(st, step)) && (rules.held ==> HeldStep(st, step))
    && (rules.alone ==> AloneStep(c, st, step)) && (rules.up ==> !step.Crash?)
  }

  predicate Lawful(c: Cluster, steps: seq<Step>, rules: Rules)
    requires Runs(c, steps)
  {
    && (rules.prompt ==> Prompt(c, steps)) && (rules.careful ==> Careful(c, steps))
    && (rules.recorded ==> Recorded(c, steps)) && (rules.held ==> Held(c, steps))
    && (rules.alone ==> Alone(c, steps)) && (rules.up ==> Crash !in steps)
  }

  /** Some run that keeps the rules ends here. */
  ghost predicate Reach(c: Cluster, rules: Rules, st: State) {
    exists run :: Runs(c, run) && Lawful(c, run, rules) && After(c, run) == st
  }

  lemma Start(c: Cluster)
    ensures Reach(c, ALL, Init(c))
  {
    assert Runs(c, []) && Lawful(c, [], ALL) && After(c, []) == Init(c);
  }

  lemma Next(c: Cluster, rules: Rules, st: State, step: Step)
    requires Reach(c, rules, st) && Enabled(c, st, step) && Obeys(c, st, step, rules)
    ensures Reach(c, rules, Do(c, st, step))
  {
    hide Do, PromptStep, CarefulStep, RecordedStep, HeldStep, AloneStep;
    var run :| Runs(c, run) && Lawful(c, run, rules) && After(c, run) == st;
    var next := run + [step];
    assert next[..|next| - 1] == run;
    assert Runs(c, next) && Lawful(c, next, rules) && After(c, next) == Do(c, st, step);
  }

  /** A run that keeps all rules keeps fewer. */
  lemma Relax(c: Cluster, rules: Rules, st: State)
    requires Reach(c, ALL, st)
    ensures Reach(c, rules, st)
  {
    hide Prompt, Careful, Recorded, Held, Alone;
    var run :| Runs(c, run) && Lawful(c, run, ALL) && After(c, run) == st;
    assert Lawful(c, run, rules);
  }

  /** Without crashes the recorded runs are safe, whatever else they keep. */
  lemma UpIsSafe(c: Cluster, st: State)
    requires c.Valid() && Reach(c, Rules(false, false, true, false, true, true), st)
    ensures Covered(c, st)
  {
    hide Covered, Recorded, Alone, Inv;
    var run :| Runs(c, run) && Lawful(c, run, Rules(false, false, true, false, true, true)) && After(c, run) == st;
    UpIsCovered(c, run);
  }

  // ---------- Common beginnings ----------

  /** A primary without writes whose listed replicas were copied to once. */
  function Fresh(c: Cluster, synced: set<Replica>): State {
    State(Disk({}, map[], c.All() - synced, {}),
          Memory(c.All() - synced, {}, map[], map[], {}, Free, {}, true), {}, Past({}, {}, {}, {}, map[], map[]))
  }

  lemma Bootstrap(c: Cluster, synced: set<Replica>, r: Replica)
    requires r in c.replicas && r !in synced && Reach(c, ALL, Fresh(c, synced))
    ensures Reach(c, ALL, Fresh(c, synced + {r}))
  {
    hide Reach;
    var s0, t := Fresh(c, synced), Fresh(c, synced + {r});
    var s1 := DoResyncStart(s0, r, true);
    assert Reach(c, ALL, s1) by { Next(c, ALL, s0, ResyncStart(r, true)); }
    var s2 := DoResyncCopied(s1, {});
    assert Reach(c, ALL, s2) by { Next(c, ALL, s1, ResyncCopied({})); }
    var s3 := DoResyncDone(s2);
    assert Reach(c, ALL, s3) by { Next(c, ALL, s2, ResyncDone); }
    var s4 := DoFlag(s3, true);
    assert Reach(c, ALL, s4) by { Next(c, ALL, s3, Flag(true)); }
    assert s4.disk.marks == t.disk.marks && s4.mem.dirty == t.mem.dirty;
    assert s4.mem.resync == {} && s4.applied == {};
  }

  lemma SyncOne(c: Cluster)
    requires c.replicas != []
    ensures Reach(c, ALL, Fresh(c, {c.replicas[0]}))
  {
    hide Reach;
    Start(c);
    assert Fresh(c, {}) == Init(c);
    Bootstrap(c, {}, c.replicas[0]);
    assert {} + {c.replicas[0]} == {c.replicas[0]};
  }

  lemma SyncTwo(c: Cluster)
    requires c.Valid() && |c.replicas| >= 2
    ensures Reach(c, ALL, Fresh(c, {c.replicas[0], c.replicas[1]}))
  {
    hide Reach;
    SyncOne(c);
    Bootstrap(c, {c.replicas[0]}, c.replicas[1]);
    assert {c.replicas[0]} + {c.replicas[1]} == {c.replicas[0], c.replicas[1]};
  }

  /** One write is journaled, stored and committed. */
  function OneMarked(c: Cluster, synced: set<Replica>): State {
    State(Disk({0}, map[0 := Committed], c.All() - synced, {}),
          Memory(c.All() - synced, {}, map[0 := Marked], map[], {}, Free, {}, true), {}, Past({0}, {0}, {}, {}, map[], map[]))
  }

  lemma FirstWrite(c: Cluster, synced: set<Replica>)
    requires Reach(c, ALL, Fresh(c, synced))
    ensures Reach(c, ALL, OneMarked(c, synced))
  {
    hide Reach;
    var s0 := Fresh(c, synced);
    var s1 := DoBegin(s0, 0, true, false);
    assert Reach(c, ALL, s1) by { Next(c, ALL, s0, Begin(0, true, false)); }
    var s2 := DoWrite(c, s1, 0, false, Stored);
    assert Reach(c, ALL, s2) by { Next(c, ALL, s1, Write(0, false, Stored)); }
    var s3 := DoCommit(s2, 0, true, false);
    assert Reach(c, ALL, s3) by { Next(c, ALL, s2, Commit(0, true, false)); }
    assert s3 == OneMarked(c, synced);
  }

  lemma CrashForgets(c: Cluster, st: State, op: Op, i: nat)
    requires i < |c.replicas| && op in st.disk.local && op !in st.disk.outbox
    requires (c.replicas[i], op) !in st.applied && c.replicas[i] !in OnDisk(st)
    ensures !Covered(c, Do(c, st, Crash))
  {
    CrashIsExact(c, st);
  }

  // ---------- Records cleared without care ----------

  const CARELESS := Rules(true, false, true, true, true, true)

  /** The write is on its way, and the first replica is still to be visited. */
  lemma SetOut(c: Cluster, synced: set<Replica>) returns (st: State)
    requires Reach(c, ALL, Fresh(c, synced))
    ensures Reach(c, ALL, st) && st.disk == OneMarked(c, synced).disk && st.applied == {}
    ensures 0 in st.mem.senders && st.mem.senders[0].next == 0 && st.mem.dirty == c.All() - synced && st.mem.resync == {}
    ensures st.mem.writes == {} && st.mem.fence == Free && st.mem.monitor && st.mem.handlers.Keys == {0} && st.past.answered == map[]
    ensures c.mode != Async ==> st.mem.handlers[0] == Waiting
    ensures c.mode == Async ==> st.mem.handlers[0] == Delivered
  {
    hide Reach;
    FirstWrite(c, synced);
    var s3 := OneMarked(c, synced);
    var s4 := AtStage(s3, 0, Bumped);
    assert Reach(c, ALL, s4) by { Next(c, ALL, s3, Bump(0)); }
    st := DoStartSend(c, s4, 0);
    assert Reach(c, ALL, st) by { Next(c, ALL, s4, StartSend(0)); }
  }

  /** The first replica fails, and the request is queued for it. */
  lemma FailFirst(c: Cluster, synced: set<Replica>) returns (st: State)
    requires c.replicas != [] && c.replicas[0] in synced && Reach(c, ALL, Fresh(c, synced))
    ensures Reach(c, CARELESS, st)
    ensures st.disk == Disk({0}, map[0 := Committed], c.All() - synced + {c.replicas[0]}, {(c.replicas[0], 0)})
    ensures st.applied == {} && st.mem.dirty == c.All() - synced + {c.replicas[0]} && st.mem.resync == {}
    ensures st.mem.writes == {} && st.mem.fence == Free && st.mem.monitor
    ensures st.past.answered == map[] && st.mem.handlers.Keys == {0} && (c.mode != Async ==> st.mem.handlers[0] == Waiting)
  {
    hide Reach;
    var s0 := SetOut(c, synced);
    Relax(c, CARELESS, s0);
    st := DoVisit(c, s0, 0, Fail(false, true, false, true));
    assert Reach(c, CARELESS, st) by { Next(c, CARELESS, s0, Visit(0, Fail(false, true, false, true))); }
  }

  /** The monitor has copied everything to it. */
  lemma FailAndCopy(c: Cluster, synced: set<Replica>) returns (st: State)
    requires c.replicas != [] && c.replicas[0] in synced && Reach(c, ALL, Fresh(c, synced))
    ensures Reach(c, CARELESS, st)
    ensures st.disk == Disk({0}, map[0 := Committed], c.All() - synced + {c.replicas[0]}, {(c.replicas[0], 0)})
    ensures st.applied == {(c.replicas[0], 0)} && st.mem.writes == {} && st.mem.fence == Copied(c.replicas[0], {0})
    ensures st.past.answered == map[] && st.mem.handlers.Keys == {0} && (c.mode != Async ==> st.mem.handlers[0] == Waiting)
  {
    hide Reach;
    var r0 := c.replicas[0];
    var s1 := FailFirst(c, synced);
    var s2 := DoResyncStart(s1, r0, true);
    assert Reach(c, CARELESS, s2) by { Next(c, CARELESS, s1, ResyncStart(r0, true)); }
    assert s2.applied == {} && s2.disk == s1.disk;
    st := DoResyncCopied(s2, {});
    assert Reach(c, CARELESS, st) by { Next(c, CARELESS, s2, ResyncCopied({})); }
    assert {0} * {0} + {} == {0};
  }

  /** Dropping the queued request takes the record with it. */
  lemma FailCopyDrop(c: Cluster, synced: set<Replica>) returns (st: State)
    requires c.replicas != [] && c.replicas[0] in synced && Reach(c, ALL, Fresh(c, synced))
    ensures Reach(c, CARELESS, st)
    ensures st.disk == Disk({0}, map[], c.All() - synced + {c.replicas[0]}, {})
    ensures st.applied == {(c.replicas[0], 0)} && st.mem.writes == {} && st.mem.fence.Copied?
    ensures st.past.answered == map[] && st.mem.handlers.Keys == {0} && (c.mode != Async ==> st.mem.handlers[0] == Waiting)
  {
    hide Reach;
    var s3 := FailAndCopy(c, synced);
    st := DoDiscard(s3, 0, true);
    assert Reach(c, CARELESS, st) by { Next(c, CARELESS, s3, Discard(0, true)); }
  }

  /** While it waits for its replicas a handler can lose its record, in every cluster that waits for any. */
  lemma WaitingLosesRecord(c: Cluster)
    requires c.replicas != [] && c.mode != Async
    ensures exists st :: Reach(c, CARELESS, st) && 0 in st.mem.handlers && st.mem.handlers[0] == Waiting &&
                         0 in st.disk.local && 0 !in st.disk.outbox && 0 !in st.past.answered
  {
    hide Reach;
    SyncOne(c);
    var st := FailCopyDrop(c, {c.replicas[0]});
  }

  /** The first replica fails and is copied to before the second is visited; the crash does the rest. */
  lemma TwoReplicasForget(c: Cluster)
    requires c.Valid() && |c.replicas| >= 2
    ensures exists st :: Reach(c, Rules(true, false, true, true, true, false), st) && !Covered(c, st)
  {
    hide Reach;
    var rules := Rules(true, false, true, true, true, false);
    SyncTwo(c);
    var st := FailCopyDrop(c, {c.replicas[0], c.replicas[1]});
    UpIsAllowed(c, st);
    assert c.replicas[1] !in OnDisk(st);
    Next(c, rules, st, Crash);
    CrashForgets(c, st, 0, 1);
  }

  lemma UpIsAllowed(c: Cluster, st: State)
    requires Reach(c, CARELESS, st)
    ensures Reach(c, Rules(true, false, true, true, true, false), st)
  {
    hide Prompt, Careful, Recorded, Held, Alone;
    var run :| Runs(c, run) && Lawful(c, run, CARELESS) && After(c, run) == st;
    assert Lawful(c, run, Rules(true, false, true, true, true, false));
  }

  /** With prompt flags and kept records, crashes are survived in every run exactly by clusters with at most one replica. */
  lemma ReplicaCountDecides(c: Cluster)
    requires c.Valid()
    ensures (forall st | Reach(c, Rules(true, false, true, true, true, false), st) :: Covered(c, st)) <==> |c.replicas| <= 1
  {
    hide Covered, Prompt, Careful, Recorded, Held, Alone;
    if |c.replicas| <= 1 {
      forall st | Reach(c, Rules(true, false, true, true, true, false), st) ensures Covered(c, st) {
        var run :| Runs(c, run) && Lawful(c, run, Rules(true, false, true, true, true, false)) && After(c, run) == st;
        OneReplicaIsCareful(c, run);
        NothingForgotten(c, run);
      }
    } else {
      TwoReplicasForget(c);
    }
  }

  // ---------- Flag writes that land late ----------

  const LATE := Rules(false, true, true, true, true, false)

  /** Two writes, one committed and one only stored, and then a crash. */
  lemma TwoWritesAndCrash(c: Cluster) returns (st: State)
    requires c.replicas != []
    ensures Reach(c, LATE, st)
    ensures st.disk == Disk({0, 1}, map[0 := Committed, 1 := Prepared], c.All() - {c.replicas[0]}, {}) && st.applied == {}
    ensures st.mem == Memory(c.All() - {c.replicas[0]}, {}, map[], map[], {}, Free, {0, 1}, false)
  {
    hide Reach;
    SyncOne(c);
    FirstWrite(c, {c.replicas[0]});
    var s0 := OneMarked(c, {c.replicas[0]});
    Relax(c, LATE, s0);
    var s1 := DoBegin(s0, 1, true, false);
    assert Reach(c, LATE, s1) by { Next(c, LATE, s0, Begin(1, true, false)); }
    var s2 := DoWrite(c, s1, 1, false, Stored);
    assert Reach(c, LATE, s2) by { Next(c, LATE, s1, Write(1, false, Stored)); }
    st := DoCrash(s2);
    assert Reach(c, LATE, st) by { Next(c, LATE, s2, Crash); }
    assert OnDisk(s2) == c.All() - {c.replicas[0]};
  }

  /** A pass over replicas that all await a copy skips them. */
  lemma {:induction false} SkipRest(c: Cluster, rules: Rules, st: State, op: Op)
    requires !rules.prompt && Reach(c, rules, st) && st.mem.fence == Free
    requires op in st.mem.senders && st.mem.senders[op].next <= |c.replicas| && c.All() <= st.mem.dirty
    ensures Reach(c, rules, AddSender(st, op, st.mem.senders[op].(next := |c.replicas|)))
    decreases |c.replicas| - st.mem.senders[op].next
  {
    hide Reach;
    var sender := st.mem.senders[op];
    if sender.next == |c.replicas| {
      assert AddSender(st, op, sender.(next := |c.replicas|)).mem.senders == st.mem.senders;
      assert AddSender(st, op, sender.(next := |c.replicas|)) == st;
    } else {
      assert c.replicas[sender.next] in c.All();
      Next(c, rules, st, Visit(op, Skip));
      var next := DoVisit(c, st, op, Skip);
      SkipRest(c, rules, next, op);
      assert AddSender(next, op, next.mem.senders[op].(next := |c.replicas|)).mem.senders ==
             AddSender(st, op, sender.(next := |c.replicas|)).mem.senders;
    }
  }

  /** The monitor takes a clean flag of the first replica, which then fails; the replay of the first record is over. */
  lemma FlagInFlight(c: Cluster) returns (st: State)
    requires c.replicas != []
    ensures Reach(c, LATE, st)
    ensures 1 in st.disk.local && 1 in st.disk.outbox && st.disk.outbox[1] == Prepared && st.disk.pending == {}
    ensures st.applied == {} && st.mem.writes == {(c.replicas[0], false)} && st.mem.handlers == map[]
    ensures st.mem.recovery == {1} && 0 in st.mem.senders && st.mem.senders.Keys == {0}
    ensures st.mem.senders[0].next == |c.replicas| && st.mem.senders[0].origin != Request
  {
    hide Reach;
    var r0 := c.replicas[0];
    var s0 := TwoWritesAndCrash(c);
    var s1 := DoRecover(c, s0, 0, false, c.All());
    assert Reach(c, LATE, s1) by { Next(c, LATE, s0, Recover(0, false, c.All())); }
    var s2 := StartFlagWrite(s1, r0);
    assert Reach(c, LATE, s2) by { Next(c, LATE, s1, Reachable(r0)); }
    var s3 := DoVisit(c, s2, 0, Fail(false, false, false, true));
    assert Reach(c, LATE, s3) by { Next(c, LATE, s2, Visit(0, Fail(false, false, false, true))); }
    assert c.All() <= s3.mem.dirty;
    SkipRest(c, LATE, s3, 0);
    st := AddSender(s3, 0, s3.mem.senders[0].(next := |c.replicas|));
  }

  /** The second record condemns every replica and is cleared. */
  lemma RecordGone(c: Cluster) returns (st: State)
    requires c.replicas != []
    ensures Reach(c, LATE, st)
    ensures 1 in st.disk.local && 1 !in st.disk.outbox && st.disk.pending == {} && st.applied == {}
    ensures (c.replicas[0], false) in st.mem.writes && st.mem.handlers == map[]
  {
    hide Reach;
    var s0 := FlagInFlight(c);
    var s1 := DoEndSend(c, s0, 0);
    assert Reach(c, LATE, s1) by { Next(c, LATE, s0, EndSend(0)); }
    assert s1.mem.senders == map[] && s1.mem.handlers == map[];
    st := DoRecover(c, s1, 1, false, c.All());
    assert Reach(c, LATE, st) by { Next(c, LATE, s1, Recover(1, false, c.All())); }
  }

  /** Then the old flag lands, and the next crash finds nothing. */
  lemma LateFlagForgets(c: Cluster)
    requires c.replicas != []
    ensures exists st :: Reach(c, LATE, st) && !Covered(c, st)
  {
    hide Reach;
    var r0 := c.replicas[0];
    var s2 := RecordGone(c);
    var s3 := DoLand(s2, r0, false, true);
    assert Reach(c, LATE, s3) by { Next(c, LATE, s2, Land(r0, false, true)); }
    assert r0 !in OnDisk(s3);
    assert Reach(c, LATE, Do(c, s3, Crash)) by { Next(c, LATE, s3, Crash); }
    CrashForgets(c, s3, 1, 0);
  }

  /** With flag writes that may land late, no cluster with a replica is safe, in any mode. */
  lemma LateFlagsDecide(c: Cluster)
    requires c.Valid()
    ensures (forall st | Reach(c, LATE, st) :: Covered(c, st)) <==> c.replicas == []
  {
    if c.replicas != [] {
      LateFlagForgets(c);
    }
  }

  // ---------- Records swept by a flush ----------

  const SWEPT := Rules(true, true, false, true, true, true)

  /** A flush has taken effect and not committed yet. */
  lemma FlushFirst(c: Cluster) returns (st: State)
    requires c.replicas != []
    ensures Reach(c, ALL, st)
    ensures st.disk == Disk({0}, map[], c.All(), {}) && st.applied == {}
    ensures st.mem == Memory(c.All() - {c.replicas[0]}, {}, map[0 := Written], map[], {}, Free, {}, true)
  {
    hide Reach;
    SyncOne(c);
    var s0 := Fresh(c, {c.replicas[0]});
    var s1 := DoBegin(s0, 0, true, false);
    assert Reach(c, ALL, s1) by { Next(c, ALL, s0, Begin(0, true, false)); }
    st := DoWrite(c, s1, 0, true, Stored);
    assert Reach(c, ALL, st) by { Next(c, ALL, s1, Write(0, true, Stored)); }
  }

  /** The commit mark that would bring the record of a flush back is lost. */
  lemma FlushForgets(c: Cluster)
    requires c.replicas != []
    ensures exists st :: Reach(c, SWEPT, st) && !Covered(c, st)
  {
    hide Reach;
    var s2 := FlushFirst(c);
    Relax(c, SWEPT, s2);
    var s3 := DoCommit(s2, 0, false, false);
    assert Reach(c, SWEPT, s3) by { Next(c, SWEPT, s2, Commit(0, false, false)); }
    assert !(Reached(s3, 0, c.replicas[0]) || 0 in s3.disk.outbox || Heading(s3, 0, 0));
  }

  /** Where records may be lost, no cluster with a replica is safe, even without crashes. */
  lemma SweptRecordsDecide(c: Cluster)
    requires c.Valid()
    ensures (forall st | Reach(c, SWEPT, st) :: Covered(c, st)) <==> c.replicas == []
  {
    if c.replicas != [] {
      FlushForgets(c);
    }
  }

  /** A flush that was stored has its record exactly when its commit mark reached the disk, in every state. */
  lemma SweptFlushIsExact(c: Cluster, st: State, k: Op, ok: bool, left: bool)
    requires Enabled(c, st, Write(k, true, Stored))
    ensures var st' := DoCommit(DoWrite(c, st, k, true, Stored), k, ok, left); k in st'.disk.outbox <==> ok || left
  {
  }

  // ---------- Flags cleared while a record is missing ----------

  const CLEARED := Rules(true, true, true, false, true, false)

  /** A flag is cleared between a flush and its commit mark, and then comes the crash. */
  lemma ClearedFlagForgets(c: Cluster)
    requires c.replicas != []
    ensures exists st :: Reach(c, CLEARED, st) && !Covered(c, st)
  {
    hide Reach;
    var r0 := c.replicas[0];
    var s2 := FlushFirst(c);
    Relax(c, CLEARED, s2);
    var s3 := StartFlagWrite(s2, r0);
    assert Reach(c, CLEARED, s3) by { Next(c, CLEARED, s2, Reachable(r0)); }
    var s4 := DoLand(s3, r0, false, true);
    assert Reach(c, CLEARED, s4) by { Next(c, CLEARED, s3, Land(r0, false, true)); }
    assert r0 !in OnDisk(s4);
    assert Reach(c, CLEARED, Do(c, s4, Crash)) by { Next(c, CLEARED, s4, Crash); }
    CrashForgets(c, s4, 0, 0);
  }

  /** Where flags may be cleared at such a moment, no cluster with a replica is safe. */
  lemma ClearedFlagsDecide(c: Cluster)
    requires c.Valid()
    ensures (forall st | Reach(c, CLEARED, st) :: Covered(c, st)) <==> c.replicas == []
  {
    if c.replicas != [] {
      ClearedFlagForgets(c);
    }
  }

  /** All five conditions together keep every cluster safe. */
  lemma TogetherTheySuffice(c: Cluster, st: State)
    requires c.Valid() && Reach(c, Rules(true, true, true, true, true, false), st)
    ensures Covered(c, st)
  {
    hide Covered, DiskCovered, DiskInv, Prompt, Careful, Recorded, Held, Alone;
    var run :| Runs(c, run) && Lawful(c, run, Rules(true, true, true, true, true, false)) && After(c, run) == st;
    NothingForgotten(c, run);
  }
}

/**
 Flushes that reach a replica late. A flush empties the replica that gets it, and with it the
 later writes that the replica already holds.

 Two runs show it, one without any crash and one where a restart sends the flush again. A
 primary that lets no other write take effect while a flush still has its handler, its sender
 or its record never gets there.
 */
module ReplicationFlushes {
  import opened Replication
  import opened ReplicationSafety
  import opened ReplicationLimits
  import opened ReplicationPaths

  // ---------- A discipline the primary can check ----------

  /** The flush may still be sent to a replica. */
  predicate Open(st: State, f: Op) {
    f in st.past.flushes && (f in st.mem.handlers || f in st.mem.senders || f in st.disk.outbox)
  }

  /** No write takes effect while another flush is open. */
  ghost predicate ExclusiveStep(st: State, step: Step) {
    step.Write? && step.reply.TookEffect() ==> forall f | Open(st, f) :: f == step.op
  }

  ghost predicate Exclusive(c: Cluster, steps: seq<Step>)
    requires Runs(c, steps)
  {
    steps == [] ||
    (Exclusive(c, steps[..|steps| - 1]) && ExclusiveStep(After(c, steps[..|steps| - 1]), steps[|steps| - 1]))
  }

  /** Beside an open flush there is no other local write. */
  ghost predicate Lone(st: State) {
    && (forall f | Open(st, f) :: st.disk.local <= {f})
    && (forall k | k in st.past.flushes || k in st.mem.handlers || k in st.mem.senders || k in st.disk.outbox :: k in st.past.used)
  }

  lemma WriteLone(c: Cluster, st: State, k: Op, flush: bool, reply: Reply)
    requires Lone(st) && Enabled(c, st, Write(k, flush, reply)) && ExclusiveStep(st, Write(k, flush, reply))
    ensures Lone(DoWrite(c, st, k, flush, reply))
  {
    var st' := DoWrite(c, st, k, flush, reply);
    forall f | Open(st', f) ensures st'.disk.local <= {f} {
      if f in st.past.flushes {
        assert Open(st, f);
      }
    }
  }

  lemma LoneIsAlone(c: Cluster, st: State, step: Step)
    requires Lone(st) && Enabled(c, st, step)
    ensures AloneStep(c, st, step)
  {
    if step.Visit? && step.op in st.past.flushes {
      assert Open(st, step.op);
      forall k | k in st.disk.local ensures k == step.op {
        assert k in {step.op};
      }
    }
  }

  lemma LoneKept(c: Cluster, st: State, step: Step)
    requires Lone(st) && Enabled(c, st, step) && ExclusiveStep(st, step)
    ensures Lone(Do(c, st, step)) && AloneStep(c, st, step)
  {
    if step.Write? {
      WriteLone(c, st, step.op, step.flush, step.reply);
    } else {
      var st' := Do(c, st, step);
      forall f | Open(st', f) ensures st'.disk.local <= {f} {
        assert Open(st, f);
      }
    }
    LoneIsAlone(c, st, step);
  }

  /** A run in which every flush is finished before the next write is one in which flushes find replicas empty. */
  lemma {:induction false} ExclusiveIsAlone(c: Cluster, steps: seq<Step>)
    requires Runs(c, steps) && Exclusive(c, steps)
    ensures Alone(c, steps) && Lone(After(c, steps))
  {
    hide Do, Enabled, AloneStep, ExclusiveStep;
    if steps != [] {
      var prefix, last := steps[..|steps| - 1], steps[|steps| - 1];
      ExclusiveIsAlone(c, prefix);
      LoneKept(c, After(c, prefix), last);
    }
  }

  /** So a primary that waits for its flushes forgets nothing, with crashes or without. */
  lemma ExclusiveIsSafe(c: Cluster, steps: seq<Step>)
    requires c.Valid() && Runs(c, steps) && Recorded(c, steps) && Exclusive(c, steps)
    requires Crash !in steps || (Prompt(c, steps) && Careful(c, steps) && Held(c, steps))
    ensures Covered(c, After(c, steps))
  {
    hide Covered, Prompt, Careful, Recorded, Held, Exclusive, Inv, DiskInv, Lone;
    ExclusiveIsAlone(c, steps);
    if Crash !in steps {
      UpIsCovered(c, steps);
    } else {
      NothingForgotten(c, steps);
    }
  }

  // ---------- Late flushes ----------

  const CROWDED := Rules(true, true, true, true, false, false)

  /** A primary whose replicas all hold what it holds. */
  lemma SyncAll(c: Cluster, rules: Rules) returns (st: State)
    ensures Leads(c, rules, Init(c), st) && Calm(st)
    ensures st == State(Disk({}, map[], {}, {}), Init(c).mem.(dirty := {}), st.applied, Init(c).past)
  {
    hide Leads;
    st := CopyAll(c, rules, Init(c));
  }

  /** The handler of a flush pauses before it sends; a later write reaches every replica in the meantime. */
  lemma FlushWaits(c: Cluster, rules: Rules) returns (st: State)
    requires c.replicas != []
    ensures Leads(c, rules, Init(c), st) && Calm(st) && st.mem.handlers == map[0 := Bumped] && st.mem.senders == map[]
    ensures st.disk.local == {0, 1} && 1 !in st.disk.outbox && st.mem.dirty == {} && 0 in st.past.flushes
  {
    hide Leads;
    var s1 := SyncAll(c, rules);
    Prepare(c, rules, s1, 0, true);
    var s2 := Ready(c, s1, 0, true);
    Then(c, rules, Init(c), s1, s2);
    Prepare(c, rules, s2, 1, false);
    var s3 := Ready(c, s2, 1, false);
    Then(c, rules, Init(c), s2, s3);
    st := Deliver(c, rules, s3, 1);
    Then(c, rules, Init(c), s3, st);
  }

  /** Then the flush is sent, and the first replica that takes it forgets the later write. */
  lemma LateFlushForgets(c: Cluster)
    requires c.replicas != []
    ensures exists st :: Reach(c, CROWDED.(up := true), st) && !Covered(c, st)
  {
    hide Leads, Reach;
    var rules := CROWDED.(up := true);
    var s1 := FlushWaits(c, rules);
    SetOff(c, rules, s1, 0);
    var s2 := DoStartSend(c, s1, 0);
    Then(c, rules, Init(c), s1, s2);
    Take(c, rules, Init(c), s2, Visit(0, Ack));
    Start(c);
    Relax(c, rules, Init(c));
    LeadsReach(c, rules, Init(c), Do(c, s2, Visit(0, Ack)));
    var st := Do(c, s2, Visit(0, Ack));
    assert !(Reached(st, 1, c.replicas[0]) || 1 in st.disk.outbox || Heading(st, 1, 0));
  }

  /** A crash cuts a flush off before it is sent; the replay finds every replica dirty and keeps its record. */
  lemma FlushRecordStays(c: Cluster, rules: Rules) returns (st: State)
    requires c.replicas != [] && !rules.up
    ensures Leads(c, rules, Init(c), st) && Booting(c, st) && st.mem.recovery == {} && st.disk.local == {0}
    ensures st.disk.outbox == map[0 := Committed] && st.disk.pending == {} && st.past.flushes == {0} && st.past.used == {0}
  {
    hide Leads;
    Prepare(c, rules, Init(c), 0, true);
    var s1 := Ready(c, Init(c), 0, true);
    var s2 := DoCrash(s1);
    assert Leads(c, rules, Init(c), s2) by { Take(c, rules, Init(c), s1, Crash); }
    assert s1.disk.outbox == map[0 := Committed];
    assert OnDisk(s1) == c.All() && s1.past.flushes == {0} && s1.past.used == {0};
    st := ReplayCommitted(c, rules, s2, 0);
    Then(c, rules, Init(c), s2, st);
  }

  /** Copies clean every replica, and a later write reaches all of them. */
  lemma FlushIsStale(c: Cluster, rules: Rules) returns (st: State)
    requires c.replicas != [] && !rules.up
    ensures Leads(c, rules, Init(c), st) && Calm(st) && st.disk.local == {0, 1} && st.disk.outbox == map[0 := Committed]
    ensures OnDisk(st) == {} && st.past.flushes == {0}
  {
    hide Leads;
    var s1 := FlushRecordStays(c, rules);
    var s2 := CopyAll(c, rules, s1);
    Then(c, rules, Init(c), s1, s2);
    Prepare(c, rules, s2, 1, false);
    var s3 := Ready(c, s2, 1, false);
    Then(c, rules, Init(c), s2, s3);
    st := Deliver(c, rules, s3, 1);
    Then(c, rules, Init(c), s3, st);
  }

  /** The next restart sends the flush again, to replicas that hold the later write. */
  lemma ReplayedFlushForgets(c: Cluster)
    requires c.replicas != []
    ensures exists st :: Reach(c, CROWDED, st) && !Covered(c, st)
  {
    hide Leads, Reach;
    var s1 := FlushIsStale(c, CROWDED);
    var s2 := DoCrash(s1);
    assert Leads(c, CROWDED, Init(c), s2) by { Take(c, CROWDED, Init(c), s1, Crash); }
    var s3 := DoRecover(c, s2, 0, false, c.All());
    assert Leads(c, CROWDED, Init(c), s3) by { Take(c, CROWDED, Init(c), s2, Recover(0, false, c.All())); }
    var st := DoVisit(c, s3, 0, Ack);
    assert Leads(c, CROWDED, Init(c), st) by { Take(c, CROWDED, Init(c), s3, Visit(0, Ack)); }
    Start(c);
    Relax(c, CROWDED, Init(c));
    LeadsReach(c, CROWDED, Init(c), st);
    assert !(Reached(st, 1, c.replicas[0]) || 1 in st.disk.outbox || Heading(st, 1, 0));
  }

  /** Where a flush may find later writes, no cluster with a replica is safe, with or without crashes. */
  lemma CrowdedFlushesDecide(c: Cluster, up: bool)
    requires c.Valid()
    ensures (forall st | Reach(c, CROWDED.(up := up), st) :: Covered(c, st)) <==> c.replicas == []
  {
    hide Reach;
    if c.replicas != [] {
      LateFlushForgets(c);
      ReplayedFlushForgets(c);
    }
  }
}

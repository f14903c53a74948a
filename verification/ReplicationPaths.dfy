/**
 Continuations of a run in which nothing fails, and the longer moves they are made of: a full
 copy to one replica or to all, a pass over all replicas, and the replay of the whole outbox
 after a restart.
 */
module ReplicationPaths {
  import opened Replication
  import opened ReplicationSafety
  import opened ReplicationLimits

  /** Nothing goes wrong in the step. A crash is here a restart. */
  predicate Smooth(step: Step) {
    match step
    case Begin(_, ok, _) => ok
    case Write(_, _, reply) => reply.Stored?
    case Commit(_, ok, _) => ok
    case Visit(_, outcome) => !outcome.Fail?
    case Recover(_, truncated, _) => !truncated
    case PingFailed(_) => false
    case MarkDirty(_, _) => false
    case ResyncStart(_, landed) => landed
    case ResyncFailed(_) => false
    case Land(_, _, landed) => landed
    case Flag(landed) => landed
    case _ => true
  }

  ghost predicate Path(c: Cluster, rules: Rules, st: State, steps: seq<Step>, st': State)
    decreases |steps|
  {
    if steps == [] then st' == st
    else
      && Enabled(c, st, steps[0]) && Obeys(c, st, steps[0], rules) && Smooth(steps[0])
      && Path(c, rules, Do(c, st, steps[0]), steps[1..], st')
  }

  /** Some continuation that keeps the rules, and in which nothing fails, leads from one state to the other. */
  ghost predicate Leads(c: Cluster, rules: Rules, st: State, st': State) {
    exists steps :: Path(c, rules, st, steps, st')
  }

  lemma Stay(c: Cluster, rules: Rules, st: State)
    ensures Leads(c, rules, st, st)
  {
    assert Path(c, rules, st, [], st);
  }

  lemma {:induction false} Join(c: Cluster, rules: Rules, st: State, one: seq<Step>, mid: State, two: seq<Step>, st': State)
    requires Path(c, rules, st, one, mid) && Path(c, rules, mid, two, st')
    ensures Path(c, rules, st, one + two, st')
    decreases |one|
  {
    hide Do, Enabled, Obeys;
    if one == [] {
      assert one + two == two;
    } else {
      Join(c, rules, Do(c, st, one[0]), one[1..], mid, two, st');
      assert (one + two)[1..] == one[1..] + two;
    }
  }

  lemma Then(c: Cluster, rules: Rules, st: State, mid: State, st': State)
    requires Leads(c, rules, st, mid) && Leads(c, rules, mid, st')
    ensures Leads(c, rules, st, st')
  {
    hide Path;
    var one :| Path(c, rules, st, one, mid);
    var two :| Path(c, rules, mid, two, st');
    Join(c, rules, st, one, mid, two, st');
  }

  lemma Take(c: Cluster, rules: Rules, st: State, mid: State, step: Step)
    requires Leads(c, rules, st, mid) && Enabled(c, mid, step) && Obeys(c, mid, step, rules) && Smooth(step)
    ensures Leads(c, rules, st, Do(c, mid, step))
  {
    hide Do, Enabled, Obeys;
    assert Path(c, rules, mid, [step], Do(c, mid, step)) by {
      assert [step][1..] == [];
    }
    Then(c, rules, st, mid, Do(c, mid, step));
  }

  lemma {:induction false} PathReaches(c: Cluster, rules: Rules, st: State, steps: seq<Step>, st': State)
    requires Reach(c, rules, st) && Path(c, rules, st, steps, st')
    ensures Reach(c, rules, st')
    decreases |steps|
  {
    hide Do, Enabled, Obeys, Reach;
    if steps != [] {
      Next(c, rules, st, steps[0]);
      PathReaches(c, rules, Do(c, st, steps[0]), steps[1..], st');
    }
  }

  lemma LeadsReach(c: Cluster, rules: Rules, st: State, st': State)
    requires Reach(c, rules, st) && Leads(c, rules, st, st')
    ensures Reach(c, rules, st')
  {
    hide Path, Reach;
    var steps :| Path(c, rules, st, steps, st');
    PathReaches(c, rules, st, steps, st');
  }

  /** Nobody is in the middle of anything but sending, and every handler that may lose its record has it. */
  predicate Calm(st: State) {
    st.mem.writes == {} && st.mem.fence == Free && st.mem.resync == {} && forall op | op in st.mem.handlers :: !Exposed(st, op)
  }

  // ---------- A full copy ----------

  function Without(ps: set<(Replica, Op)>, r: Replica): set<(Replica, Op)> {
    set p | p in ps && p.0 != r
  }

  lemma {:induction false} DropAll(c: Cluster, rules: Rules, st: State)
    requires st.mem.fence.Copied? && st.mem.writes == {}
    ensures Leads(c, rules, st, st.(disk := st.disk.(pending := Without(st.disk.pending, st.mem.fence.target))))
    decreases |st.disk.pending|
  {
    hide Leads;
    var r := st.mem.fence.target;
    Stay(c, rules, st);
    if p :| p in st.disk.pending && p.0 == r {
      var next := DoDiscard(st, p.1, false);
      Take(c, rules, st, st, Discard(p.1, false));
      assert next.disk.pending == st.disk.pending - {p};
      DropAll(c, rules, next);
      assert Without(next.disk.pending, r) == Without(st.disk.pending, r);
      Then(c, rules, st, next, next.(disk := next.disk.(pending := Without(next.disk.pending, r))));
    } else {
      assert Without(st.disk.pending, r) == st.disk.pending;
    }
  }

  /** The state after a full copy to one replica. */
  function Refreshed(st: State, r: Replica): State {
    st.(disk := st.disk.(marks := st.disk.marks - {r}, pending := Without(st.disk.pending, r)),
        mem := st.mem.(dirty := st.mem.dirty - {r}),
        applied := Without(st.applied, r) + (set op | op in st.disk.local :: (r, op)))
  }

  lemma CopyTo(c: Cluster, rules: Rules, st: State, r: Replica)
    requires Calm(st) && st.mem.monitor && r in c.replicas && r in st.mem.dirty
    ensures Leads(c, rules, st, Refreshed(st, r)) && Calm(Refreshed(st, r))
  {
    hide Leads;
    Stay(c, rules, st);
    var s1 := DoResyncStart(st, r, true);
    assert Leads(c, rules, st, s1) by { Take(c, rules, st, st, ResyncStart(r, true)); }
    var s2 := DoResyncCopied(s1, {});
    assert Leads(c, rules, st, s2) by { Take(c, rules, st, s1, ResyncCopied({})); }
    var s3 := s2.(disk := s2.disk.(pending := Without(s2.disk.pending, r)));
    assert Leads(c, rules, st, s3) by {
      DropAll(c, rules, s2);
      Then(c, rules, st, s2, s3);
    }
    CopyEnds(c, rules, st, s3, r);
    assert s1.applied == Without(st.applied, r) && st.disk.local * st.disk.local + {} == st.disk.local;
    assert s3 == Mid(st, r);
  }

  /** Copied, with nothing left in the queue. */
  function Mid(st: State, r: Replica): State {
    st.(disk := st.disk.(marks := st.disk.marks + {r}, pending := Without(st.disk.pending, r)),
        mem := st.mem.(resync := st.mem.resync + {r}, fence := Copied(r, st.disk.local)),
        applied := Without(st.applied, r) + (set op | op in st.disk.local :: (r, op)))
  }

  lemma CopyEnds(c: Cluster, rules: Rules, st: State, s3: State, r: Replica)
    requires Calm(st) && s3 == Mid(st, r) && Leads(c, rules, st, s3)
    ensures Leads(c, rules, st, Refreshed(st, r)) && Calm(Refreshed(st, r))
  {
    hide Leads;
    var s4 := DoResyncDone(s3);
    assert Leads(c, rules, st, s4) by { Take(c, rules, st, s3, ResyncDone); }
    var s5 := DoFlag(s4, true);
    assert Leads(c, rules, st, s5) by { Take(c, rules, st, s4, Flag(true)); }
    assert s5.disk.marks == st.disk.marks - {r} && s5.mem.resync == st.mem.resync;
    assert s5 == Refreshed(st, r);
  }

  /** Marks and queued requests only for replicas that await a copy. */
  predicate Tidy(st: State) {
    st.disk.marks <= st.mem.dirty && forall p | p in st.disk.pending :: p.0 in st.mem.dirty
  }

  lemma Member<T>(s: set<T>) returns (x: T)
    requires s != {}
    ensures x in s
  {
    x :| x in s;
  }

  /** The monitor copies to every replica that awaits it. */
  lemma {:induction false} CopyAll(c: Cluster, rules: Rules, st: State) returns (st': State)
    requires Calm(st) && st.mem.monitor && st.mem.dirty <= c.All() && Tidy(st)
    ensures Leads(c, rules, st, st') && Calm(st') && Tidy(st') && st'.mem == st.mem.(dirty := {}) && st'.past == st.past
    ensures st'.disk == Disk(st.disk.local, st.disk.outbox, {}, {})
    decreases |st.mem.dirty|
  {
    hide Leads;
    if st.mem.dirty != {} {
      var r := Member(st.mem.dirty);
      CopyTo(c, rules, st, r);
      var next := Refreshed(st, r);
      st' := CopyAll(c, rules, next);
      Then(c, rules, st, next, st');
    } else {
      Stay(c, rules, st);
      st' := st;
      assert st.disk.pending == {};
    }
  }

  // ---------- A pass over the replicas ----------

  /** Nothing but the pass of one write has changed. */
  predicate SamePass(st: State, st': State, op: Op) {
    && op in st.mem.senders && op in st'.mem.senders
    && st'.mem == st.mem.(senders := st.mem.senders[op := st'.mem.senders[op]])
    && st'.disk == st.disk.(marks := st'.disk.marks) && st'.disk.marks <= st.disk.marks
    && st'.past == st.past.(acks := st'.past.acks)
    && st'.mem.senders[op].origin == st.mem.senders[op].origin
    && st'.mem.senders[op].queueLoss == st.mem.senders[op].queueLoss
  }

  lemma SamePassJoins(st: State, mid: State, st': State, op: Op)
    requires SamePass(st, mid, op) && SamePass(mid, st', op)
    ensures SamePass(st, st', op)
  {
  }

  lemma InAll(c: Cluster, i: nat)
    requires i < |c.replicas|
    ensures c.replicas[i] in c.All()
  {
  }

  lemma SamePassSelf(st: State, op: Op)
    requires op in st.mem.senders
    ensures SamePass(st, st, op)
  {
  }

  lemma SamePassFrame(st: State, st': State, op: Op)
    requires SamePass(st, st', op)
    ensures op in st'.mem.senders && st'.mem.dirty == st.mem.dirty
    ensures st'.past.flushes == st.past.flushes && st'.disk.local == st.disk.local
  {
  }

  lemma SkipOne(c: Cluster, rules: Rules, st: State, op: Op) returns (st': State)
    requires Calm(st) && op in st.mem.senders && st.mem.senders[op].next < |c.replicas|
    requires c.replicas[st.mem.senders[op].next] in st.mem.dirty
    ensures Leads(c, rules, st, st') && Calm(st') && SamePass(st, st', op)
    ensures st'.mem.senders[op] == st.mem.senders[op].(next := st.mem.senders[op].next + 1) && st'.applied == st.applied
  {
    hide Leads;
    Stay(c, rules, st);
    st' := DoVisit(c, st, op, Skip);
    Take(c, rules, st, st, Visit(op, Skip));
  }

  lemma AckVisit(c: Cluster, rules: Rules, st: State, op: Op)
    requires Calm(st) && op in st.mem.senders && st.mem.senders[op].next < |c.replicas|
    requires c.replicas[st.mem.senders[op].next] !in st.mem.dirty && (op in st.past.flushes ==> st.disk.local <= {op})
    ensures Leads(c, rules, st, DoVisit(c, st, op, Ack))
  {
    hide Leads;
    Stay(c, rules, st);
    Take(c, rules, st, st, Visit(op, Ack));
  }

  /** A visit that is acknowledged, and the flag write that ends it. */
  lemma AckOne(c: Cluster, rules: Rules, st: State, op: Op) returns (st': State)
    requires Calm(st) && op in st.mem.senders && st.mem.senders[op].next < |c.replicas|
    requires c.replicas[st.mem.senders[op].next] !in st.mem.dirty && (op in st.past.flushes ==> st.disk.local <= {op})
    ensures Leads(c, rules, st, st') && Calm(st') && SamePass(st, st', op)
    ensures st'.mem.senders[op] == st.mem.senders[op].(next := st.mem.senders[op].next + 1, acked := st.mem.senders[op].acked + 1)
    ensures op !in st.past.flushes ==> st'.applied == st.applied + {(c.replicas[st.mem.senders[op].next], op)}
  {
    hide Leads;
    AckVisit(c, rules, st, op);
    var mid := DoVisit(c, st, op, Ack);
    st' := DoFlag(mid, true);
    Take(c, rules, st, mid, Flag(true));
  }

  /** The pass ends; where no replica awaits a copy, all of them have acknowledged. */
  lemma {:induction false} Pass(c: Cluster, rules: Rules, st: State, op: Op) returns (st': State)
    requires Calm(st) && op in st.mem.senders && st.mem.senders[op].next <= |c.replicas|
    requires op in st.past.flushes ==> st.disk.local <= {op}
    ensures Leads(c, rules, st, st') && Calm(st') && SamePass(st, st', op) && st'.mem.senders[op].next == |c.replicas|
    ensures st.mem.dirty == {} ==> st'.mem.senders[op].acked == st.mem.senders[op].acked + |c.replicas| - st.mem.senders[op].next
    ensures st.mem.dirty == {} && op !in st.past.flushes ==>
      forall i | st.mem.senders[op].next <= i < |c.replicas| :: (c.replicas[i], op) in st'.applied
    ensures op !in st.past.flushes ==> st.applied <= st'.applied
    ensures c.All() <= st.mem.dirty ==> st'.mem.senders[op].acked == st.mem.senders[op].acked
    decreases |c.replicas| - st.mem.senders[op].next
  {
    hide *;
    var i := st.mem.senders[op].next;
    if i == |c.replicas| {
      Stay(c, rules, st);
      st' := st;
      SamePassSelf(st, op);
    } else {
      var mid: State;
      if c.replicas[i] in st.mem.dirty {
        mid := SkipOne(c, rules, st, op);
      } else {
        mid := AckOne(c, rules, st, op);
      }
      assert c.All() <= st.mem.dirty ==> c.replicas[i] in st.mem.dirty by {
        InAll(c, i);
      }
      SamePassFrame(st, mid, op);
      st' := Pass(c, rules, mid, op);
      SamePassJoins(st, mid, st', op);
      Then(c, rules, st, mid, st');
    }
  }

  // ---------- The replay after a restart ----------

  /** A flush whose record is still there is the only local write. */
  predicate Orderly(st: State) {
    forall f | f in st.disk.outbox && f in st.past.flushes :: st.disk.local <= {f}
  }

  /** The primary is back, and only the replay has work to do. */
  predicate Booting(c: Cluster, st: State) {
    && Calm(st) && Tidy(st) && Orderly(st) && st.mem.dirty <= c.All()
    && st.mem.handlers == map[] && st.mem.senders == map[] && (st.mem.recovery == {} ==> st.mem.monitor)
  }

  /** Only one record may have gone, and one that stays is committed. */
  predicate Replayed(st: State, st': State, op: Op) {
    && st'.mem.recovery == st.mem.recovery - {op} && st'.disk.local == st.disk.local && st'.past.flushes == st.past.flushes
    && st'.disk.outbox - {op} == st.disk.outbox - {op} && (op in st'.disk.outbox ==> st'.disk.outbox[op] == Committed)
    && (st.mem.dirty == {} && (op in st.disk.outbox ==> st.disk.outbox[op] == Committed) ==> op !in st'.disk.outbox && st'.mem.dirty == {})
  }

  lemma ReplayStep(c: Cluster, rules: Rules, st: State, op: Op)
    requires Booting(c, st) && op in st.mem.recovery
    ensures Leads(c, rules, st, DoRecover(c, st, op, false, c.All()))
  {
    hide Leads;
    Stay(c, rules, st);
    Take(c, rules, st, st, Recover(op, false, c.All()));
  }

  /** The record of a write that may not have happened condemns every replica and goes. */
  lemma ReplayPrepared(c: Cluster, st: State, op: Op)
    requires Booting(c, st) && op in st.mem.recovery && (op in st.disk.outbox ==> st.disk.outbox[op] == Prepared)
    ensures var st' := DoRecover(c, st, op, false, c.All()); Booting(c, st') && Replayed(st, st', op)
  {
  }

  /** The end of a pass of the replay. */
  lemma EndReplay(c: Cluster, rules: Rules, st: State, op: Op) returns (st': State)
    requires Calm(st) && op in st.mem.senders && st.mem.senders[op].next == |c.replicas| && st.mem.senders[op].origin != Request
    requires st.mem.dirty == {} ==> st.mem.senders[op].acked >= |c.replicas|
    requires st.mem.senders[op].origin == (if c.mode == Async then Background else Recovery)
    ensures Leads(c, rules, st, st') && st'.mem == st.mem.(senders := st.mem.senders - {op}) && st'.past == st.past
    ensures st'.disk == st.disk || st'.disk == st.disk.(outbox := st.disk.outbox - {op})
    ensures st.mem.dirty == {} ==> op !in st'.disk.outbox
    ensures st.mem.dirty != {} && st.mem.senders[op].acked < |c.replicas| ==> st'.disk == st.disk
  {
    hide Leads;
    Stay(c, rules, st);
    st' := DoEndSend(c, st, op);
    Take(c, rules, st, st, EndSend(op));
  }

  /** A committed record is sent again. */
  lemma ReplayCommitted(c: Cluster, rules: Rules, st: State, op: Op) returns (st': State)
    requires Booting(c, st) && op in st.mem.recovery && op in st.disk.outbox && st.disk.outbox[op] == Committed
    ensures Leads(c, rules, st, st') && Booting(c, st') && Replayed(st, st', op)
    ensures c.replicas != [] && c.All() <= st.mem.dirty ==> st'.disk.outbox == st.disk.outbox && st'.mem.dirty == st.mem.dirty
    ensures st'.past == st.past.(acks := st'.past.acks) && st'.disk.pending == st.disk.pending
  {
    hide Leads;
    assert c.replicas != [] && c.All() <= st.mem.dirty ==> c.replicas[0] in st.mem.dirty;
    ReplayStep(c, rules, st, op);
    var s1 := DoRecover(c, st, op, false, c.All());
    var s2 := Pass(c, rules, s1, op);
    st' := EndReplay(c, rules, s2, op);
    Then(c, rules, st, s1, s2);
    Then(c, rules, st, s2, st');
  }

  lemma {:induction false} ReplayAll(c: Cluster, rules: Rules, st: State) returns (st': State)
    requires Booting(c, st)
    requires forall op | op in st.disk.outbox :: op in st.mem.recovery || st.disk.outbox[op] == Committed
    ensures Leads(c, rules, st, st') && Booting(c, st') && st'.mem.recovery == {}
    ensures st'.disk.local == st.disk.local && st'.past.flushes == st.past.flushes
    ensures forall op | op in st'.disk.outbox :: st'.disk.outbox[op] == Committed
    ensures st.mem.dirty == {} && st.disk.outbox.Keys <= st.mem.recovery && (forall op | op in st.disk.outbox :: st.disk.outbox[op] == Committed)
      ==> st'.disk.outbox == map[] && st'.mem.dirty == {}
    decreases |st.mem.recovery|
  {
    hide Leads, Booting;
    if st.mem.recovery == {} {
      Stay(c, rules, st);
      st' := st;
      assert st.disk.outbox.Keys == {} ==> st.disk.outbox == map[];
    } else {
      var op := Member(st.mem.recovery);
      var mid := ReplayOne(c, rules, st, op);
      assert forall k | k != op :: (k in mid.disk.outbox <==> k in mid.disk.outbox - {op}) && (k in st.disk.outbox <==> k in st.disk.outbox - {op});
      assert forall k | k in mid.disk.outbox && k != op :: mid.disk.outbox[k] == (mid.disk.outbox - {op})[k] == st.disk.outbox[k];
      st' := ReplayAll(c, rules, mid);
      Then(c, rules, st, mid, st');
    }
  }

  lemma ReplayOne(c: Cluster, rules: Rules, st: State, op: Op) returns (st': State)
    requires Booting(c, st) && op in st.mem.recovery
    ensures Leads(c, rules, st, st') && Booting(c, st') && Replayed(st, st', op)
  {
    hide Leads, Booting, Replayed, DoRecover;
    if op in st.disk.outbox && st.disk.outbox[op] == Committed {
      st' := ReplayCommitted(c, rules, st, op);
    } else {
      ReplayPrepared(c, st, op);
      ReplayStep(c, rules, st, op);
      st' := DoRecover(c, st, op, false, c.All());
    }
  }

  // ---------- A write from its journal record to its last replica ----------

  /** The write is journaled, stored, committed and about to be sent. */
  function Ready(c: Cluster, st: State, op: Op, flush: bool): State {
    var wrote := Effect(c, st, op, flush);
    wrote.(disk := wrote.disk.(outbox := wrote.disk.outbox[op := Committed]),
           mem := st.mem.(handlers := st.mem.handlers[op := Bumped]),
           past := wrote.past.(used := st.past.used + {op}))
  }

  /** Stored, and not yet committed. */
  function Begun(c: Cluster, st: State, op: Op, flush: bool): State {
    DoWrite(c, DoBegin(st, op, true, false), op, flush, Stored)
  }

  lemma BeginAndWrite(c: Cluster, rules: Rules, st: State, op: Op, flush: bool)
    requires Calm(st) && st.mem.recovery == {} && op !in st.past.used
    ensures Leads(c, rules, st, Begun(c, st, op, flush))
  {
    hide Leads, Effect;
    Stay(c, rules, st);
    var s1 := DoBegin(st, op, true, false);
    assert Leads(c, rules, st, s1) by { Take(c, rules, st, st, Begin(op, true, false)); }
    Take(c, rules, st, s1, Write(op, flush, Stored));
  }

  lemma CommitAndBump(c: Cluster, rules: Rules, st: State, op: Op)
    requires st.mem.writes == {} && st.mem.fence == Free && op in st.mem.handlers && st.mem.handlers[op] == Written
    ensures Leads(c, rules, st, AtStage(DoCommit(st, op, true, false), op, Bumped))
  {
    hide Leads;
    Stay(c, rules, st);
    var s1 := DoCommit(st, op, true, false);
    assert Leads(c, rules, st, s1) by { Take(c, rules, st, st, Commit(op, true, false)); }
    Take(c, rules, st, s1, Bump(op));
  }

  lemma ReadyIs(c: Cluster, st: State, op: Op, flush: bool)
    ensures AtStage(DoCommit(Begun(c, st, op, flush), op, true, false), op, Bumped) == Ready(c, st, op, flush)
  {
  }

  lemma Prepare(c: Cluster, rules: Rules, st: State, op: Op, flush: bool)
    requires Calm(st) && st.mem.recovery == {} && op !in st.past.used && (flush ==> st.mem.handlers == map[])
    ensures Leads(c, rules, st, Ready(c, st, op, flush)) && Calm(Ready(c, st, op, flush))
  {
    hide Leads;
    BeginAndWrite(c, rules, st, op, flush);
    CommitAndBump(c, rules, Begun(c, st, op, flush), op);
    ReadyIs(c, st, op, flush);
    Then(c, rules, st, Begun(c, st, op, flush), Ready(c, st, op, flush));
  }

  lemma EndPass(c: Cluster, rules: Rules, st: State, op: Op)
    requires Calm(st) && op in st.mem.senders && st.mem.senders[op].next == |c.replicas|
    ensures Leads(c, rules, st, DoEndSend(c, st, op))
  {
    hide Leads;
    Stay(c, rules, st);
    Take(c, rules, st, st, EndSend(op));
  }

  lemma Respond(c: Cluster, rules: Rules, st: State, op: Op)
    requires st.mem.writes == {} && st.mem.fence == Free && op in st.mem.handlers && st.mem.handlers[op] == Delivered
    ensures Leads(c, rules, st, DoFinalize(c, st, op))
  {
    hide Leads;
    Stay(c, rules, st);
    Take(c, rules, st, st, Finalize(op));
  }

  /** The pass was acknowledged everywhere: the record goes, and the client gets its answer. */
  lemma Conclude(c: Cluster, rules: Rules, st: State, op: Op) returns (st': State)
    requires Calm(st) && op in st.mem.senders && st.mem.senders[op].next == |c.replicas| && st.mem.senders[op].acked >= |c.replicas|
    requires op in st.mem.handlers && st.mem.handlers[op] == (if c.mode == Async then Delivered else Waiting)
    requires st.mem.senders[op].origin == (if c.mode == Async then Background else Request)
    ensures Leads(c, rules, st, st') && st'.disk == st.disk.(outbox := st.disk.outbox - {op}) && st'.applied == st.applied
    ensures st'.mem == st.mem.(handlers := st.mem.handlers - {op}, senders := st.mem.senders - {op})
    ensures st'.past == st.past.(answered := st'.past.answered)
  {
    hide Leads;
    EndPass(c, rules, st, op);
    var s1 := DoEndSend(c, st, op);
    Respond(c, rules, s1, op);
    st' := DoFinalize(c, s1, op);
    Then(c, rules, st, s1, st');
    assert st'.mem.handlers == st.mem.handlers - {op};
  }

  lemma SetOff(c: Cluster, rules: Rules, st: State, op: Op)
    requires Calm(st) && op in st.mem.handlers && st.mem.handlers[op] == Bumped
    ensures Leads(c, rules, st, DoStartSend(c, st, op)) && Calm(DoStartSend(c, st, op))
  {
    hide Leads;
    Stay(c, rules, st);
    Take(c, rules, st, st, StartSend(op));
  }

  /** Where every replica is clean, the write reaches all of them and leaves no trace on the primary's disk. */
  lemma Deliver(c: Cluster, rules: Rules, st: State, op: Op) returns (st': State)
    requires Calm(st) && op in st.mem.handlers && st.mem.handlers[op] == Bumped && op !in st.mem.senders
    requires st.mem.dirty == {} && op !in st.past.flushes
    ensures Leads(c, rules, st, st') && Calm(st')
    ensures st'.disk.local == st.disk.local && st'.disk.outbox == st.disk.outbox - {op} && st'.disk.pending == st.disk.pending
    ensures st'.disk.marks <= st.disk.marks && st'.mem == st.mem.(handlers := st.mem.handlers - {op})
    ensures st'.past.flushes == st.past.flushes && st'.past.used == st.past.used
    ensures forall i | 0 <= i < |c.replicas| :: (c.replicas[i], op) in st'.applied
  {
    hide Leads;
    SetOff(c, rules, st, op);
    var s1 := DoStartSend(c, st, op);
    var s2 := Pass(c, rules, s1, op);
    Then(c, rules, st, s1, s2);
    st' := Conclude(c, rules, s2, op);
    Then(c, rules, st, s2, st');
    assert st'.mem.senders == st.mem.senders && st'.mem.handlers == st.mem.handlers - {op};
  }
}

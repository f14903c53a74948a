/**
 The crash-safe write replication of a primary node, as one step machine.

 A write handler journals an intent in the durable outbox, writes locally, marks the
 record committed, sends the write to every replica in configuration order and then
 removes the record. A flush is such a write too; it empties the database, and with it
 the outbox, the queue and the durable flags that are stored there. A replica that misses
 a write is marked dirty, in memory and on disk, and the monitor later copies the whole
 database to it. After a crash the outbox is replayed. Any number of handlers, background
 senders and the monitor interleave, and a crash may happen between any two steps.

 What a run may do is `Enabled`, what a step does is `Do`. A handler's visit to one
 replica and the monitor's copy both hold the resync fence, so a visit is one step, up to
 the flag write that ends it.
 */
module Replication {

  type Op = int
  type Replica = int

  /** State of an outbox record. */
  datatype Phase = Prepared | Committed

  datatype Mode = SyncOne | Quorum | SyncAll | Async

  datatype Cluster = Cluster(replicas: seq<Replica>, mode: Mode, failOnError: bool) {

    predicate Valid() {
      forall i, j | 0 <= i < j < |replicas| :: replicas[i] != replicas[j]
    }

    function RequiredAcks(): nat {
      match mode
      case SyncOne => 1
      case Quorum => |replicas| / 2 + 1
      case _ => |replicas|
    }

    function All(): set<Replica> {
      set r | r in replicas
    }
  }

  /** Where a request handler stands between its calls. */
  datatype Stage = Journaled | Written | Marked | Bumped | Waiting | Delivered

  /** Who runs a pass over the replicas: a waiting handler, an async task, or the boot replay. */
  datatype Origin = Request | Background | Recovery

  datatype Sender = Sender(origin: Origin, next: nat, acked: nat, queueLoss: bool)

  /** The resync fence: free, held by the monitor while it copies to one replica, or held until a clean flag is written. */
  datatype Fence =
    | Free
    | Copying(target: Replica, snapshot: set<Op>)
    | Copied(target: Replica, snapshot: set<Op>)
    | Flagging(target: Replica)

  /** How a local write comes back: a failure or an exception may have taken effect, and one handler catches exceptions. */
  datatype Reply = Stored | Refused(effect: bool) | Threw(effect: bool, caught: bool) {
    predicate TookEffect() {
      Stored? || effect
    }
  }

  /** What one visit to a replica can lead to. */
  datatype Outcome = Skip | Ack | Fail(delivered: bool, queued: bool, fenced: bool, landed: bool)

  /** What the primary keeps across a crash. */
  datatype Disk = Disk(
    local: set<Op>,
    outbox: map<Op, Phase>,
    marks: set<Replica>,
    pending: set<(Replica, Op)>)

  /** What the primary forgets: marks, handlers, senders, flag writes under way, the fence, the boot replay, the monitor. */
  datatype Memory = Memory(
    dirty: set<Replica>,
    resync: set<Replica>,
    handlers: map<Op, Stage>,
    senders: map<Op, Sender>,
    writes: set<(Replica, bool)>,
    fence: Fence,
    recovery: set<Op>,
    monitor: bool)

  /** Which writes are flushes, and observations that no step reads, except that identities are not used twice. */
  datatype Past = Past(
    used: set<Op>, wrote: set<Op>, flushes: set<Op>, escaped: set<Op>, answered: map<Op, bool>, acks: map<Op, set<Replica>>)

  datatype State = State(disk: Disk, mem: Memory, applied: set<(Replica, Op)>, past: Past)

  datatype Step =
    | Begin(op: Op, ok: bool, recordLeft: bool)
    | Write(op: Op, flush: bool, reply: Reply)
    | Commit(op: Op, ok: bool, recordLeft: bool)
    | Bump(op: Op)
    | StartSend(op: Op)
    | Visit(op: Op, outcome: Outcome)
    | EndSend(op: Op)
    | Finalize(op: Op)
    | Recover(op: Op, truncated: bool, marked: set<Replica>)
    | PingFailed(replica: Replica)
    | Reachable(replica: Replica)
    | MarkDirty(replica: Replica, landed: bool)
    | Land(replica: Replica, value: bool, landed: bool)
    | Flag(landed: bool)
    | ResyncStart(replica: Replica, landed: bool)
    | ResyncFailed(landed: bool)
    | ResyncCopied(extra: set<Op>)
    | Discard(op: Op, cleared: bool)
    | ResyncDone
    | Crash

  /** A configured replica without durable state counts as never synchronised. */
  function Init(c: Cluster): State {
    State(Disk({}, map[], c.All(), {}), Memory(c.All(), {}, map[], map[], {}, Free, {}, true), {},
          Past({}, {}, {}, {}, map[], map[]))
  }

  predicate Suspect(st: State, r: Replica) {
    r in st.mem.dirty || r in st.mem.resync
  }

  /** Replicas that ever acknowledged the write. */
  function AckedBy(st: State, op: Op): set<Replica> {
    if op in st.past.acks then st.past.acks[op] else {}
  }

  /** Replicas that a restart will find dirty. */
  function OnDisk(st: State): set<Replica> {
    st.disk.marks + (set p | p in st.disk.pending :: p.0)
  }

  predicate Enabled(c: Cluster, st: State, step: Step) {
    match step
    case Begin(op, _, _) => op !in st.past.used && st.mem.recovery == {}
    case Write(op, _, _) => op in st.mem.handlers && st.mem.handlers[op] == Journaled
    case Commit(op, _, _) => op in st.mem.handlers && st.mem.handlers[op] == Written
    case Bump(op) => op in st.mem.handlers && st.mem.handlers[op] == Marked
    case StartSend(op) => op in st.mem.handlers && st.mem.handlers[op] == Bumped
    case Visit(op, outcome) =>
      && op in st.mem.senders && st.mem.senders[op].next < |c.replicas| && st.mem.fence.Free?
      && (outcome.Skip? <==> Suspect(st, c.replicas[st.mem.senders[op].next]))
    case EndSend(op) => op in st.mem.senders && st.mem.senders[op].next == |c.replicas|
    case Finalize(op) => op in st.mem.handlers && st.mem.handlers[op] == Delivered
    case Recover(op, _, _) => op in st.mem.recovery && forall k | k in st.mem.senders :: st.mem.senders[k].origin != Recovery
    case PingFailed(r) => r in c.replicas && st.mem.monitor
    case Reachable(r) => r in c.replicas && st.mem.monitor
    case MarkDirty(r, _) => r in c.replicas
    case Land(r, value, _) => (r, value) in st.mem.writes
    case Flag(_) => st.mem.fence.Flagging?
    case ResyncStart(r, _) =>
      r in c.replicas && st.mem.monitor && r in st.mem.dirty && r !in st.mem.resync && st.mem.fence.Free?
    case ResyncFailed(_) => st.mem.fence.Copying?
    case ResyncCopied(extra) => st.mem.fence.Copying? && extra <= st.disk.local
    case Discard(op, _) => st.mem.fence.Copied? && (st.mem.fence.target, op) in st.disk.pending
    case ResyncDone => st.mem.fence.Copied? && forall p | p in st.disk.pending :: p.0 != st.mem.fence.target
    case Crash => true
  }

  /** The handler returns to its client. */
  function Answer(st: State, op: Op, ok: bool): State {
    st.(mem := st.mem.(handlers := st.mem.handlers - {op}), past := st.past.(answered := st.past.answered[op := ok]))
  }

  function AtStage(st: State, op: Op, stage: Stage): State {
    st.(mem := st.mem.(handlers := st.mem.handlers[op := stage]))
  }

  function Record(st: State, op: Op, phase: Phase): State {
    st.(disk := st.disk.(outbox := st.disk.outbox[op := phase]))
  }

  function ClearRecord(st: State, op: Op): State {
    st.(disk := st.disk.(outbox := st.disk.outbox - {op}))
  }

  /** A journal write that reports failure may still have reached the disk. */
  function DoBegin(st: State, op: Op, ok: bool, recordLeft: bool): State {
    var begun := st.(past := st.past.(used := st.past.used + {op}));
    var recorded := if ok || recordLeft then Record(begun, op, Prepared) else begun;
    if ok then AtStage(recorded, op, Journaled) else Answer(recorded, op, false)
  }

  /** The local effect. A flush leaves nothing in the database; without flags every replica counts as dirty at restart. */
  function Effect(c: Cluster, st: State, op: Op, flush: bool): State {
    st.(disk := if flush then Disk({op}, map[], c.All(), {}) else st.disk.(local := st.disk.local + {op}),
        past := st.past.(wrote := st.past.wrote + {op}, flushes := if flush then st.past.flushes + {op} else st.past.flushes))
  }

  /** An exception leaves the handler, and the record where it is. */
  function Escape(st: State, op: Op): State {
    st.(mem := st.mem.(handlers := st.mem.handlers - {op}), past := st.past.(escaped := st.past.escaped + {op}))
  }

  function DoWrite(c: Cluster, st: State, op: Op, flush: bool, reply: Reply): State {
    var wrote := if reply.TookEffect() then Effect(c, st, op, flush) else st;
    match reply
    case Stored => AtStage(wrote, op, Written)
    case Refused(_) => Answer(ClearRecord(wrote, op), op, false)
    case Threw(_, caught) => if caught then Answer(ClearRecord(wrote, op), op, false) else Escape(wrote, op)
  }

  function DoCommit(st: State, op: Op, ok: bool, recordLeft: bool): State {
    var recorded := if ok || recordLeft then Record(st, op, Committed) else st;
    if ok then AtStage(recorded, op, Marked) else Answer(recorded, op, false)
  }

  function AddSender(st: State, op: Op, sender: Sender): State {
    st.(mem := st.mem.(senders := st.mem.senders[op := sender]))
  }

  function DoStartSend(c: Cluster, st: State, op: Op): State {
    if c.mode == Async then AtStage(AddSender(st, op, Sender(Background, 0, 0, false)), op, Delivered)
    else AtStage(AddSender(st, op, Sender(Request, 0, 0, false)), op, Waiting)
  }

  /** Sets the in-memory mark, and the durable one where its write succeeds, which nobody looks at. */
  function Mark(st: State, rs: set<Replica>, landed: set<Replica>): State {
    st.(mem := st.mem.(dirty := st.mem.dirty + rs), disk := st.disk.(marks := st.disk.marks + rs * landed))
  }

  function If(landed: bool, r: Replica): set<Replica> {
    if landed then {r} else {}
  }

  /** What is at the replicas once one of them has got a write; a flush empties it first. */
  function AppliedAfter(st: State, r: Replica, op: Op): set<(Replica, Op)> {
    (if op in st.past.flushes then set p | p in st.applied && p.0 != r else st.applied) + {(r, op)}
  }

  function DoVisit(c: Cluster, st: State, op: Op, outcome: Outcome): State
    requires op in st.mem.senders && st.mem.senders[op].next < |c.replicas|
  {
    var sender := st.mem.senders[op].(next := st.mem.senders[op].next + 1);
    var r := c.replicas[st.mem.senders[op].next];
    match outcome
    case Skip => AddSender(st, op, sender)
    case Ack =>
      var sent := AddSender(st, op, sender.(acked := sender.acked + 1));
      sent.(applied := AppliedAfter(st, r, op),
            mem := sent.mem.(fence := Flagging(r)),
            past := st.past.(acks := st.past.acks[op := AckedBy(st, op) + {r}]))
    case Fail(delivered, queued, fenced, landed) =>
      var sent := Mark(AddSender(st, op, sender.(queueLoss := sender.queueLoss || !queued)), {r}, If(landed, r));
      sent.(applied := if delivered then AppliedAfter(st, r, op) else st.applied,
            mem := sent.mem.(resync := st.mem.resync + (if fenced then {r} else {})),
            disk := sent.disk.(pending := st.disk.pending + (if queued then {(r, op)} else {})))
  }

  predicate EnoughAcks(c: Cluster, sender: Sender) {
    c.replicas == [] || sender.acked >= c.RequiredAcks()
  }

  /** Whether the write counts as replicated once every replica was visited. */
  predicate PassSucceeds(c: Cluster, sender: Sender) {
    EnoughAcks(c, sender) || (!c.failOnError && !sender.queueLoss)
  }

  function DoEndSend(c: Cluster, st: State, op: Op): State
    requires op in st.mem.senders
  {
    var sender := st.mem.senders[op];
    var done := st.(mem := st.mem.(senders := st.mem.senders - {op}));
    match sender.origin
    case Request => if PassSucceeds(c, sender) then AtStage(done, op, Delivered) else Answer(done, op, false)
    case Background => if EnoughAcks(c, sender) then ClearRecord(done, op) else done
    case Recovery =>
      if PassSucceeds(c, sender) && st.mem.dirty == {} && st.mem.resync == {} then ClearRecord(done, op) else done
  }

  function DoFinalize(c: Cluster, st: State, op: Op): State {
    Answer(if c.mode == Async then st else ClearRecord(st, op), op, true)
  }

  /**
   Boot replay of one record: a prepared one, or one whose body was cut, condemns every
   replica, a committed one is sent again. The monitor starts with the first record sent, or
   when the replay is over.
   */
  function DoRecover(c: Cluster, st: State, op: Op, truncated: bool, marked: set<Replica>): State {
    var left := st.mem.recovery - {op};
    var sends := op in st.disk.outbox && st.disk.outbox[op] == Committed && !truncated;
    var rest := st.(mem := st.mem.(recovery := left, monitor := st.mem.monitor || sends || left == {}));
    if sends then AddSender(rest, op, Sender(if c.mode == Async then Background else Recovery, 0, 0, false))
    else if op in st.disk.outbox then ClearRecord(Mark(rest, c.All(), marked), op)
    else rest
  }

  /** Takes the snapshot of a replica's flags that is written to disk later. */
  function StartFlagWrite(st: State, r: Replica): State {
    st.(mem := st.mem.(writes := st.mem.writes + {(r, Suspect(st, r))}))
  }

  /** A flag write ends; nobody notices if it failed. */
  function DoLand(st: State, r: Replica, value: bool, landed: bool): State {
    var marks := if !landed then st.disk.marks else if value then st.disk.marks + {r} else st.disk.marks - {r};
    st.(mem := st.mem.(writes := st.mem.writes - {(r, value)}), disk := st.disk.(marks := marks))
  }

  /** The clean flag that a visit or a copy ends with. */
  function DoFlag(st: State, landed: bool): State
    requires st.mem.fence.Flagging?
  {
    st.(disk := st.disk.(marks := st.disk.marks - If(landed, st.mem.fence.target)), mem := st.mem.(fence := Free))
  }

  /** The monitor takes the fence and empties the replica before it copies. */
  function DoResyncStart(st: State, r: Replica, landed: bool): State {
    st.(mem := st.mem.(resync := st.mem.resync + {r}, fence := Copying(r, st.disk.local)),
        disk := st.disk.(marks := st.disk.marks + If(landed, r)),
        applied := set p | p in st.applied && p.0 != r)
  }

  function DoResyncFailed(st: State, landed: bool): State
    requires st.mem.fence.Copying?
  {
    var r := st.mem.fence.target;
    Mark(st.(mem := st.mem.(resync := st.mem.resync - {r}, fence := Free)), {r}, If(landed, r))
  }

  /** The copy holds everything written before the fence and still there, and perhaps some of what came later. */
  function DoResyncCopied(st: State, extra: set<Op>): State
    requires st.mem.fence.Copying?
  {
    var Copying(r, snapshot) := st.mem.fence;
    st.(applied := st.applied + (set op | op in snapshot * st.disk.local + extra :: (r, op)),
        mem := st.mem.(fence := Copied(r, snapshot)))
  }

  /** A queued request is dropped after the copy, together with its outbox record. */
  function DoDiscard(st: State, op: Op, cleared: bool): State
    requires st.mem.fence.Copied?
  {
    var dropped := st.(disk := st.disk.(pending := st.disk.pending - {(st.mem.fence.target, op)}));
    if cleared then ClearRecord(dropped, op) else dropped
  }

  function DoResyncDone(st: State): State
    requires st.mem.fence.Copied?
  {
    var r := st.mem.fence.target;
    st.(mem := st.mem.(dirty := st.mem.dirty - {r}, resync := st.mem.resync - {r}, fence := Flagging(r)))
  }

  /** A restart reads the marks, adds the replicas with queued requests, and lists the outbox. */
  function DoCrash(st: State): State {
    st.(mem := Memory(OnDisk(st), {}, map[], map[], {}, Free, st.disk.outbox.Keys, st.disk.outbox == map[]),
        disk := st.disk.(marks := OnDisk(st)))
  }

  /** The state after a step. */
  function Do(c: Cluster, st: State, step: Step): State
    requires Enabled(c, st, step)
  {
    match step
    case Begin(op, ok, recordLeft) => DoBegin(st, op, ok, recordLeft)
    case Write(op, flush, reply) => DoWrite(c, st, op, flush, reply)
    case Commit(op, ok, recordLeft) => DoCommit(st, op, ok, recordLeft)
    case Bump(op) => AtStage(st, op, Bumped)
    case StartSend(op) => DoStartSend(c, st, op)
    case Visit(op, outcome) => DoVisit(c, st, op, outcome)
    case EndSend(op) => DoEndSend(c, st, op)
    case Finalize(op) => DoFinalize(c, st, op)
    case Recover(op, truncated, marked) => DoRecover(c, st, op, truncated, marked)
    case PingFailed(r) => StartFlagWrite(st.(mem := st.mem.(dirty := st.mem.dirty + {r})), r)
    case Reachable(r) => StartFlagWrite(st, r)
    case MarkDirty(r, landed) => Mark(st, {r}, If(landed, r))
    case Land(r, value, landed) => DoLand(st, r, value, landed)
    case Flag(landed) => DoFlag(st, landed)
    case ResyncStart(r, landed) => DoResyncStart(st, r, landed)
    case ResyncFailed(landed) => DoResyncFailed(st, landed)
    case ResyncCopied(extra) => DoResyncCopied(st, extra)
    case Discard(op, cleared) => DoDiscard(st, op, cleared)
    case ResyncDone => DoResyncDone(st)
    case Crash => DoCrash(st)
  }

  // ---------- Runs ----------

  predicate Runs(c: Cluster, steps: seq<Step>)
    decreases |steps|, 0
  {
    steps == [] || (Runs(c, steps[..|steps| - 1]) && Enabled(c, After(c, steps[..|steps| - 1]), steps[|steps| - 1]))
  }

  /** The state a run ends in. */
  function After(c: Cluster, steps: seq<Step>): State
    requires Runs(c, steps)
    decreases |steps|, 1
  {
    if steps == [] then Init(c)
    else Do(c, After(c, steps[..|steps| - 1]), steps[|steps| - 1])
  }

  // ---------- Coverage ----------

  /** The handler wrote locally and has not started to send. */
  predicate BeforeSend(stage: Stage) {
    stage.Written? || stage.Marked? || stage.Bumped?
  }

  /** A running handler or sender has yet to visit the i-th replica with this write. */
  predicate Heading(st: State, op: Op, i: nat) {
    || (op in st.mem.handlers && BeforeSend(st.mem.handlers[op]))
    || (op in st.mem.senders && st.mem.senders[op].next <= i)
  }

  /** The replica holds the write, or a full copy to it is due. */
  predicate Reached(st: State, op: Op, r: Replica) {
    (r, op) in st.applied || r in st.mem.dirty
  }

  /** No local write is forgotten: every replica has it, or something still owes it to the replica. */
  ghost predicate Covered(c: Cluster, st: State) {
    forall op, i | op in st.disk.local && 0 <= i < |c.replicas| ::
      Reached(st, op, c.replicas[i]) || op in st.disk.outbox || Heading(st, op, i)
  }

  /** The same promise, counting only what is on disk. */
  ghost predicate DiskCovered(c: Cluster, st: State) {
    forall op, i | op in st.disk.local && 0 <= i < |c.replicas| ::
      (c.replicas[i], op) in st.applied || c.replicas[i] in OnDisk(st) || op in st.disk.outbox
  }
}

/**
 The handlers of the replication machine follow the write protocol: seen from one write,
 every run without a crash is a sequence of protocol calls, so a success answer means that
 each call was made once, in order, and succeeded.
 */
module HandlerRefinement {
  import opened Replication
  import opened ReplicationSafety
  import opened ReplicationAnswers
  import P = Handlers

  /** Where the machine has the handler of a write. A waiting handler is inside the replicate call. */
  function PlaceOf(st: State, op: Op): P.Place {
    if op in st.mem.handlers then
      match st.mem.handlers[op]
      case Journaled => P.Journaled
      case Written => P.Written
      case Marked => P.Marked
      case Bumped => P.Bumped
      case Waiting => P.Bumped
      case Delivered => P.Delivered
    else if op in st.past.answered then P.Ended(st.past.answered[op])
    else if op in st.past.escaped then P.Failing
    else P.Idle
  }

  function StoreCalls(reply: Reply): seq<P.Call> {
    match reply
    case Stored => [P.Store(P.Stored)]
    case Refused(effect) => [P.Store(P.Refused(effect)), P.Clear]
    case Threw(effect, caught) => if caught then [P.Store(P.Threw(effect)), P.Clear] else [P.Store(P.Threw(effect))]
  }

  /** The calls of the handler of `op` that a step stands for. */
  function Observed(c: Cluster, st: State, step: Step, op: Op): seq<P.Call>
    requires Enabled(c, st, step)
  {
    match step
    case Begin(k, ok, _) => if k == op then [P.Prepare(ok)] else []
    case Write(k, _, reply) => if k == op then StoreCalls(reply) else []
    case Commit(k, ok, _) => if k == op then [P.Commit(ok)] else []
    case Bump(k) => if k == op then [P.Bump] else []
    case StartSend(k) => if k == op && c.mode == Async then [P.Replicate(true)] else []
    case EndSend(k) =>
      if k == op && st.mem.senders[k].origin == Request then [P.Replicate(PassSucceeds(c, st.mem.senders[k]))] else []
    case Finalize(k) => if k == op then [P.Finalize] else []
    case _ => []
  }

  lemma StoreFollows(reply: Reply)
    ensures P.Follow(P.Journaled, StoreCalls(reply)) ==
            if reply.Stored? then P.Written else if reply.Threw? && !reply.caught then P.Failing else P.Ended(false)
  {
    if |StoreCalls(reply)| == 2 {
      P.FollowAppend(P.Journaled, StoreCalls(reply)[..1], [P.Clear]);
      assert StoreCalls(reply) == StoreCalls(reply)[..1] + [P.Clear];
    }
  }

  /** A step that does not touch a handler leaves it where it is. */
  lemma PlaceFrame(st: State, st': State, op: Op)
    requires (op in st.mem.handlers <==> op in st'.mem.handlers) && (op in st.mem.handlers ==> st'.mem.handlers[op] == st.mem.handlers[op])
    requires (op in st.past.escaped <==> op in st'.past.escaped) && (op in st.past.answered <==> op in st'.past.answered)
    requires op in st.past.answered ==> st'.past.answered[op] == st.past.answered[op]
    ensures PlaceOf(st', op) == PlaceOf(st, op)
  {
  }

  lemma OwnWriteFollows(c: Cluster, st: State, op: Op, flush: bool, reply: Reply)
    requires Counted(c, st, op) && op in st.mem.handlers && st.mem.handlers[op] == Journaled
    ensures PlaceOf(DoWrite(c, st, op, flush, reply), op) ==
            if reply.Stored? then P.Written else if reply.Threw? && !reply.caught then P.Failing else P.Ended(false)
  {
  }

  lemma WriteFollows(c: Cluster, st: State, k: Op, flush: bool, reply: Reply, op: Op)
    requires Counted(c, st, op) && Enabled(c, st, Write(k, flush, reply))
    ensures PlaceOf(DoWrite(c, st, k, flush, reply), op) ==
            P.Follow(PlaceOf(st, op), Observed(c, st, Write(k, flush, reply), op))
  {
    hide StoreCalls, Counted;
    if op == k {
      OwnWriteFollows(c, st, op, flush, reply);
      StoreFollows(reply);
    } else {
      PlaceFrame(st, DoWrite(c, st, k, flush, reply), op);
    }
  }

  lemma EndSendFollows(c: Cluster, st: State, k: Op, op: Op)
    requires Counted(c, st, op) && Enabled(c, st, EndSend(k))
    ensures PlaceOf(DoEndSend(c, st, k), op) == P.Follow(PlaceOf(st, op), Observed(c, st, EndSend(k), op))
  {
    hide PassSucceeds, EnoughAcks;
    if op != k {
      PlaceFrame(st, DoEndSend(c, st, k), op);
    }
  }

  lemma BeginFollows(c: Cluster, st: State, k: Op, ok: bool, left: bool, op: Op)
    requires Known(st, op) && Counted(c, st, op) && Enabled(c, st, Begin(k, ok, left))
    ensures PlaceOf(DoBegin(st, k, ok, left), op) == P.Follow(PlaceOf(st, op), Observed(c, st, Begin(k, ok, left), op))
  {
  }

  lemma CommitFollows(c: Cluster, st: State, k: Op, ok: bool, left: bool, op: Op)
    requires Enabled(c, st, Commit(k, ok, left))
    ensures PlaceOf(DoCommit(st, k, ok, left), op) == P.Follow(PlaceOf(st, op), Observed(c, st, Commit(k, ok, left), op))
  {
  }

  lemma BumpFollows(c: Cluster, st: State, k: Op, op: Op)
    requires Enabled(c, st, Bump(k))
    ensures PlaceOf(AtStage(st, k, Bumped), op) == P.Follow(PlaceOf(st, op), Observed(c, st, Bump(k), op))
  {
  }

  lemma StartSendFollows(c: Cluster, st: State, k: Op, op: Op)
    requires Enabled(c, st, StartSend(k))
    ensures PlaceOf(DoStartSend(c, st, k), op) == P.Follow(PlaceOf(st, op), Observed(c, st, StartSend(k), op))
  {
  }

  lemma FinalizeFollows(c: Cluster, st: State, k: Op, op: Op)
    requires Enabled(c, st, Finalize(k))
    ensures PlaceOf(DoFinalize(c, st, k), op) == P.Follow(PlaceOf(st, op), Observed(c, st, Finalize(k), op))
  {
  }

  /** The other steps are no calls of a handler. */
  lemma OtherFollows(c: Cluster, st: State, step: Step, op: Op)
    requires Enabled(c, st, step)
    requires step.Visit? || step.Recover? || step.PingFailed? || step.Reachable? || step.MarkDirty? || step.Land? || step.Flag? ||
             step.ResyncStart? || step.ResyncFailed? || step.ResyncCopied? || step.Discard? || step.ResyncDone?
    ensures PlaceOf(Do(c, st, step), op) == PlaceOf(st, op) && Observed(c, st, step, op) == []
  {
    hide DoEndSend, DoBegin, DoWrite, DoCommit, DoStartSend, DoFinalize, DoCrash;
    assert Do(c, st, step).mem.handlers == st.mem.handlers;
    assert Do(c, st, step).past.answered == st.past.answered && Do(c, st, step).past.escaped == st.past.escaped;
  }

  /** One step of the machine is no call, one call, or the refused write with its clean-up. */
  lemma StepFollows(c: Cluster, st: State, step: Step, op: Op)
    requires Known(st, op) && Counted(c, st, op) && Enabled(c, st, step) && !step.Crash?
    ensures PlaceOf(Do(c, st, step), op) == P.Follow(PlaceOf(st, op), Observed(c, st, step, op))
  {
    hide DoVisit, DoEndSend, DoBegin, DoWrite, DoCommit, DoStartSend, DoFinalize, DoRecover, DoResyncStart, DoResyncFailed;
    hide DoResyncCopied, DoDiscard, DoResyncDone, DoLand, DoFlag, Known, Counted, PlaceOf, Observed;
    match step
    case Begin(k, ok, left) => BeginFollows(c, st, k, ok, left, op);
    case Write(k, flush, reply) => WriteFollows(c, st, k, flush, reply, op);
    case Commit(k, ok, left) => CommitFollows(c, st, k, ok, left, op);
    case Bump(k) => BumpFollows(c, st, k, op);
    case StartSend(k) => StartSendFollows(c, st, k, op);
    case EndSend(k) => EndSendFollows(c, st, k, op);
    case Finalize(k) => FinalizeFollows(c, st, k, op);
    case Crash =>
    case Visit(_, _) | Recover(_, _, _) | PingFailed(_) | Reachable(_) | MarkDirty(_, _) | Land(_, _, _) | Flag(_) | ResyncStart(_, _) |
         ResyncFailed(_) | ResyncCopied(_) | Discard(_, _) | ResyncDone =>
      OtherFollows(c, st, step, op);
  }

  /** Everything the handler of `op` called in a run. */
  function Log(c: Cluster, steps: seq<Step>, op: Op): seq<P.Call>
    requires Runs(c, steps)
  {
    if steps == [] then []
    else Log(c, steps[..|steps| - 1], op) + Observed(c, After(c, steps[..|steps| - 1]), steps[|steps| - 1], op)
  }

  /** Every handler in every interleaving follows the protocol. */
  lemma {:induction false} RunFollows(c: Cluster, steps: seq<Step>, op: Op)
    requires c.Valid() && Runs(c, steps) && Crash !in steps
    ensures PlaceOf(After(c, steps), op) == P.Follow(P.Idle, Log(c, steps, op))
  {
    if steps != [] {
      var prefix, last := steps[..|steps| - 1], steps[|steps| - 1];
      RunFollows(c, prefix, op);
      AnswersHold(c, prefix, op);
      StepFollows(c, After(c, prefix), last, op);
      P.FollowAppend(P.Idle, Log(c, prefix, op), Observed(c, After(c, prefix), last, op));
    }
  }

  /** A client is told success exactly when its write went through the whole protocol. */
  lemma AnsweredMeansFull(c: Cluster, steps: seq<Step>, op: Op)
    requires c.Valid() && Runs(c, steps) && Crash !in steps
    ensures PlaceOf(After(c, steps), op) == P.Ended(true) <==> Log(c, steps, op) == P.FULL
  {
    RunFollows(c, steps, op);
    P.SuccessIsFull(Log(c, steps, op));
  }
}

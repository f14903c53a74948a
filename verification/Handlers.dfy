/**
 The six write handlers that journal before they write, each in its own shape, and the
 protocol they all follow from the journal step on.

 The calls a handler makes are recorded in `calls`. What the callees answer is given by
 `Replies`, one value per call, and so is what others do to the record meanwhile: another
 request's flush may sweep it, and the monitor may clear it. A storage call that fails, by
 its result or by an exception, either had an effect or not, and only one of the handlers
 catches exceptions.
 */
module Handlers {
  datatype StoreReply = Stored | Refused(effect: bool) | Threw(effect: bool) {
    predicate TookEffect() {
      Stored? || effect
    }
  }

  /** What the callees of one request answer. */
  datatype Replies = Replies(
    replicates: bool,   // replication applies to this request, so there is a record
    prepared: bool, preparedAnyway: bool,
    store: StoreReply,
    committed: bool, committedAnyway: bool,
    delivered: bool,
    asyncMode: bool,
    existsAfter: bool,
    swept: bool,        // another flush takes effect between prepare and the commit mark
    dropped: bool)      // the monitor clears the record while the handler waits for its replicas

  datatype Call = Prepare(ok: bool) | Store(reply: StoreReply) | Commit(ok: bool) | Bump | Replicate(ok: bool) | Finalize | Clear

  /** How a request ends: with a status code, or with an exception that leaves the handler. */
  datatype Ending = Status(code: nat) | Escaped

  predicate Success(e: Ending) {
    e.Status? && 200 <= e.code < 300
  }

  // ---------- The protocol ----------

  datatype Place = Idle | Journaled | Written | Marked | Bumped | Delivered | Failing | Ended(ok: bool) | Wrong

  /** One call of the protocol. Anything out of turn leads to `Wrong`, which is never left. */
  function Next(p: Place, call: Call): Place {
    match (p, call)
    case (Idle, Prepare(ok)) => if ok then Journaled else Ended(false)
    case (Journaled, Store(reply)) => if reply.Stored? then Written else Failing
    case (Failing, Clear) => Ended(false)
    case (Written, Commit(ok)) => if ok then Marked else Ended(false)
    case (Marked, Bump) => Bumped
    case (Bumped, Replicate(ok)) => if ok then Delivered else Ended(false)
    case (Delivered, Finalize) => Ended(true)
    case _ => Wrong
  }

  function Follow(p: Place, calls: seq<Call>): Place
    decreases calls
  {
    if calls == [] then p else Follow(Next(p, calls[0]), calls[1..])
  }

  const FULL: seq<Call> := [Prepare(true), Store(Stored), Commit(true), Bump, Replicate(true), Finalize]

  lemma {:induction false} WrongStays(calls: seq<Call>)
    ensures Follow(Wrong, calls) == Wrong
  {
    if calls != [] {
      WrongStays(calls[1..]);
    }
  }

  lemma EndedStays(ok: bool, calls: seq<Call>)
    ensures Follow(Ended(ok), calls) == if calls == [] then Ended(ok) else Wrong
  {
    if calls != [] {
      WrongStays(calls[1..]);
    }
  }

  lemma {:induction false} FollowAppend(p: Place, calls: seq<Call>, more: seq<Call>)
    ensures Follow(p, calls + more) == Follow(Follow(p, calls), more)
    decreases calls
  {
    if calls == [] {
      assert calls + more == more;
    } else {
      assert (calls + more)[1..] == calls[1..] + more;
      FollowAppend(Next(p, calls[0]), calls[1..], more);
    }
  }

  /** The places on the way to success, and the call that leaves each of them. */
  function Way(k: nat): Place {
    match k
    case 0 => Idle
    case 1 => Journaled
    case 2 => Written
    case 3 => Marked
    case 4 => Bumped
    case 5 => Delivered
    case _ => Ended(true)
  }

  predicate IsFullFrom(calls: seq<Call>, k: nat) {
    k + |calls| == 6 && forall j | 0 <= j < |calls| :: calls[j] == FULL[k + j]
  }

  lemma {:induction false} SuccessFrom(calls: seq<Call>, k: nat)
    requires k <= 6
    ensures Follow(Way(k), calls) == Ended(true) <==> IsFullFrom(calls, k)
    decreases |calls|
  {
    if calls == [] {
    } else if k < 6 && calls[0] == FULL[k] {
      SuccessFrom(calls[1..], k + 1);
      assert IsFullFrom(calls[1..], k + 1) ==> IsFullFrom(calls, k);
    } else {
      FailureFrom(Next(Way(k), calls[0]), calls[1..]);
    }
  }

  /** The only way to a success answer is every call once, in order, each succeeding. */
  lemma SuccessIsFull(calls: seq<Call>)
    ensures Follow(Idle, calls) == Ended(true) <==> calls == FULL
  {
    SuccessFrom(calls, 0);
  }

  lemma FailureFrom(p: Place, calls: seq<Call>)
    requires p == Wrong || p == Ended(false) || p == Failing
    ensures Follow(p, calls) != Ended(true)
  {
    if calls == [] {
    } else if p == Failing && calls[0] == Clear {
      EndedStays(false, calls[1..]);
    } else {
      WrongStays(calls[1..]);
    }
  }

  // ---------- The handlers ----------

  /**
   When a write that took effect ends unacknowledged and without its record. A flush sweeps
   its own record, and a handler that catches exceptions clears the record after one.
   */
  predicate Loses(r: Replies, flush: bool, catches: bool) {
    && r.replicates && r.prepared
    && match r.store
       case Refused(effect) => effect
       case Threw(effect) => effect && (catches || flush || r.swept)
       case Stored => if r.committed then !r.delivered && r.dropped else !r.committedAnyway && (flush || r.swept)
  }

  /** One request on its way through the node, with the record and the write it owns. */
  class Session {
    var calls: seq<Call>
    var record: bool
    var wrote: bool
    var acknowledged: bool

    constructor ()
      ensures calls == [] && !record && !wrote && !acknowledged
    {
      calls, record, wrote, acknowledged := [], false, false, false;
    }

    function At(): Place
      reads this
    {
      Follow(Idle, calls)
    }

    method Note(call: Call)
      modifies this`calls
      ensures calls == old(calls) + [call] && At() == Next(old(At()), call)
    {
      FollowAppend(Idle, calls, [call]);
      calls := calls + [call];
    }

    method DoPrepare(r: Replies)
      modifies this
      ensures At() == Next(old(At()), Prepare(r.prepared))
      ensures record == (r.replicates && (r.prepared || r.preparedAnyway))
      ensures wrote == old(wrote) && acknowledged == old(acknowledged)
    {
      Note(Prepare(r.prepared));
      record := r.replicates && (r.prepared || r.preparedAnyway);
    }

    method DoStore(r: Replies, flush: bool)
      modifies this
      ensures At() == Next(old(At()), Store(r.store))
      ensures wrote == r.store.TookEffect() && acknowledged == old(acknowledged)
      ensures record == (old(record) && !r.swept && !(flush && wrote))
    {
      Note(Store(r.store));
      wrote := r.store.TookEffect();
      if r.swept || (flush && wrote) {
        record := false;
      }
    }

    method DoClear()
      modifies this
      ensures At() == Next(old(At()), Clear)
      ensures !record && wrote == old(wrote) && acknowledged == old(acknowledged)
    {
      Note(Clear);
      record := false;
    }

    /** From the commit mark on, all handlers agree except for the status of success. */
    method CommitAndDeliver(r: Replies, created: nat) returns (e: Ending)
      requires At() == Written && !acknowledged && 200 <= created < 300
      modifies this
      ensures At() == Ended(Success(e))
      ensures e == (if r.committed && r.delivered then Status(created) else Status(503))
      ensures wrote == old(wrote) && acknowledged == (r.committed && r.delivered)
      ensures !r.committed ==> record == (old(record) || (r.replicates && r.committedAnyway))
      ensures r.committed && !r.delivered ==> record == ((old(record) || r.replicates) && !r.dropped)
      ensures r.committed && r.delivered ==> record == ((old(record) || r.replicates) && !r.dropped && r.asyncMode)
    {
      Note(Commit(r.committed));
      record := record || (r.replicates && (r.committed || r.committedAnyway));
      if !r.committed {
        return Status(503);
      }
      Note(Bump);
      Note(Replicate(r.delivered));
      if r.dropped {
        record := false;
      }
      if !r.delivered {
        return Status(503);
      }
      acknowledged := true;
      Note(Finalize);
      if !r.asyncMode {
        record := false;
      }
      return Status(created);
    }

    /** POST of one document; the only handler that catches storage exceptions. */
    method AddDocument(r: Replies) returns (e: Ending)
      requires calls == [] && !record && !wrote && !acknowledged
      modifies this
      ensures At() == (if e.Escaped? then Failing else Ended(Success(e)))
      ensures !e.Escaped?
      ensures wrote && !acknowledged && r.replicates && !record <==> Loses(r, false, true)
      ensures r.prepared && r.store.Refused? ==> e == Status(500) && !record
      ensures Success(e) ==> e == Status(201)
    {
      DoPrepare(r);
      if !r.prepared {
        return Status(503);
      }
      DoStore(r, false);
      if r.store.Threw? {
        DoClear();
        return Status(500);
      }
      if !r.store.Stored? {
        DoClear();
        return Status(500);
      }
      e := CommitAndDeliver(r, 201);
    }

    /** PUT of one document. */
    method UpdateDocument(r: Replies) returns (e: Ending)
      requires calls == [] && !record && !wrote && !acknowledged
      modifies this
      ensures At() == (if e.Escaped? then Failing else Ended(Success(e)))
      ensures e.Escaped? <==> r.prepared && r.store.Threw?
      ensures wrote && !acknowledged && r.replicates && !record <==> Loses(r, false, false)
      ensures r.prepared && r.store.Refused? ==> e == Status(500) && !record
      ensures Success(e) ==> e == Status(200)
    {
      DoPrepare(r);
      if !r.prepared {
        return Status(503);
      }
      DoStore(r, false);
      if r.store.Threw? {
        return Escaped;
      }
      if !r.store.Stored? {
        DoClear();
        return Status(500);
      }
      e := CommitAndDeliver(r, 200);
    }

    /** DELETE of one document. */
    method DeleteDocument(r: Replies) returns (e: Ending)
      requires calls == [] && !record && !wrote && !acknowledged
      modifies this
      ensures At() == (if e.Escaped? then Failing else Ended(Success(e)))
      ensures e.Escaped? <==> r.prepared && r.store.Threw?
      ensures wrote && !acknowledged && r.replicates && !record <==> Loses(r, false, false)
      ensures r.prepared && r.store.Refused? ==> e == Status(404) && !record
      ensures Success(e) ==> e == Status(200)
    {
      DoPrepare(r);
      if !r.prepared {
        return Status(503);
      }
      DoStore(r, false);
      if r.store.Threw? {
        return Escaped;
      }
      if !r.store.Stored? {
        DoClear();
        return Status(404);
      }
      e := CommitAndDeliver(r, 200);
    }

    /** POST of a collection; a refused write is a conflict if the collection exists by now. */
    method CreateCollection(r: Replies) returns (e: Ending)
      requires calls == [] && !record && !wrote && !acknowledged
      modifies this
      ensures At() == (if e.Escaped? then Failing else Ended(Success(e)))
      ensures e.Escaped? <==> r.prepared && r.store.Threw?
      ensures wrote && !acknowledged && r.replicates && !record <==> Loses(r, false, false)
      ensures r.prepared && r.store.Refused? ==> e == Status(if r.existsAfter then 409 else 500) && !record
      ensures Success(e) ==> e == Status(201)
    {
      DoPrepare(r);
      if !r.prepared {
        return Status(503);
      }
      DoStore(r, false);
      if r.store.Threw? {
        return Escaped;
      }
      if !r.store.Stored? {
        DoClear();
        if r.existsAfter {
          return Status(409);
        }
        return Status(500);
      }
      e := CommitAndDeliver(r, 201);
    }

    /** DELETE of a collection. */
    method DeleteCollection(r: Replies) returns (e: Ending)
      requires calls == [] && !record && !wrote && !acknowledged
      modifies this
      ensures At() == (if e.Escaped? then Failing else Ended(Success(e)))
      ensures e.Escaped? <==> r.prepared && r.store.Threw?
      ensures wrote && !acknowledged && r.replicates && !record <==> Loses(r, false, false)
      ensures r.prepared && r.store.Refused? ==> e == Status(404) && !record
      ensures Success(e) ==> e == Status(200)
    {
      DoPrepare(r);
      if !r.prepared {
        return Status(503);
      }
      DoStore(r, false);
      if r.store.Threw? {
        return Escaped;
      }
      if !r.store.Stored? {
        DoClear();
        return Status(404);
      }
      e := CommitAndDeliver(r, 200);
    }

    /** POST that empties the database. */
    method Flush(r: Replies) returns (e: Ending)
      requires calls == [] && !record && !wrote && !acknowledged
      modifies this
      ensures At() == (if e.Escaped? then Failing else Ended(Success(e)))
      ensures e.Escaped? <==> r.prepared && r.store.Threw?
      ensures wrote && !acknowledged && r.replicates && !record <==> Loses(r, true, false)
      ensures r.prepared && r.store.Refused? ==> e == Status(500) && !record
      ensures Success(e) ==> e == Status(200)
    {
      DoPrepare(r);
      if !r.prepared {
        return Status(503);
      }
      DoStore(r, true);
      if r.store.Threw? {
        return Escaped;
      }
      if !r.store.Stored? {
        DoClear();
        return Status(500);
      }
      e := CommitAndDeliver(r, 200);
    }
  }
}

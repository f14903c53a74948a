/**
 Every interleaving of creating, updating, deleting and using keys. The persistence lock
 is held from the in-memory change until the snapshot is saved or the change rolled back;
 usage counters may change at any time in between, and so may validations be answered.
 IDs and hashes come from a random source and are taken to be new.
 */
module KeyMachine {
  import opened KeyStore

  /** What the key file holds for one key, the usage counter apart. */
  datatype Saved = Saved(id: string, keyHash: string, policy: Policy)

  function View(keys: map<string, ApiKey>): map<string, Saved> {
    map id | id in keys :: Saved(keys[id].id, keys[id].keyHash, keys[id].policy)
  }

  /** Who holds the persistence lock, with what it needs for a rollback. */
  datatype Job = Free | Creating(key: ApiKey) | Updating(previous: ApiKey) | Deleting(previous: ApiKey)

  datatype Past = Past(ids: set<string>, hashes: set<string>, issued: map<string, string>, deleted: set<string>)

  datatype State = State(store: Store, disk: map<string, Saved>, job: Job, snapshot: map<string, Saved>, past: Past)

  datatype Step =
    | CreateKey(key: ApiKey)
    | UpdateKey(id: string, policy: Policy)
    | DeleteKey(id: string)
    | Finish(saved: bool)
    | UseKey(id: string, now: int)

  const INIT := State(Store(map[], map[]), map[], Free, map[], Past({}, {}, map[], {}))

  predicate Enabled(st: State, step: Step) {
    match step
    case CreateKey(k) => st.job.Free? && k.id !in st.past.ids && k.keyHash !in st.past.hashes
    case UpdateKey(id, _) => st.job.Free? && id in st.store.keys
    case DeleteKey(id) => st.job.Free? && id in st.store.keys
    case Finish(_) => !st.job.Free?
    case UseKey(_, _) => true
  }

  /** Takes the lock, changes the maps and copies them for the save. */
  function Start(st: State, store: Store, job: Job): State {
    st.(store := store, job := job, snapshot := View(store.keys))
  }

  function End(st: State, saved: bool): State
    requires !st.job.Free?
  {
    if saved then
      var past :=
        match st.job
        case Creating(k) => st.past.(issued := st.past.issued[k.keyHash := k.id])
        case Deleting(k) => st.past.(deleted := st.past.deleted + {k.id})
        case _ => st.past;
      st.(disk := st.snapshot, job := Free, past := past)
    else
      var store :=
        match st.job
        case Creating(k) => UndoInsert(st.store, k)
        case Updating(k) => Insert(st.store, k)
        case Deleting(k) => Insert(st.store, k);
      st.(store := store, job := Free)
  }

  function Do(st: State, step: Step): State
    requires Enabled(st, step)
  {
    match step
    case CreateKey(k) =>
      var used := st.past.(ids := st.past.ids + {k.id}, hashes := st.past.hashes + {k.keyHash});
      Start(st.(past := used), Insert(st.store, k), Creating(k))
    case UpdateKey(id, policy) => Start(st, SetPolicy(st.store, id, policy), Updating(st.store.keys[id]))
    case DeleteKey(id) => Start(st, Remove(st.store, st.store.keys[id]), Deleting(st.store.keys[id]))
    case Finish(saved) => End(st, saved)
    case UseKey(id, now) => st.(store := Use(st.store, id, now))
  }

  predicate Runs(steps: seq<Step>)
    decreases |steps|, 0
  {
    steps == [] || (Runs(steps[..|steps| - 1]) && Enabled(After(steps[..|steps| - 1]), steps[|steps| - 1]))
  }

  function After(steps: seq<Step>): State
    requires Runs(steps)
    decreases |steps|, 1
  {
    if steps == [] then INIT else Do(After(steps[..|steps| - 1]), steps[|steps| - 1])
  }

  // ---------- The invariant ----------

  /** What memory would be after a rollback. */
  function Undone(st: State): map<string, ApiKey> {
    match st.job
    case Free => st.store.keys
    case Creating(k) => st.store.keys - {k.id}
    case Updating(k) => st.store.keys[k.id := k]
    case Deleting(k) => st.store.keys[k.id := k]
  }

  ghost predicate JobInv(st: State) {
    match st.job
    case Free => true
    case Creating(k) => k.id in st.store.keys && st.store.keys[k.id].keyHash == k.keyHash && k.keyHash !in st.past.issued
    case Updating(k) => k.id in st.store.keys && st.store.keys[k.id].keyHash == k.keyHash
    case Deleting(k) =>
      && k.id !in st.store.keys && k.keyHash !in st.store.hashToId && k.id !in st.past.deleted
      && (k.keyHash in st.past.issued ==> st.past.issued[k.keyHash] == k.id)
  }

  /** The file holds what memory holds, or would hold after a rollback; a snapshot is what memory holds now. */
  ghost predicate DiskInv(st: State) {
    st.disk == View(Undone(st)) && (!st.job.Free? ==> st.snapshot == View(st.store.keys))
  }

  ghost predicate PastInv(st: State) {
    && st.store.keys.Keys <= st.past.ids && st.store.hashToId.Keys <= st.past.hashes
    && (st.job.Deleting? ==> st.job.previous.id in st.past.ids && st.job.previous.keyHash in st.past.hashes)
    && (forall h | h in st.past.issued :: h in st.past.hashes && st.past.issued[h] in st.past.ids)
    && (forall id | id in st.past.deleted :: id in st.past.ids && id !in st.store.keys)
  }

  /** An issued key is found under its own ID until that ID is deleted. */
  ghost predicate IssuedInv(st: State, h: string) {
    h in st.past.issued ==>
      var id := st.past.issued[h];
      if id in st.past.deleted then h !in st.store.hashToId
      else if st.job.Deleting? && st.job.previous.id == id then st.job.previous.keyHash == h
      else h in st.store.hashToId && st.store.hashToId[h] == id
  }

  ghost predicate Inv(st: State) {
    Inverse(st.store) && JobInv(st) && DiskInv(st) && PastInv(st) && forall h :: IssuedInv(st, h)
  }

  lemma EndKeepsMaps(st: State, saved: bool)
    requires Inv(st) && !st.job.Free?
    ensures Inverse(End(st, saved).store)
  {
    match st.job
    case Creating(k) => RemoveKeepsInverse(st.store, k.id);
    case Updating(k) => InsertKeepsInverse(st.store, k);
    case Deleting(k) => InsertKeepsInverse(st.store, k);
  }

  lemma MapsKept(st: State, step: Step)
    requires Inv(st) && Enabled(st, step)
    ensures Inverse(Do(st, step).store)
  {
    match step
    case CreateKey(k) => InsertKeepsInverse(st.store, k);
    case UpdateKey(id, policy) =>
    case DeleteKey(id) => RemoveKeepsInverse(st.store, id);
    case Finish(saved) => EndKeepsMaps(st, saved);
    case UseKey(id, now) =>
  }

  lemma JobKept(st: State, step: Step)
    requires Inv(st) && Enabled(st, step)
    ensures JobInv(Do(st, step))
  {
    if step.DeleteKey? {
      assert IssuedInv(st, st.store.keys[step.id].keyHash);
    }
  }

  lemma EndKeepsDisk(st: State, saved: bool)
    requires Inv(st) && !st.job.Free?
    ensures DiskInv(End(st, saved))
  {
    if !saved {
      assert End(st, saved).store.keys == Undone(st);
    }
  }

  lemma CreateKeepsDisk(st: State, k: ApiKey)
    requires Inv(st) && Enabled(st, CreateKey(k))
    ensures DiskInv(Do(st, CreateKey(k)))
  {
    hide IssuedInv, Inverse, View;
    assert k.id !in st.store.keys;
    assert Undone(Do(st, CreateKey(k))) == st.store.keys;
  }

  lemma UpdateKeepsDisk(st: State, id: string, policy: Policy)
    requires Inv(st) && Enabled(st, UpdateKey(id, policy))
    ensures DiskInv(Do(st, UpdateKey(id, policy)))
  {
    hide IssuedInv, PastInv, View;
    assert Undone(Do(st, UpdateKey(id, policy))) == st.store.keys;
  }

  lemma DeleteKeepsDisk(st: State, id: string)
    requires Inv(st) && Enabled(st, DeleteKey(id))
    ensures DiskInv(Do(st, DeleteKey(id)))
  {
    hide IssuedInv, PastInv, View;
    assert Undone(Do(st, DeleteKey(id))) == st.store.keys;
  }

  lemma UseKeepsDisk(st: State, id: string, now: int)
    requires Inv(st)
    ensures DiskInv(Do(st, UseKey(id, now)))
  {
    hide IssuedInv, PastInv, Inverse;
  }

  lemma DiskKept(st: State, step: Step)
    requires Inv(st) && Enabled(st, step)
    ensures DiskInv(Do(st, step))
  {
    hide Inv, DiskInv;
    match step
    case CreateKey(k) => CreateKeepsDisk(st, k);
    case UpdateKey(id, policy) => UpdateKeepsDisk(st, id, policy);
    case DeleteKey(id) => DeleteKeepsDisk(st, id);
    case Finish(saved) => EndKeepsDisk(st, saved);
    case UseKey(id, now) => UseKeepsDisk(st, id, now);
  }

  lemma PastKept(st: State, step: Step)
    requires Inv(st) && Enabled(st, step)
    ensures PastInv(Do(st, step))
  {
    hide View, DiskInv, IssuedInv;
  }

  lemma IssuedKept(st: State, step: Step, h: string)
    requires Inv(st) && Enabled(st, step)
    ensures IssuedInv(Do(st, step), h)
  {
    hide View, DiskInv;
    assert IssuedInv(st, h);
  }

  /** At every step of every interleaving, with failed saves and rollbacks. */
  lemma {:induction false} AlwaysInv(steps: seq<Step>)
    requires Runs(steps)
    ensures Inv(After(steps))
  {
    if steps != [] {
      var prefix, last := steps[..|steps| - 1], steps[|steps| - 1];
      AlwaysInv(prefix);
      var st := After(prefix);
      MapsKept(st, last);
      JobKept(st, last);
      DiskKept(st, last);
      PastKept(st, last);
      forall h ensures IssuedInv(Do(st, last), h) {
        IssuedKept(st, last, h);
      }
    }
  }

  // ---------- What follows ----------

  /** Whenever the lock is free, the key file agrees with memory on everything but usage. */
  lemma FileAgrees(steps: seq<Step>)
    requires Runs(steps) && After(steps).job.Free?
    ensures After(steps).disk == View(After(steps).store.keys) && Inverse(After(steps).store)
  {
    AlwaysInv(steps);
  }

  /** An issued key finds its own record until its ID is deleted, and nothing ever after. */
  lemma IssuedUntilDeleted(steps: seq<Step>, h: string)
    requires Runs(steps) && h in After(steps).past.issued
    ensures var st := After(steps);
            var id := st.past.issued[h];
            if id in st.past.deleted then Lookup(st.store, h) == None
            else if st.job.Deleting? && st.job.previous.id == id then Lookup(st.store, h) == None
            else id in st.store.keys && Lookup(st.store, h) == Some(st.store.keys[id])
  {
    AlwaysInv(steps);
    assert IssuedInv(After(steps), h);
  }

  /** The key was issued under its own ID, unless its create is being saved. */
  ghost predicate Registered(st: State, id: string) {
    && (id in st.store.keys && !(st.job.Creating? && st.job.key.id == id) ==>
          st.store.keys[id].keyHash in st.past.issued && st.past.issued[st.store.keys[id].keyHash] == id)
    && ((st.job.Deleting? || st.job.Updating?) && st.job.previous.id == id ==>
          st.job.previous.keyHash in st.past.issued && st.past.issued[st.job.previous.keyHash] == id)
  }

  lemma RegisteredKept(st: State, step: Step, id: string)
    requires Inv(st) && Enabled(st, step) && Registered(st, id)
    ensures Registered(Do(st, step), id)
  {
    hide View, DiskInv, IssuedInv;
  }

  /** Every key that is there when nothing is being saved was issued to somebody under its own ID. */
  lemma {:induction false} StoredIsIssued(steps: seq<Step>, id: string)
    requires Runs(steps)
    ensures Registered(After(steps), id)
    ensures var st := After(steps);
            st.job.Free? && id in st.store.keys ==>
              st.store.keys[id].keyHash in st.past.issued && st.past.issued[st.store.keys[id].keyHash] == id
    decreases |steps|
  {
    hide Inv, Do, Enabled;
    if steps != [] {
      var prefix := steps[..|steps| - 1];
      StoredIsIssued(prefix, id);
      AlwaysInv(prefix);
      RegisteredKept(After(prefix), steps[|steps| - 1], id);
    }
  }

  /** A use sets the time and adds one to the counter of that key, at any moment. */
  lemma UseIsRecorded(steps: seq<Step>, id: string, now: int, other: string)
    requires Runs(steps) && Runs(steps + [UseKey(id, now)]) && other in After(steps).store.keys
    ensures var before, after := After(steps).store.keys, After(steps + [UseKey(id, now)]).store.keys;
            && other in after && after[other].id == before[other].id && after[other].keyHash == before[other].keyHash
            && after[other].policy == before[other].policy
            && after[other].usage ==
               if other == id then Usage(before[id].usage.createdAt, now, before[id].usage.useCount + 1) else before[other].usage
  {
    var all := steps + [UseKey(id, now)];
    assert all[..|all| - 1] == steps;
  }

  /** So it validates at every time up to its expiration, if it has one, until a delete of its ID begins. */
  lemma IssuedValidates(steps: seq<Step>, h: string, now: int)
    requires Runs(steps) && h in After(steps).past.issued
    ensures var st := After(steps);
            var id := st.past.issued[h];
            if id in st.past.deleted || (st.job.Deleting? && st.job.previous.id == id) then Validate(st.store, h, now) == None
            else
              && id in st.store.keys
              && var k := st.store.keys[id];
                 Validate(st.store, h, now) == if k.policy.hasExpiration && k.policy.expiresAt < now then None else Some(k)
  {
    IssuedUntilDeleted(steps, h);
  }

  // ---------- Whose policy it is ----------

  /** The policy that the last create or update gave to an ID, undone where its save failed. */
  function Given(steps: seq<Step>, id: string): Option<Policy>
    decreases |steps|
  {
    if steps == [] then None
    else
      var prefix := steps[..|steps| - 1];
      match steps[|steps| - 1]
      case CreateKey(k) => if k.id == id then Some(k.policy) else Given(prefix, id)
      case UpdateKey(other, policy) => if other == id then Some(policy) else Given(prefix, id)
      case Finish(saved) => if saved then Given(prefix, id) else Settled(prefix, id)
      case _ => Given(prefix, id)
  }

  /** The same, as of the last moment when no change was being saved. */
  function Settled(steps: seq<Step>, id: string): Option<Policy>
    decreases |steps|
  {
    if steps == [] then None
    else
      var prefix := steps[..|steps| - 1];
      match steps[|steps| - 1]
      case CreateKey(_) => Given(prefix, id)
      case UpdateKey(_, _) => Given(prefix, id)
      case DeleteKey(_) => Given(prefix, id)
      case Finish(saved) => if saved then Given(prefix, id) else Settled(prefix, id)
      case _ => Settled(prefix, id)
  }

  ghost predicate PolicyInv(st: State, id: string, given: Option<Policy>, settled: Option<Policy>) {
    && (id in st.store.keys ==> given == Some(st.store.keys[id].policy))
    && (st.job.Free? ==> given == settled)
    && (st.job.Creating? && st.job.key.id != id ==> given == settled)
    && (st.job.Updating? ==> if st.job.previous.id == id then settled == Some(st.job.previous.policy) else given == settled)
    && (st.job.Deleting? ==> given == settled && (st.job.previous.id == id ==> given == Some(st.job.previous.policy)))
  }

  /** At every moment every key has the policy that was last given to it, whatever was used, failed and rolled back. */
  lemma {:induction false} PolicyIsLast(steps: seq<Step>, id: string)
    requires Runs(steps)
    ensures PolicyInv(After(steps), id, Given(steps, id), Settled(steps, id))
    ensures id in After(steps).store.keys ==> Given(steps, id) == Some(After(steps).store.keys[id].policy)
    decreases |steps|
  {
    hide Inv;
    if steps != [] {
      var prefix, last := steps[..|steps| - 1], steps[|steps| - 1];
      PolicyIsLast(prefix, id);
      AlwaysInv(prefix);
      PolicyKept(After(prefix), last, id, Given(prefix, id), Settled(prefix, id));
    }
  }

  lemma PolicyKept(st: State, step: Step, id: string, given: Option<Policy>, settled: Option<Policy>)
    requires Inv(st) && Enabled(st, step) && PolicyInv(st, id, given, settled)
    ensures var given' :=
              match step
              case CreateKey(k) => if k.id == id then Some(k.policy) else given
              case UpdateKey(other, policy) => if other == id then Some(policy) else given
              case Finish(saved) => if saved then given else settled
              case _ => given;
            var settled' :=
              match step
              case Finish(saved) => if saved then given else settled
              case UseKey(_, _) => settled
              case _ => given;
            PolicyInv(Do(st, step), id, given', settled')
  {
    hide View, DiskInv, IssuedInv;
  }

  /** History only grows, and an issued key keeps its ID. */
  predicate Grows(st: State, st': State) {
    && st.past.deleted <= st'.past.deleted
    && forall h | h in st.past.issued :: h in st'.past.issued && st'.past.issued[h] == st.past.issued[h]
  }

  lemma StepGrows(st: State, step: Step)
    requires JobInv(st) && Enabled(st, step)
    ensures Grows(st, Do(st, step))
  {
  }

  lemma {:induction false} PastGrows(steps: seq<Step>, more: seq<Step>)
    requires Runs(steps) && Runs(steps + more)
    ensures Grows(After(steps), After(steps + more))
    decreases |more|
  {
    if more == [] {
      assert steps + more == steps;
    } else {
      var all, less := steps + more, more[..|more| - 1];
      assert all[..|all| - 1] == steps + less;
      PastGrows(steps, less);
      AlwaysInv(steps + less);
      StepGrows(After(steps + less), more[|more| - 1]);
    }
  }

  /** Once a delete has succeeded the key never validates again, at any time, in any continuation. */
  lemma NeverAgain(steps: seq<Step>, more: seq<Step>, h: string, now: int)
    requires Runs(steps) && Runs(steps + more) && h in After(steps).past.issued
    requires After(steps).past.issued[h] in After(steps).past.deleted
    ensures Validate(After(steps + more).store, h, now) == None
  {
    PastGrows(steps, more);
    IssuedUntilDeleted(steps + more, h);
  }

  predicate OnlyUses(steps: seq<Step>) {
    forall i | 0 <= i < |steps| :: steps[i].UseKey?
  }

  /** Uses touch neither the file, the index, nor the lock. */
  lemma {:induction false} UsesAreSmall(steps: seq<Step>, uses: seq<Step>)
    requires OnlyUses(uses) && Runs(steps + uses)
    ensures Runs(steps)
    ensures var before, after := After(steps), After(steps + uses);
            after.disk == before.disk && after.job == before.job && after.store.hashToId == before.store.hashToId
    decreases |uses|
  {
    if uses == [] {
      assert steps + uses == steps;
    } else {
      var all, less := steps + uses, uses[..|uses| - 1];
      assert all[..|all| - 1] == steps + less && all[|all| - 1] == uses[|uses| - 1];
      UsesAreSmall(steps, less);
    }
  }

  /** A delete whose save fails leaves every key validating as before, whatever was used meanwhile. */
  lemma FailedDeleteIsNothing(steps: seq<Step>, id: string, uses: seq<Step>)
    requires OnlyUses(uses) && Runs(steps) && Runs(steps + [DeleteKey(id)])
    requires Runs(steps + [DeleteKey(id)] + uses) && Runs(steps + [DeleteKey(id)] + uses + [Finish(false)])
    ensures var before, after := After(steps), After(steps + [DeleteKey(id)] + uses + [Finish(false)]);
            View(after.store.keys) == View(before.store.keys) && after.store.hashToId == before.store.hashToId
  {
    hide View;
    var deleting := steps + [DeleteKey(id)];
    var using := deleting + uses;
    var all := using + [Finish(false)];
    assert deleting[..|deleting| - 1] == steps && all[..|all| - 1] == using;
    UsesAreSmall(deleting, uses);
    var before, mid, after := After(steps), After(using), After(all);
    assert mid.job == Deleting(before.store.keys[id]) && mid.disk == before.disk && after == End(mid, false);
    FileAgrees(steps);
    FileAgrees(all);
    assert after.store.hashToId == before.store.hashToId;
  }
}

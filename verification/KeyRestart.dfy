/**
 API keys across a restart. Every run of `KeyMachine` saves snapshots, and each save may or may
 not get its directory entry flushed, which nobody looks at. An entry that was not flushed
 reaches the disk at some later time or never, so a crash brings back one of several snapshots.
 */
module KeyRestart {
  import opened KeyStore
  import opened KeyMachine

  type Snapshot = map<string, Saved>

  /** What a crash may find in the key file; `flushed` tells for each step whether its directory flush succeeded. */
  ghost function Possible(steps: seq<Step>, flushed: seq<bool>): set<Snapshot>
    requires Runs(steps) && |flushed| == |steps|
    decreases |steps|
  {
    if steps == [] then {map[]}
    else
      var n := |steps| - 1;
      var before := Possible(steps[..n], flushed[..n]);
      if steps[n] != Finish(true) then before
      else if flushed[n] then {After(steps).disk}
      else before + {After(steps).disk}
  }

  /** The directory flush of the last save succeeded, not counting saves that changed nothing. */
  predicate Durable(steps: seq<Step>, flushed: seq<bool>)
    requires Runs(steps) && |flushed| == |steps|
    decreases |steps|
  {
    if steps == [] then true
    else
      var n := |steps| - 1;
      if steps[n] != Finish(true) then Durable(steps[..n], flushed[..n])
      else flushed[n] || (After(steps).disk == After(steps[..n]).disk && Durable(steps[..n], flushed[..n]))
  }

  lemma OtherStepsKeepFile(st: State, step: Step)
    requires Enabled(st, step) && step != Finish(true)
    ensures Do(st, step).disk == st.disk
  {
  }

  /** The file as it is may always come back, and nothing else may exactly when the last change is durable. */
  lemma {:induction false} PossibleIsExact(steps: seq<Step>, flushed: seq<bool>)
    requires Runs(steps) && |flushed| == |steps|
    ensures After(steps).disk in Possible(steps, flushed)
    ensures (forall m | m in Possible(steps, flushed) :: m == After(steps).disk) <==> Durable(steps, flushed)
    decreases |steps|
  {
    hide Do, Enabled;
    if steps == [] {
      assert After(steps).disk == map[];
    } else {
      var n := |steps| - 1;
      PossibleIsExact(steps[..n], flushed[..n]);
      if steps[n] != Finish(true) {
        OtherStepsKeepFile(After(steps[..n]), steps[n]);
      }
    }
  }

  /** IDs and hashes of a snapshot name one key each. */
  ghost predicate Proper(m: Snapshot) {
    && (forall id | id in m :: m[id].id == id)
    && (forall id, id' | id in m && id' in m && m[id].keyHash == m[id'].keyHash :: id == id')
  }

  lemma ViewIsProper(s: Store)
    requires Inverse(s)
    ensures Proper(View(s.keys))
  {
    var m := View(s.keys);
    forall id, id' | id in m && id' in m && m[id].keyHash == m[id'].keyHash ensures id == id' {
      assert s.hashToId[s.keys[id].keyHash] == id && s.hashToId[s.keys[id'].keyHash] == id';
    }
  }

  lemma {:induction false} PossibleIsProper(steps: seq<Step>, flushed: seq<bool>, m: Snapshot)
    requires Runs(steps) && |flushed| == |steps| && m in Possible(steps, flushed)
    ensures Proper(m)
    decreases |steps|
  {
    hide Do, Enabled, View, Inv;
    if steps != [] {
      var n := |steps| - 1;
      if m in Possible(steps[..n], flushed[..n]) {
        PossibleIsProper(steps[..n], flushed[..n], m);
      } else {
        SavedIsProper(steps);
      }
    }
  }

  lemma SavedIsProper(steps: seq<Step>)
    requires Runs(steps) && steps != [] && steps[|steps| - 1] == Finish(true)
    ensures Proper(After(steps).disk)
  {
    hide View, Proper;
    FileAgrees(steps);
    ViewIsProper(After(steps).store);
  }

  /** What a load of the file makes of it; the counters come from the file too. */
  ghost predicate Loads(m: Snapshot, s: Store) {
    Inverse(s) && View(s.keys) == m
  }

  /** What a validation finds, the usage counter apart. */
  function Seen(s: Store, h: string): Option<Saved> {
    match Lookup(s, h)
    case Some(k) => Some(Saved(k.id, k.keyHash, k.policy))
    case None => None
  }

  /** Stores answer alike exactly when they hold the same keys. */
  lemma SeenIsExact(s: Store, t: Store)
    requires Inverse(s) && Inverse(t)
    ensures (forall h :: Seen(s, h) == Seen(t, h)) <==> View(s.keys) == View(t.keys)
  {
    if View(s.keys) == View(t.keys) {
      forall h ensures Seen(s, h) == Seen(t, h) {
        if Seen(s, h).Some? {
          SameView(s, t, h);
        } else if Seen(t, h).Some? {
          SameView(t, s, h);
        }
      }
    }
    if forall h :: Seen(s, h) == Seen(t, h) {
      SeenAll(s, t);
      SeenAll(t, s);
      assert View(s.keys) == View(t.keys);
    }
  }

  lemma SameView(s: Store, t: Store, h: string)
    requires Inverse(s) && Inverse(t) && View(s.keys) == View(t.keys) && Seen(s, h).Some?
    ensures Seen(t, h) == Seen(s, h)
  {
    var id := s.hashToId[h];
    assert id in View(s.keys) && View(s.keys)[id] == Seen(s, h).value;
    assert id in t.keys && t.keys[id].keyHash == h;
  }

  lemma SeenAll(s: Store, t: Store)
    requires Inverse(s) && Inverse(t) && forall h :: Seen(s, h) == Seen(t, h)
    ensures forall id | id in s.keys :: id in t.keys && View(s.keys)[id] == View(t.keys)[id]
  {
    forall id | id in s.keys ensures id in t.keys && View(s.keys)[id] == View(t.keys)[id] {
      var h := s.keys[id].keyHash;
      assert Seen(s, h) == Seen(t, h);
    }
  }

  /** A store can be made of every snapshot that may come back. */
  lemma ProperLoads(m: Snapshot, usage: Usage) returns (s: Store)
    requires Proper(m)
    ensures Loads(m, s)
  {
    var keys := map id | id in m :: ApiKey(m[id].id, m[id].keyHash, m[id].policy, usage);
    s := Store(keys, map id | id in m :: m[id].keyHash := id);
    assert View(s.keys) == m;
  }

  /** Every store that a restart may come up with answers every key as the one before the crash. */
  ghost predicate SameAfterRestart(steps: seq<Step>, flushed: seq<bool>)
    requires Runs(steps) && |flushed| == |steps|
  {
    forall m, s, h | m in Possible(steps, flushed) && Loads(m, s) :: Seen(s, h) == Seen(After(steps).store, h)
  }

  /** Between saves, a restart changes no answer exactly when the last change is durable. */
  lemma RestartIsExact(steps: seq<Step>, flushed: seq<bool>)
    requires Runs(steps) && |flushed| == |steps| && After(steps).job.Free?
    ensures SameAfterRestart(steps, flushed) <==> Durable(steps, flushed)
  {
    hide View, Inverse, Seen, Proper, Possible, Durable;
    var st := After(steps);
    FileAgrees(steps);
    PossibleIsExact(steps, flushed);
    if Durable(steps, flushed) {
      forall m, s, h | m in Possible(steps, flushed) && Loads(m, s) ensures Seen(s, h) == Seen(st.store, h) {
        SeenIsExact(s, st.store);
      }
    } else {
      var m :| m in Possible(steps, flushed) && m != st.disk;
      PossibleIsProper(steps, flushed, m);
      var s := ProperLoads(m, Usage(0, 0, 0));
      SeenIsExact(s, st.store);
    }
  }

  /** So after a durable change an issued key is found after every crash, and a deleted one is not. */
  lemma IssuedAcrossRestart(steps: seq<Step>, flushed: seq<bool>, m: Snapshot, s: Store, h: string)
    requires Runs(steps) && |flushed| == |steps| && After(steps).job.Free? && Durable(steps, flushed)
    requires m in Possible(steps, flushed) && Loads(m, s) && h in After(steps).past.issued
    ensures Lookup(s, h).Some? <==> After(steps).past.issued[h] !in After(steps).past.deleted
    ensures Lookup(s, h).Some? ==> Lookup(s, h).value.id == After(steps).past.issued[h]
  {
    hide View, Inverse, Possible, Durable, Inv;
    RestartIsExact(steps, flushed);
    IssuedUntilDeleted(steps, h);
    assert Seen(s, h) == Seen(After(steps).store, h);
    AlwaysInv(steps);
    if Lookup(s, h).Some? {
      KeyHasItsId(After(steps), After(steps).past.issued[h]);
    }
  }

  lemma KeyHasItsId(st: State, id: string)
    requires Inv(st) && id in st.store.keys
    ensures st.store.keys[id].id == id
  {
  }

  /** In the middle of a save that follows a durable one, a restart sees all of the change or none of it. */
  lemma RestartMidway(steps: seq<Step>, flushed: seq<bool>, m: Snapshot)
    requires Runs(steps) && |flushed| == |steps| && !After(steps).job.Free? && Durable(steps, flushed)
    requires m in Possible(steps, flushed) + {After(steps).snapshot}
    ensures m == View(Undone(After(steps))) || m == View(After(steps).store.keys)
  {
    hide View, Undone;
    PossibleIsExact(steps, flushed);
    AlwaysInv(steps);
  }
}

/**
 API keys: a record per ID and an index from key hash to ID, changed in memory first and
 rolled back when the snapshot cannot be saved.

 This module gives the effect of each critical section on the two maps, `KeyManager` the
 methods in their imperative form, `KeyMachine` every interleaving of them.
 */
module KeyStore {

  datatype Action =
    | Search | Create | Update | Delete | CollectionsList | CollectionsCreate | CollectionsDelete | Import | All

  datatype Scope = Scope(actions: set<Action>, embeddedFilters: string)

  /** The part of a key that the administrator sets. */
  datatype Policy = Policy(
    description: string, scopes: map<string, Scope>, expiresAt: int, hasExpiration: bool,
    rateLimitPerMinute: int, allowHanalyzer: bool)

  datatype Usage = Usage(createdAt: int, lastUsedAt: int, useCount: int)

  datatype ApiKey = ApiKey(id: string, keyHash: string, policy: Policy, usage: Usage)

  datatype Option<T> = None | Some(value: T)

  datatype Store = Store(keys: map<string, ApiKey>, hashToId: map<string, string>)

  /** The two maps are inverse to each other. */
  ghost predicate Inverse(s: Store) {
    && (forall id | id in s.keys ::
          s.keys[id].id == id && s.keys[id].keyHash in s.hashToId && s.hashToId[s.keys[id].keyHash] == id)
    && (forall h | h in s.hashToId :: s.hashToId[h] in s.keys && s.keys[s.hashToId[h]].keyHash == h)
  }

  /** The record behind a hash, expired or not. */
  function Lookup(s: Store, h: string): Option<ApiKey> {
    if h in s.hashToId && s.hashToId[h] in s.keys then Some(s.keys[s.hashToId[h]]) else None
  }

  predicate IsExpired(k: ApiKey, now: int) {
    k.policy.hasExpiration && now > k.policy.expiresAt
  }

  function Validate(s: Store, h: string, now: int): Option<ApiKey> {
    match Lookup(s, h)
    case Some(k) => if IsExpired(k, now) then None else Some(k)
    case None => None
  }

  // ---------- The critical sections ----------

  function Insert(s: Store, k: ApiKey): Store {
    Store(s.keys[k.id := k], s.hashToId[k.keyHash := k.id])
  }

  function Remove(s: Store, k: ApiKey): Store {
    Store(s.keys - {k.id}, s.hashToId - {k.keyHash})
  }

  function UndoInsert(s: Store, k: ApiKey): Store {
    if k.id in s.keys && s.keys[k.id].keyHash == k.keyHash then Remove(s, k) else s
  }

  function SetPolicy(s: Store, id: string, p: Policy): Store
    requires id in s.keys
  {
    s.(keys := s.keys[id := s.keys[id].(policy := p)])
  }

  function Use(s: Store, id: string, now: int): Store {
    if id !in s.keys then s
    else
      var k := s.keys[id];
      s.(keys := s.keys[id := k.(usage := k.usage.(lastUsedAt := now, useCount := k.usage.useCount + 1))])
  }

  // ---------- What they keep ----------

  /**
   Creating a key keeps the maps inverse exactly when its ID is new, or when the ID already
   carries this very hash. An ID that is in use under another hash leaves the old hash
   pointing at the new record.
   */
  lemma InsertKeepsInverse(s: Store, k: ApiKey)
    requires Inverse(s)
    ensures Inverse(Insert(s, k)) <==>
            if k.id in s.keys then s.keys[k.id].keyHash == k.keyHash else k.keyHash !in s.hashToId
  {
    var t := Insert(s, k);
    if k.id in s.keys && s.keys[k.id].keyHash != k.keyHash {
      var h := s.keys[k.id].keyHash;
      assert h in t.hashToId && t.keys[t.hashToId[h]].keyHash != h;
    } else if k.id !in s.keys && k.keyHash in s.hashToId {
      var other := s.hashToId[k.keyHash];
      assert other in t.keys && t.keys[other].keyHash == k.keyHash && t.hashToId[k.keyHash] != other;
    }
  }

  lemma RemoveKeepsInverse(s: Store, id: string)
    requires Inverse(s) && id in s.keys
    ensures Inverse(Remove(s, s.keys[id]))
    ensures forall h :: Lookup(Remove(s, s.keys[id]), h) == if h == s.keys[id].keyHash then None else Lookup(s, h)
  {
    var t := Remove(s, s.keys[id]);
    forall h ensures Lookup(t, h) == if h == s.keys[id].keyHash then None else Lookup(s, h) {
      if h in t.hashToId {
        assert h in s.hashToId;
      }
    }
  }

  /** A rolled back delete is as if nothing had happened. */
  lemma UndoRemove(s: Store, id: string)
    requires Inverse(s) && id in s.keys
    ensures Insert(Remove(s, s.keys[id]), s.keys[id]) == s
  {
    var k := s.keys[id];
    var t := Insert(Remove(s, k), k);
    assert t.keys == s.keys;
    assert t.hashToId == s.hashToId;
  }

  /**
   A rolled back create is as if nothing had happened exactly for a new ID and a new hash. Under
   an ID in use it takes the earlier key with it.
   */
  lemma UndoInsertRestores(s: Store, k: ApiKey)
    ensures UndoInsert(Insert(s, k), k) == s <==> k.id !in s.keys && k.keyHash !in s.hashToId
  {
    var t := UndoInsert(Insert(s, k), k);
    assert k.id !in t.keys && k.keyHash !in t.hashToId;
    if k.id !in s.keys && k.keyHash !in s.hashToId {
      assert t.keys == s.keys;
      assert t.hashToId == s.hashToId;
    }
  }

  /** Under inverse maps a hash is found exactly when some record carries it. */
  lemma LookupIsExact(s: Store, h: string)
    requires Inverse(s)
    ensures Lookup(s, h).Some? <==> exists id :: id in s.keys && s.keys[id].keyHash == h
    ensures Lookup(s, h).Some? ==> Lookup(s, h).value.keyHash == h
  {
    if h in s.hashToId {
      assert s.hashToId[h] in s.keys;
    }
  }
}

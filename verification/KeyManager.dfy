/**
 The key manager as the server calls it. The outcome of saving a snapshot is an input, as
 are the clock, the generated key with its hash, and the generated ID.
 */
module KeyManager {
  import opened KeyStore
  import RL = RateLimiter

  class APIKeyManager {
    var keys: map<string, ApiKey>
    var hashToId: map<string, string>
    var rateLimits: map<string, RL.Tracker>
    /** The keys in the key file, as of the last successful save. */
    var file: map<string, ApiKey>

    function Contents(): Store
      reads this
    {
      Store(keys, hashToId)
    }

    ghost predicate Valid()
      reads this
    {
      Inverse(Contents())
    }

    constructor ()
      ensures Valid() && keys == map[] && hashToId == map[] && rateLimits == map[] && file == map[]
    {
      keys, hashToId, rateLimits, file := map[], map[], map[], map[];
    }

    /** The record CreateKey stores: the caller's policy without its expiration. */
    static function NewKey(spec: ApiKey, hash: string, newId: string): ApiKey {
      ApiKey(if spec.id == "" then newId else spec.id, hash,
             spec.policy.(hasExpiration := false, expiresAt := 0), spec.usage)
    }

    method CreateKey(spec: ApiKey, rawKey: string, hash: string, newId: string, saved: bool) returns (r: string)
      requires Valid()
      modifies this
      ensures var k := NewKey(spec, hash, newId);
              && Contents() == (if saved then Insert(old(Contents()), k) else UndoInsert(Insert(old(Contents()), k), k))
              && file == (if saved then keys else old(file))
              && (k.id !in old(keys) && hash !in old(hashToId) ==> Valid())
              && (!saved ==> (Contents() == old(Contents()) <==> k.id !in old(keys) && hash !in old(hashToId)))
      // the new key is found under its hash at once and for ever, with the caller's policy
      ensures saved ==>
                var id := if spec.id == "" then newId else spec.id;
                && keys == old(keys)[id := keys[id]] && keys[id].id == id && keys[id].keyHash == hash
                && hashToId == old(hashToId)[hash := id] && keys[id].usage == spec.usage
                && !keys[id].policy.hasExpiration && keys[id].policy.expiresAt == 0
                && keys[id].policy.(hasExpiration := spec.policy.hasExpiration, expiresAt := spec.policy.expiresAt) == spec.policy
                && forall now :: Validate(Contents(), hash, now) == Some(keys[id])
      ensures r == (if saved then rawKey else "")
      ensures rateLimits == old(rateLimits)
    {
      ghost var before := Contents();
      var k := NewKey(spec, hash, newId);
      keys := keys[k.id := k];
      hashToId := hashToId[hash := k.id];
      InsertKeepsInverse(before, k);
      if !saved {
        if k.id in keys && keys[k.id].keyHash == hash {
          keys := keys - {k.id};
          hashToId := hashToId - {hash};
        }
        UndoInsertRestores(before, k);
        return "";
      }
      file := keys;
      return rawKey;
    }

    method ValidateKey(hash: string, now: int) returns (r: Option<ApiKey>)
      requires Valid()
      ensures r.Some? <==>
        exists id :: id in keys && keys[id].keyHash == hash && (keys[id].policy.hasExpiration ==> now <= keys[id].policy.expiresAt)
      ensures r.Some? ==> r.value.keyHash == hash && r.value.id in keys && keys[r.value.id] == r.value
      ensures r == Validate(Contents(), hash, now)
    {
      LookupIsExact(Contents(), hash);
      if hash !in hashToId {
        return None;
      }
      var id := hashToId[hash];
      if id !in keys {
        return None;
      }
      if IsExpired(keys[id], now) {
        return None;
      }
      return Some(keys[id]);
    }

    method DeleteKey(id: string, saved: bool) returns (ok: bool)
      requires Valid()
      modifies this
      ensures Valid() && ok == (id in old(keys) && saved)
      ensures ok ==> keys == old(keys) - {id} && hashToId == old(hashToId) - {old(keys)[id].keyHash}
      ensures Contents() == if ok then Remove(old(Contents()), old(keys)[id]) else old(Contents())
      ensures file == (if ok then keys else old(file))
      ensures rateLimits == (if ok then old(rateLimits) - {id} else old(rateLimits))
    {
      if id !in keys {
        return false;
      }
      ghost var before := Contents();
      var previous := keys[id];
      RemoveKeepsInverse(before, id);
      UndoRemove(before, id);
      hashToId := hashToId - {previous.keyHash};
      keys := keys - {id};
      if !saved {
        keys := keys[previous.id := previous];
        hashToId := hashToId[previous.keyHash := previous.id];
        return false;
      }
      file := keys;
      rateLimits := rateLimits - {id};
      return true;
    }

    method UpdateKey(id: string, policy: Policy, saved: bool) returns (ok: bool)
      requires Valid()
      modifies this
      ensures Valid() && ok == (id in old(keys) && saved)
      ensures Contents() == if ok then SetPolicy(old(Contents()), id, policy) else old(Contents())
      ensures hashToId == old(hashToId) && (!ok ==> keys == old(keys))
      ensures ok ==> keys == old(keys)[id := ApiKey(id, old(keys)[id].keyHash, policy, old(keys)[id].usage)]
      ensures file == (if ok then keys else old(file)) && rateLimits == old(rateLimits)
    {
      if id !in keys {
        return false;
      }
      var previous := keys[id];
      keys := keys[id := previous.(policy := policy)];
      if !saved {
        keys := keys[id := previous];
        hashToId := hashToId[previous.keyHash := id];
        assert keys == old(keys) && hashToId == old(hashToId);
        return false;
      }
      file := keys;
      return true;
    }

    method UpdateLastUsed(id: string, now: int)
      requires Valid()
      modifies this
      ensures Valid() && Contents() == Use(old(Contents()), id, now)
      ensures hashToId == old(hashToId) && (id !in old(keys) ==> keys == old(keys))
      ensures id in old(keys) ==>
                var k := old(keys)[id];
                var used := Usage(k.usage.createdAt, now, k.usage.useCount + 1);
                keys == old(keys)[id := ApiKey(id, k.keyHash, k.policy, used)]
      ensures file == old(file) && rateLimits == old(rateLimits)
    {
      if id in keys {
        var k := keys[id];
        keys := keys[id := k.(usage := k.usage.(lastUsedAt := now, useCount := k.usage.useCount + 1))];
      }
    }

    method CheckRateLimit(id: string, now: int) returns (ok: bool)
      modifies this
      ensures id !in keys ==> !ok && rateLimits == old(rateLimits)
      ensures id in keys ==>
                var before := if id in old(rateLimits) then old(rateLimits)[id] else RL.UNUSED;
                var limit := RL.EffectiveLimit(keys[id].policy.rateLimitPerMinute);
                && ok == RL.Admits(before, limit, now)
                && rateLimits == old(rateLimits)[id := RL.Next(before, limit, now)]
      // refused exactly in a window that is still open and used up
      ensures id in keys ==>
                var limit := if keys[id].policy.rateLimitPerMinute > 0 then keys[id].policy.rateLimitPerMinute else 1000;
                var start := if id in old(rateLimits) then old(rateLimits)[id].windowStart else 0;
                var count := if id in old(rateLimits) then old(rateLimits)[id].requestCount else 0;
                !ok <==> now < start + 60000 && count >= limit
      ensures Contents() == old(Contents()) && file == old(file)
    {
      if id !in keys {
        return false;
      }
      var limit := RL.EffectiveLimit(keys[id].policy.rateLimitPerMinute);
      var tracker := if id in rateLimits then rateLimits[id] else RL.UNUSED;
      if now - tracker.windowStart >= RL.MINUTE {
        tracker := RL.Tracker(now, 0);
      }
      if tracker.requestCount >= limit {
        rateLimits := rateLimits[id := tracker];
        return false;
      }
      rateLimits := rateLimits[id := tracker.(requestCount := tracker.requestCount + 1)];
      return true;
    }
  }
}

/** One partition of the keyspace, with the helpers every command goes through. */
module Shards {
  import opened Base
  import opened Keyspace

  /** The value container kept under a key, mutated in place by the commands. */
  class Entry {
    var val: Value
    var deadline: Option<int>
    var lastAccess: int
    var accessCount: nat
    ghost var home: Bytes  // the key it was last stored under

    constructor (val: Value, deadline: Option<int>, lastAccess: int, accessCount: nat)
      ensures this.val == val && this.deadline == deadline
      ensures this.lastAccess == lastAccess && this.accessCount == accessCount
    {
      this.val, this.deadline, this.lastAccess, this.accessCount := val, deadline, lastAccess, accessCount;
    }

    ghost function Contents(): Record
      reads this
    {
      Record(Slot(val, deadline), lastAccess, accessCount)
    }

    predicate Expired(now: int)
      reads this
      ensures Expired(now) == Contents().slot.Expired(now)
    {
      deadline.Some? && deadline.value <= now
    }
  }

  class Counter {
    var n: int
    constructor () ensures n == 0 { n := 0; }
  }

  /** A shard at one moment, for specifications that look back at it. */
  datatype ShardState = ShardState(data: map<Bytes, Entry>, ttlKeys: set<Bytes>, versions: map<Bytes, nat>, count: int)

  class Shard {
    var data: map<Bytes, Entry>
    var ttlKeys: set<Bytes>
    var versions: map<Bytes, nat>
    const entryCount: Counter

    constructor (entryCount: Counter)
      ensures data == map[] && ttlKeys == {} && versions == map[] && this.entryCount == entryCount
    {
      data, ttlKeys, versions := map[], {}, map[];
      this.entryCount := entryCount;
    }

    /** The passively expiring read, which removes nothing. */
    method GetLive(key: Bytes, now: int) returns (e: Entry?)
      ensures e == if key in data && !data[key].Expired(now) then data[key] else null
    {
      if key !in data || data[key].Expired(now) { return null; }
      return data[key];
    }

    method GetForWrite(key: Bytes, now: int) returns (e: Entry?)
      modifies this, entryCount
      ensures var dead := key in old(data) && old(data[key].Expired(now));
        && e == (if dead || key !in old(data) then null else old(data)[key])
        && data == (if dead then old(data) - {key} else old(data))
        && ttlKeys == (if dead then old(ttlKeys) - {key} else old(ttlKeys))
        && versions == (if dead then Bump(old(versions), key, 1) else old(versions))
        && entryCount.n == old(entryCount.n) - (if dead then 1 else 0)
    {
      if key !in data { return null; }
      e := data[key];
      if e.Expired(now) {
        Discard(key);
        return null;
      }
    }

    method SetEntry(key: Bytes, e: Entry)
      modifies this, entryCount, e`home
      ensures e.home == key
      ensures data == old(data)[key := e]
      ensures ttlKeys == if e.deadline.Some? then old(ttlKeys) + {key} else old(ttlKeys) - {key}
      ensures versions == Bump(old(versions), key, 1)
      ensures entryCount.n == old(entryCount.n) + (if key in old(data) then 0 else 1)
    {
      if key !in data {
        entryCount.n := entryCount.n + 1;
      }
      data := data[key := e];
      e.home := key;
      if e.deadline.Some? {
        ttlKeys := ttlKeys + {key};
      } else {
        ttlKeys := ttlKeys - {key};
      }
      BumpVersion(key);
    }

    method SetExpiry(key: Bytes, e: Entry, at: Option<int>)
      modifies this, e`deadline
      ensures e.deadline == at
      ensures data == old(data)
      ensures ttlKeys == if at.Some? then old(ttlKeys) + {key} else old(ttlKeys) - {key}
      ensures versions == Bump(old(versions), key, 1)
    {
      e.deadline := at;
      if at.Some? {
        ttlKeys := ttlKeys + {key};
      } else {
        ttlKeys := ttlKeys - {key};
      }
      BumpVersion(key);
    }

    method DeleteEntry(key: Bytes)
      modifies this, entryCount
      ensures data == old(data) - {key} && ttlKeys == old(ttlKeys) - {key}
      ensures versions == old(versions)
      ensures entryCount.n == old(entryCount.n) - (if key in old(data) then 1 else 0)
    {
      if key in data {
        entryCount.n := entryCount.n - 1;
      }
      data := data - {key};
      ttlKeys := ttlKeys - {key};
    }

    /** The pair of steps that every removal by expiry, DEL or eviction takes. */
    method Discard(key: Bytes)
      modifies this, entryCount
      ensures data == old(data) - {key} && ttlKeys == old(ttlKeys) - {key}
      ensures versions == Bump(old(versions), key, 1)
      ensures entryCount.n == old(entryCount.n) - (if key in old(data) then 1 else 0)
    {
      DeleteEntry(key);
      BumpVersion(key);
    }

    method BumpVersion(key: Bytes)
      modifies this`versions
      ensures versions == Bump(old(versions), key, 1)
    {
      var v := (if key in versions then versions[key] else 0) + 1;
      versions := versions[key := v];
    }

    /** A key the reaper is after. */
    ghost predicate Dead(key: Bytes, now: int)
      reads this, data.Values
    {
      key in ttlKeys && key in data && data[key].Expired(now)
    }

    /** This shard is what the given one was, without the keys in gone. */
    ghost predicate Reduced(was: ShardState, gone: set<Bytes>)
      reads this, entryCount
    {
      && data == was.data - gone && ttlKeys == was.ttlKeys - gone
      && versions == BumpAll(was.versions, gone) && entryCount.n == was.count - |gone|
    }

    method DiscardSwept(key: Bytes, ghost was: ShardState, ghost gone: set<Bytes>)
      requires Reduced(was, gone) && key in data
      modifies this, entryCount
      ensures Reduced(was, gone + {key}) && entryCount.n == old(entryCount.n) - 1
    {
      MinusOneMore(was.data, gone, key);
      SetMinusOneMore(was.ttlKeys, gone, key);
      BumpAllOneMore(was.versions, gone, key);
      Discard(key);
    }

    /** One reaper visit: up to sampleSize keys with a deadline are examined, in
        arbitrary order, and the expired ones removed. */
    method SweepSample(sampleSize: int, now: int) returns (removed: int, ghost gone: set<Bytes>)
      modifies this, entryCount
      ensures forall k :: k in gone ==> old(Dead(k, now))
      ensures |old(ttlKeys)| <= sampleSize ==> forall k :: old(Dead(k, now)) ==> k in gone
      ensures removed == |gone| && (removed <= sampleSize || removed == 0)
      ensures Reduced(old(ShardState(data, ttlKeys, versions, entryCount.n)), gone)
    {
      removed, gone := 0, {};
      ghost var was := ShardState(data, ttlKeys, versions, entryCount.n);
      var examined := 0;
      var rest := ttlKeys;
      BumpAllNone(versions);
      while rest != {}
        invariant rest <= was.ttlKeys && examined == |was.ttlKeys| - |rest|
        invariant forall k :: k in gone ==> old(Dead(k, now)) && k !in rest
        invariant forall k :: old(Dead(k, now)) ==> k in gone || k in rest
        invariant removed == was.count - entryCount.n <= examined && (examined <= sampleSize || examined == 0)
        invariant Reduced(was, gone)
        decreases rest
      {
        if examined >= sampleSize { break; }
        var key :| key in rest;
        rest := rest - {key};
        examined := examined + 1;
        if key in data && data[key].Expired(now) {
          DiscardSwept(key, was, gone);
          gone, removed := gone + {key}, removed + 1;
        }
      }
    }

    /** The same, as a statement about single keys. */
    method Sweep(sampleSize: int, now: int) returns (removed: int, ghost gone: set<Bytes>)
      modifies this, entryCount
      ensures forall k :: k in gone ==> old(Dead(k, now))
      ensures |old(ttlKeys)| <= sampleSize ==> forall k :: old(Dead(k, now)) ==> k in gone
      ensures removed == |gone| && (removed <= sampleSize || removed == 0)
      ensures forall k :: k in data <==> k in old(data) && k !in gone
      ensures forall k :: k in data ==> data[k] == old(data)[k]
      ensures forall k :: k in ttlKeys <==> k in old(ttlKeys) && k !in gone
      ensures forall k :: Version(versions, k) == Version(old(versions), k) + (if k in gone then 1 else 0)
      ensures forall k :: k in versions ==> k in old(versions) || k in gone
      ensures entryCount.n == old(entryCount.n) - |gone|
    {
      removed, gone := SweepSample(sampleSize, now);
      forall k ensures Version(versions, k) == Version(old(versions), k) + (if k in gone then 1 else 0) {
        BumpAllVersion(old(versions), gone, k);
      }
    }

    /** The policy's score of a stored entry. */
    function ScoreOf(k: Bytes, score: (int, int, nat) -> real, now: int): real
      requires k in data
      reads this, data.Values
    {
      score(data[k].lastAccess, now, data[k].accessCount)
    }

    ghost predicate Highest(victim: Bytes, sample: set<Bytes>, score: (int, int, nat) -> real, now: int)
      requires sample <= data.Keys
      reads this, data.Values
    {
      victim in sample && forall k :: k in sample ==> ScoreOf(k, score, now) <= ScoreOf(victim, score, now)
    }

    /** The entry of an arbitrary sample that the policy scores highest, of all entries when
        the sample takes them in; no key when there is nothing to choose from. */
    method PickEvictionVictim(score: (int, int, nat) -> real, now: int, sampleSize: nat)
      returns (victim: Bytes, ghost sample: set<Bytes>)
      ensures sample <= data.Keys && |sample| == if |data| < sampleSize then |data| else sampleSize
      ensures if data == map[] || sampleSize == 0 then victim == [] else victim in data
      ensures if sample == {} then victim == [] else Highest(victim, sample, score, now)
      ensures data != map[] && |data| <= sampleSize ==> Highest(victim, data.Keys, score, now)
    {
      victim, sample := [], {};
      var victimScore, haveVictim, examined := 0.0, false, 0;
      var rest := data.Keys;
      while rest != {}
        invariant rest <= data.Keys && sample <= data.Keys
        invariant forall k :: k in sample <==> k in data && k !in rest
        invariant examined == |sample| == |data| - |rest| && examined <= sampleSize
        invariant haveVictim == (examined > 0)
        invariant !haveVictim ==> victim == []
        invariant haveVictim ==> Highest(victim, sample, score, now) && victimScore == ScoreOf(victim, score, now)
        decreases rest
      {
        if examined >= sampleSize { break; }
        var key :| key in rest;
        rest := rest - {key};
        sample := sample + {key};
        examined := examined + 1;
        var sc := ScoreOf(key, score, now);
        if !haveVictim || sc > victimScore {
          victim, victimScore, haveVictim := key, sc, true;
        }
      }
      if |data| <= sampleSize {
        assert rest == {};
        assert sample == data.Keys;
      }
    }
  }
}

/** The database object: both tables, lazy reclaim on every lookup, and the expiry cycle. */
module Database {
  import opened Octets
  import opened Keyspace
  import opened Expiry

  class Db {
    var entries: Table
    var volatileKeys: set<Bytes>
    var doomed: seq<Bytes>
    var expiredCount: nat

    ghost function State(): Store
      reads this
    {
      Store(entries, volatileKeys, expiredCount)
    }

    constructor ()
      ensures State() == Store(map[], {}, 0) && Consistent(State())
    {
      entries, volatileKeys, doomed, expiredCount := map[], {}, [], 0;
    }

    method ReclaimKey(key: Bytes)
      modifies this
      ensures State() == Reclaim(old(State()), key) && doomed == old(doomed)
    {
      entries := entries - {key};
      volatileKeys := volatileKeys - {key};
      expiredCount := expiredCount + 1;
    }

    method Find(key: Bytes, now: int) returns (v: Option<Value>)
      modifies this
      ensures (State(), v) == Lookup(old(State()), key, now)
    {
      if key !in entries {
        return None;
      }
      if entries[key].IsExpired(now) {
        ReclaimKey(key);
        return None;
      }
      v := Some(entries[key]);
    }

    method Put(key: Bytes, data: Bytes, deadline: int)
      modifies this
      ensures State() == SetString(old(State()), key, data, deadline)
    {
      entries := entries[key := Value(data, deadline)];
      if deadline == NO_EXPIRY {
        volatileKeys := volatileKeys - {key};
      } else {
        volatileKeys := volatileKeys + {key};
      }
    }

    /** Assignment through the reference returned by a lookup. */
    method Overwrite(key: Bytes, data: Bytes)
      requires key in entries
      modifies this
      ensures State() == WriteData(old(State()), key, data)
    {
      entries := entries[key := entries[key].(data := data)];
    }

    method Remove(key: Bytes, now: int) returns (found: bool)
      modifies this
      ensures (State(), found) == Erase(old(State()), key, now)
    {
      var v := Find(key, now);
      if v.None? {
        return false;
      }
      entries := entries - {key};
      volatileKeys := volatileKeys - {key};
      found := true;
    }

    method ExpireAt(key: Bytes, deadline: int, now: int) returns (found: bool)
      modifies this
      ensures (State(), found) == SetExpireAt(old(State()), key, deadline, now)
    {
      var v := Find(key, now);
      if v.None? {
        return false;
      }
      entries := entries[key := v.value.(expireAt := deadline)];
      volatileKeys := volatileKeys + {key};
      found := true;
    }

    method ClearDeadline(key: Bytes, now: int) returns (cleared: bool)
      modifies this
      ensures (State(), cleared) == Persist(old(State()), key, now)
    {
      var v := Find(key, now);
      if v.None? || !v.value.HasExpiry() {
        return false;
      }
      entries := entries[key := v.value.(expireAt := NO_EXPIRY)];
      volatileKeys := volatileKeys - {key};
      cleared := true;
    }

    method RemainingMs(key: Bytes, now: int) returns (ms: int)
      modifies this
      ensures (State(), ms) == Pttl(old(State()), key, now)
    {
      var v := Find(key, now);
      if v.None? {
        return NO_KEY;
      }
      if !v.value.HasExpiry() {
        return NO_TTL;
      }
      var remaining := v.value.expireAt - now;
      ms := if remaining > 0 then remaining else 0;
    }

    method Clear()
      modifies this
      ensures State() == Store(map[], {}, old(expiredCount))
    {
      entries, volatileKeys := map[], {};
    }

    // ----- The expiry cycle

    /** The inner loop: one bucket, until it or the sample is exhausted. */
    method CollectFrom(keys: seq<Bytes>, now: int, size: nat, already: nat, ghost seen: seq<Bytes>)
      returns (sampled: nat, ghost taken: nat)
      requires |seen| == already < size && doomed == Doomed(State(), seen, now)
      modifies this`doomed
      ensures taken <= |keys| && sampled == already + taken <= size
      ensures taken == |keys| || sampled == size
      ensures doomed == Doomed(State(), seen + keys[..taken], now)
    {
      sampled := already;
      var j := 0;
      assert seen + keys[..0] == seen;
      while j < |keys| && sampled < size
        invariant 0 <= j <= |keys| && sampled == already + j <= size
        invariant doomed == Doomed(State(), seen + keys[..j], now)
      {
        assert (seen + keys[..j + 1])[..already + j] == seen + keys[..j];
        sampled := sampled + 1;
        if keys[j] !in entries || entries[keys[j]].IsExpired(now) {
          doomed := doomed + [keys[j]];
        }
        j := j + 1;
      }
      taken := j;
    }

    /** The outer loop: the buckets from `start` on, wrapping around, until all are walked or the sample is full. */
    method WalkBuckets(buckets: seq<seq<Bytes>>, start: nat, now: int, size: nat) returns (sampled: nat)
      requires start < |buckets| && doomed == []
      modifies this`doomed
      ensures sampled == |Sample(buckets, start, size)|
      ensures doomed == Doomed(State(), Sample(buckets, start, size), now)
    {
      ghost var walk := Rotated(buckets, start);
      assert |walk| == |buckets|;
      ghost var seen: seq<Bytes> := [];
      assert Doomed(State(), seen, now) == [] && Flatten(walk[..0]) == [];
      hide Doomed, Flatten, Rotated;
      sampled := 0;
      var bucket := start;
      var scanned := 0;
      while scanned < |buckets| && sampled < size
        invariant 0 <= scanned <= |buckets|
        invariant bucket == if start + scanned < |buckets| then start + scanned else start + scanned - |buckets|
        invariant sampled == |seen| <= size
        invariant sampled < size ==> seen == Flatten(walk[..scanned])
        invariant sampled == size ==> seen <= Flatten(walk)
        invariant doomed == Doomed(State(), seen, now)
      {
        RotatedAt(buckets, start, scanned);
        ghost var taken;
        sampled, taken := CollectFrom(buckets[bucket], now, size, sampled, seen);
        WalkedBucket(walk, scanned, seen, taken);
        seen := seen + walk[scanned][..taken];
        bucket := NextBucket(bucket, |buckets|);
        scanned := scanned + 1;
      }
      assert walk[..|buckets|] == walk;
      assert seen == Sample(buckets, start, size);
    }

    /** One round: a random bucket, the walk, and the dead keys among those sampled. */
    method CollectDoomed(size: nat, c: Chance, round: nat) returns (sampled: nat)
      requires |c.layout(volatileKeys)| >= 1
      modifies this`doomed
      ensures sampled == |RoundSample(State(), size, c, round)|
      ensures doomed == RoundDoomed(State(), size, c, round)
    {
      var now := c.clock(round);
      var buckets := c.layout(volatileKeys);
      doomed := [];
      sampled := WalkBuckets(buckets, c.random(round) % |buckets|, now, size);
    }

    /** Deletion after the walk, since erasing during it would invalidate its iterators. */
    method ReclaimDoomed()
      modifies this
      ensures State() == ReclaimAll(old(State()), old(doomed)) && doomed == old(doomed)
    {
      var i := 0;
      while i < |doomed|
        invariant 0 <= i <= |doomed|
        invariant doomed == old(doomed)
        invariant State() == ReclaimAll(old(State()), doomed[..i])
      {
        assert doomed[..i + 1][..i] == doomed[..i];
        ReclaimKey(doomed[i]);
        i := i + 1;
      }
      assert doomed[..i] == doomed;
    }

    method ActiveExpireCycle(size: nat, c: Chance) returns (reclaimed: nat)
      requires Possible(c)
      modifies this
      ensures var r := RunCycle(old(State()), size, c, 0); State() == r.store && reclaimed == r.reclaimed
    {
      reclaimed := 0;
      if size == 0 {
        CycleCases(State(), size, c, 0);
        return;
      }
      hide RunCycle, ReclaimAll, RoundSample, RoundDoomed;
      var round := 0;
      ghost var whole := RunCycle(State(), size, c, 0);
      while round < MAX_ROUNDS
        invariant 0 <= round <= MAX_ROUNDS
        invariant var rest := RunCycle(State(), size, c, round);
          whole.store == rest.store && whole.reclaimed == reclaimed + rest.reclaimed
      {
        CycleCases(State(), size, c, round);
        if volatileKeys == {} {
          break;
        }
        assert IsLayout(c.layout(volatileKeys), volatileKeys);
        var sampled := CollectDoomed(size, c, round);
        ReclaimDoomed();
        reclaimed := reclaimed + |doomed|;
        if sampled == 0 {
          break;
        }
        if |doomed| * 4 <= sampled * 1 {
          break;
        }
        round := round + 1;
      }
      CycleCases(State(), size, c, round);
    }
  }

  function NextBucket(bucket: nat, count: nat): (next: nat)
    requires bucket < count
    ensures next == if bucket + 1 == count then 0 else bucket + 1
  {
    (bucket + 1) % count
  }

  lemma RotatedAt(buckets: seq<seq<Bytes>>, start: nat, i: nat)
    requires start < |buckets| && i < |buckets|
    ensures |Rotated(buckets, start)| == |buckets|
    ensures Rotated(buckets, start)[i] == buckets[if start + i < |buckets| then start + i else start + i - |buckets|]
  {}

  /** After the inner loop: the whole bucket was walked, or the sample is full. */
  lemma WalkedBucket(walk: seq<seq<Bytes>>, scanned: nat, before: seq<Bytes>, taken: nat)
    requires scanned < |walk| && taken <= |walk[scanned]| && before == Flatten(walk[..scanned])
    ensures var seen := before + walk[scanned][..taken];
      seen <= Flatten(walk) && (taken == |walk[scanned]| ==> seen == Flatten(walk[..scanned + 1]))
  {
    assert walk[..scanned + 1] == walk[..scanned] + [walk[scanned]];
    FlattenAppend(walk[..scanned], [walk[scanned]]);
    assert Flatten([walk[scanned]]) == walk[scanned] + Flatten([]);
    assert walk == walk[..scanned + 1] + walk[scanned + 1..];
    FlattenAppend(walk[..scanned + 1], walk[scanned + 1..]);
  }
}

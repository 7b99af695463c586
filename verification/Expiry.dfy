/**
 The active half of expiry: rounds of sampling the index from a random bucket on,
 reclaiming the dead keys found, until a sample is mostly alive.
 */
module Expiry {
  import opened Octets
  import opened Keyspace

  const MAX_ROUNDS: nat := 16

  function SetOf(keys: seq<Bytes>): set<Bytes> {
    set k | k in keys
  }

  ghost predicate Distinct(keys: seq<Bytes>) {
    forall i, j :: 0 <= i < j < |keys| ==> keys[i] != keys[j]
  }

  // ----- The environment of one cycle

  /** How a hash set places its elements: some buckets holding each element once. */
  ghost predicate IsLayout(buckets: seq<seq<Bytes>>, keys: set<Bytes>) {
    |buckets| >= 1 && multiset(Flatten(buckets)) == multiset(keys)
  }

  /** The bucket layout of the index, the random numbers, and the clock reading of each round. */
  datatype Chance = Chance(layout: set<Bytes> -> seq<seq<Bytes>>, random: nat -> nat, clock: nat -> int)

  ghost predicate Possible(c: Chance) {
    && (forall keys :: IsLayout(c.layout(keys), keys))
    && (forall i, j :: 0 <= i <= j ==> c.clock(i) <= c.clock(j))
  }

  // ----- One round

  /** The buckets from `start` on, wrapping around. */
  function Rotated(buckets: seq<seq<Bytes>>, start: nat): seq<seq<Bytes>>
    requires start < |buckets|
  {
    buckets[start..] + buckets[..start]
  }

  function Take(keys: seq<Bytes>, n: nat): seq<Bytes> {
    if n <= |keys| then keys[..n] else keys
  }

  /** The keys one round looks at, in the order of the walk. */
  function Sample(buckets: seq<seq<Bytes>>, start: nat, size: nat): seq<Bytes>
    requires start < |buckets|
  {
    Take(Flatten(Rotated(buckets, start)), size)
  }

  predicate IsDoomed(s: Store, k: Bytes, now: int) {
    k !in s.entries || s.entries[k].IsExpired(now)
  }

  function Doomed(s: Store, keys: seq<Bytes>, now: int): seq<Bytes> {
    if keys == [] then []
    else
      var last := keys[|keys| - 1];
      Doomed(s, keys[..|keys| - 1], now) + if IsDoomed(s, last, now) then [last] else []
  }

  function ReclaimAll(s: Store, keys: seq<Bytes>): Store {
    if keys == [] then s else Reclaim(ReclaimAll(s, keys[..|keys| - 1]), keys[|keys| - 1])
  }

  lemma {:induction false} MultisetOfFlatten(a: seq<seq<Bytes>>, b: seq<seq<Bytes>>)
    ensures multiset(Flatten(a + b)) == multiset(Flatten(b + a))
  {
    FlattenAppend(a, b);
    FlattenAppend(b, a);
  }

  lemma {:induction false} OnceEach(keys: seq<Bytes>, s: set<Bytes>)
    requires multiset(keys) == multiset(s)
    ensures |keys| == |s| && Distinct(keys) && SetOf(keys) == s
  {
    assert |multiset(keys)| == |keys|;
    forall k ensures k in keys <==> k in s {
      assert k in multiset(keys) <==> k in multiset(s);
    }
    forall i, j | 0 <= i < j < |keys| ensures keys[i] != keys[j] {
      assert keys == keys[..j] + keys[j..];
      assert multiset(keys) == multiset(keys[..j]) + multiset(keys[j..]);
      assert keys[..j][i] in keys[..j] && keys[j..][0] in keys[j..];
      assert multiset(keys)[keys[i]] <= 1;
    }
  }

  /** A round samples exactly min(size, |index|) keys of the index, no key twice. */
  lemma SampleIsExact(buckets: seq<seq<Bytes>>, keys: set<Bytes>, start: nat, size: nat)
    requires IsLayout(buckets, keys) && start < |buckets|
    ensures var picked := Sample(buckets, start, size);
      && |picked| == (if size <= |keys| then size else |keys|)
      && Distinct(picked) && SetOf(picked) <= keys
      && (size >= |keys| ==> SetOf(picked) == keys)
  {
    assert buckets[..start] + buckets[start..] == buckets;
    MultisetOfFlatten(buckets[start..], buckets[..start]);
    OnceEach(Flatten(Rotated(buckets, start)), keys);
  }

  lemma {:induction false} DoomedIsSubsequence(s: Store, keys: seq<Bytes>, now: int)
    requires Distinct(keys)
    ensures var d := Doomed(s, keys, now);
      && Distinct(d) && |d| <= |keys|
      && (forall k :: k in d <==> k in keys && IsDoomed(s, k, now))
  {
    if keys != [] {
      var init, last := keys[..|keys| - 1], keys[|keys| - 1];
      DoomedIsSubsequence(s, init, now);
      assert keys == init + [last];
      assert last !in init;
    }
  }

  lemma {:induction false} ReclaimAllRemoves(s: Store, keys: seq<Bytes>)
    ensures ReclaimAll(s, keys) == Store(s.entries - SetOf(keys), s.volatile - SetOf(keys), s.expired + |keys|)
  {
    if keys == [] {
      assert SetOf(keys) == {};
      assert s.entries - {} == s.entries;
    } else {
      var init, last := keys[..|keys| - 1], keys[|keys| - 1];
      ReclaimAllRemoves(s, init);
      assert SetOf(keys) == SetOf(init) + {last};
      assert s.entries - SetOf(keys) == (s.entries - SetOf(init)) - {last};
    }
  }

  lemma {:induction false} DistinctCount(keys: seq<Bytes>)
    requires Distinct(keys)
    ensures |SetOf(keys)| == |keys|
  {
    if keys != [] {
      var init, last := keys[..|keys| - 1], keys[|keys| - 1];
      DistinctCount(init);
      assert SetOf(keys) == SetOf(init) + {last};
      assert last !in SetOf(init);
    }
  }

  // ----- The whole cycle

  datatype Round = Round(sampled: nat, dead: nat)

  datatype Cycle = Cycle(store: Store, reclaimed: nat, rounds: seq<Round>)

  /** A sample at most a quarter dead ends the cycle. */
  predicate MostlyAlive(r: Round) {
    r.dead * 4 <= r.sampled
  }

  function RoundSample(s: Store, size: nat, c: Chance, round: nat): seq<Bytes>
    requires |c.layout(s.volatile)| >= 1
  {
    var buckets := c.layout(s.volatile);
    Sample(buckets, c.random(round) % |buckets|, size)
  }

  function RoundDoomed(s: Store, size: nat, c: Chance, round: nat): seq<Bytes>
    requires |c.layout(s.volatile)| >= 1
  {
    Doomed(s, RoundSample(s, size, c, round), c.clock(round))
  }

  ghost function RunCycle(s: Store, size: nat, c: Chance, round: nat): Cycle
    requires Possible(c) && round <= MAX_ROUNDS
    decreases MAX_ROUNDS - round
  {
    if size == 0 || round == MAX_ROUNDS || s.volatile == {} then Cycle(s, 0, [])
    else
      assert IsLayout(c.layout(s.volatile), s.volatile);
      var picked := RoundSample(s, size, c, round);
      var dead := RoundDoomed(s, size, c, round);
      var s' := ReclaimAll(s, dead);
      var outcome := Round(|picked|, |dead|);
      if |picked| == 0 || MostlyAlive(outcome) then Cycle(s', |dead|, [outcome])
      else
        var rest := RunCycle(s', size, c, round + 1);
        Cycle(rest.store, |dead| + rest.reclaimed, [outcome] + rest.rounds)
  }

  /** `s'` is `s` without some keys, all of them indexed and dead at `now`. */
  ghost predicate OnlyDeadRemoved(s: Store, s': Store, removed: set<Bytes>, now: int) {
    && removed <= s.volatile
    && (forall k :: k in removed ==> k in s.entries && s.entries[k].IsExpired(now))
    && s' == Store(s.entries - removed, s.volatile - removed, s.expired + |removed|)
  }

  lemma RoundRemovesDead(s: Store, size: nat, c: Chance, round: nat)
    requires Possible(c) && Consistent(s)
    requires IsLayout(c.layout(s.volatile), s.volatile)
    ensures var dead := RoundDoomed(s, size, c, round);
      && Distinct(dead) && |dead| <= |RoundSample(s, size, c, round)| <= size
      && OnlyDeadRemoved(s, ReclaimAll(s, dead), SetOf(dead), c.clock(round))
      && Consistent(ReclaimAll(s, dead))
  {
    var buckets := c.layout(s.volatile);
    SampleIsExact(buckets, s.volatile, c.random(round) % |buckets|, size);
    var picked := RoundSample(s, size, c, round);
    DoomedIsSubsequence(s, picked, c.clock(round));
    var dead := RoundDoomed(s, size, c, round);
    ReclaimAllRemoves(s, dead);
    DistinctCount(dead);
    forall k | k in SetOf(dead) ensures k in s.volatile {
      assert k in SetOf(picked);
    }
  }

  lemma RemovalCompose(s: Store, s1: Store, s2: Store, a: set<Bytes>, b: set<Bytes>, t1: int, t2: int, now: int)
    requires OnlyDeadRemoved(s, s1, a, t1) && OnlyDeadRemoved(s1, s2, b, t2) && t1 <= now && t2 <= now
    ensures OnlyDeadRemoved(s, s2, a + b, now) && |a + b| == |a| + |b|
  {
    assert a !! b;
    assert s.entries - (a + b) == (s.entries - a) - b;
    assert s.volatile - (a + b) == (s.volatile - a) - b;
    assert |a + b| == |a| + |b|;
  }

  lemma NothingRemoved(s: Store, now: int)
    ensures OnlyDeadRemoved(s, s, {}, now)
  {
    assert s.entries - {} == s.entries;
  }

  lemma ClockAdvances(c: Chance, round: nat)
    requires Possible(c) && round <= MAX_ROUNDS
    ensures c.clock(round) <= c.clock(MAX_ROUNDS)
  {}

  lemma RoomLeft(round: nat, size: nat)
    requires round < MAX_ROUNDS
    ensures (MAX_ROUNDS - round) * size == size + (MAX_ROUNDS - (round + 1)) * size
    ensures (MAX_ROUNDS - (round + 1)) * size >= 0
  {}

  /** The cases of a cycle: over at once, ended by this round, or going on after it. */
  ghost predicate Stops(s: Store, size: nat, round: nat) {
    size == 0 || round == MAX_ROUNDS || s.volatile == {}
  }

  ghost predicate LastRound(r: Round) {
    r.sampled == 0 || MostlyAlive(r)
  }

  ghost function ThisRound(s: Store, size: nat, c: Chance, round: nat): Round
    requires Possible(c)
  {
    assert IsLayout(c.layout(s.volatile), s.volatile);
    Round(|RoundSample(s, size, c, round)|, |RoundDoomed(s, size, c, round)|)
  }

  ghost function NextStore(s: Store, size: nat, c: Chance, round: nat): Store
    requires Possible(c)
  {
    assert IsLayout(c.layout(s.volatile), s.volatile);
    ReclaimAll(s, RoundDoomed(s, size, c, round))
  }

  lemma CycleCases(s: Store, size: nat, c: Chance, round: nat)
    requires Possible(c) && round <= MAX_ROUNDS
    ensures var r := RunCycle(s, size, c, round);
      if Stops(s, size, round) then r == Cycle(s, 0, [])
      else
        var now, next := ThisRound(s, size, c, round), NextStore(s, size, c, round);
        if LastRound(now) then r == Cycle(next, now.dead, [now])
        else
          var rest := RunCycle(next, size, c, round + 1);
          r == Cycle(rest.store, now.dead + rest.reclaimed, [now] + rest.rounds)
  {
    assert IsLayout(c.layout(s.volatile), s.volatile);
  }

  lemma RoundStep(s: Store, size: nat, c: Chance, round: nat) returns (removed: set<Bytes>)
    requires Possible(c) && Consistent(s) && round <= MAX_ROUNDS
    ensures var r := ThisRound(s, size, c, round);
      && OnlyDeadRemoved(s, NextStore(s, size, c, round), removed, c.clock(round))
      && Consistent(NextStore(s, size, c, round))
      && |removed| == r.dead <= r.sampled
      && r.sampled == (if size <= |s.volatile| then size else |s.volatile|)
    ensures c.clock(round) <= c.clock(MAX_ROUNDS)
  {
    var buckets := c.layout(s.volatile);
    assert IsLayout(buckets, s.volatile);
    RoundRemovesDead(s, size, c, round);
    SampleIsExact(buckets, s.volatile, c.random(round) % |buckets|, size);
    removed := SetOf(RoundDoomed(s, size, c, round));
    DistinctCount(RoundDoomed(s, size, c, round));
    ClockAdvances(c, round);
  }

  /**
   One cycle removes only keys that were dead when it ended; its result is the number of keys
   gone from the table, gone from the index and added to the counter, never more than 16 samples.
   */
  lemma {:induction false} CycleRemovesOnlyDead(s: Store, size: nat, c: Chance, round: nat)
    returns (removed: set<Bytes>)
    requires Possible(c) && Consistent(s) && round <= MAX_ROUNDS
    ensures var r := RunCycle(s, size, c, round);
      && OnlyDeadRemoved(s, r.store, removed, c.clock(MAX_ROUNDS))
      && Consistent(r.store)
      && r.reclaimed == |removed|
      && r.reclaimed <= (MAX_ROUNDS - round) * size
    decreases MAX_ROUNDS - round
  {
    hide Consistent, Possible, OnlyDeadRemoved, RunCycle, ThisRound, NextStore;
    CycleCases(s, size, c, round);
    removed := {};
    NothingRemoved(s, c.clock(MAX_ROUNDS));
    if !Stops(s, size, round) {
      var next := NextStore(s, size, c, round);
      var dead := RoundStep(s, size, c, round);
      NothingRemoved(next, c.clock(MAX_ROUNDS));
      var more := {};
      if !LastRound(ThisRound(s, size, c, round)) {
        more := CycleRemovesOnlyDead(next, size, c, round + 1);
      }
      RemovalCompose(s, next, RunCycle(s, size, c, round).store, dead, more,
                     c.clock(round), c.clock(MAX_ROUNDS), c.clock(MAX_ROUNDS));
      removed := dead + more;
      RoomLeft(round, size);
    }
  }

  /**
   A cycle ends before its sixteenth round only if the index is empty or its last sample was at
   most a quarter dead; every earlier sample was more than a quarter dead.
   */
  lemma {:induction false} CycleEndsEarlyOnlyWhenClean(s: Store, size: nat, c: Chance, round: nat)
    requires Possible(c) && Consistent(s) && round <= MAX_ROUNDS && size > 0
    ensures var r := RunCycle(s, size, c, round);
      && |r.rounds| <= MAX_ROUNDS - round
      && (forall i :: 0 <= i < |r.rounds| - 1 ==> !MostlyAlive(r.rounds[i]))
      && (|r.rounds| < MAX_ROUNDS - round ==>
            r.store.volatile == {} || (r.rounds != [] && MostlyAlive(r.rounds[|r.rounds| - 1])))
    decreases MAX_ROUNDS - round
  {
    hide Consistent, Possible, RunCycle, ThisRound, NextStore;
    CycleCases(s, size, c, round);
    if !Stops(s, size, round) {
      var dead := RoundStep(s, size, c, round);
      if !LastRound(ThisRound(s, size, c, round)) {
        CycleEndsEarlyOnlyWhenClean(NextStore(s, size, c, round), size, c, round + 1);
      }
    }
  }

  /** How many keys the rounds from this one on can sample. */
  function RoomFrom(round: nat, size: nat): nat
    requires round <= MAX_ROUNDS
  {
    (MAX_ROUNDS - round) * size
  }

  /**
   Drain rate: when every indexed key is already dead, a cycle reclaims exactly as many of them
   as sixteen samples can hold.
   */
  lemma {:induction false} CycleDrains(s: Store, size: nat, c: Chance, round: nat)
    requires Possible(c) && Consistent(s) && round <= MAX_ROUNDS
    requires forall k :: k in s.volatile ==> s.entries[k].IsExpired(c.clock(round))
    ensures var r, room := RunCycle(s, size, c, round), RoomFrom(round, size);
      r.reclaimed == if |s.volatile| <= room then |s.volatile| else room
    decreases MAX_ROUNDS - round
  {
    hide RunCycle, ThisRound, NextStore, Consistent, Possible, RoomFrom;
    CycleCases(s, size, c, round);
    if !Stops(s, size, round) {
      var removed := RoundStep(s, size, c, round);
      AllDeadSample(s, size, c, round);
      var next := NextStore(s, size, c, round);
      var now := ThisRound(s, size, c, round);
      StillDead(s, next, removed, c, round);
      CycleDrains(next, size, c, round + 1);
      DrainAdds(|s.volatile|, now.dead, size, round);
    } else if s.volatile != {} {
      NoRoom(size, round);
    }
  }

  /** What a round leaves is fewer keys by those removed, and they are dead in the next round too. */
  lemma StillDead(s: Store, next: Store, removed: set<Bytes>, c: Chance, round: nat)
    requires Possible(c) && Consistent(s) && OnlyDeadRemoved(s, next, removed, c.clock(round))
    requires forall k :: k in s.volatile ==> s.entries[k].IsExpired(c.clock(round))
    ensures |next.volatile| == |s.volatile| - |removed|
    ensures forall k :: k in next.volatile ==> k in next.entries && next.entries[k].IsExpired(c.clock(round + 1))
  {
    assert c.clock(round) <= c.clock(round + 1);
    assert s.volatile == next.volatile + removed;
  }

  lemma NoRoom(size: nat, round: nat)
    requires round <= MAX_ROUNDS && (size == 0 || round == MAX_ROUNDS)
    ensures RoomFrom(round, size) == 0
  {}

  lemma DrainAdds(count: nat, dead: nat, size: nat, round: nat)
    requires round < MAX_ROUNDS && dead == if size <= count then size else count
    ensures var later, room := RoomFrom(round + 1, size), RoomFrom(round, size);
      dead + (if count - dead <= later then count - dead else later) == if count <= room then count else room
  {
    RoomLeft(round, size);
  }

  lemma AllDeadSample(s: Store, size: nat, c: Chance, round: nat)
    requires Possible(c) && Consistent(s)
    requires forall k :: k in s.volatile ==> s.entries[k].IsExpired(c.clock(round))
    ensures var r := ThisRound(s, size, c, round); r.dead == r.sampled
  {
    var buckets := c.layout(s.volatile);
    assert IsLayout(buckets, s.volatile);
    var picked := RoundSample(s, size, c, round);
    SampleIsExact(buckets, s.volatile, c.random(round) % |buckets|, size);
    forall i | 0 <= i < |picked| ensures IsDoomed(s, picked[i], c.clock(round)) {
      assert picked[i] in SetOf(picked);
    }
    AllDoomed(s, picked, c.clock(round));
  }

  lemma {:induction false} AllDoomed(s: Store, keys: seq<Bytes>, now: int)
    requires forall i :: 0 <= i < |keys| ==> IsDoomed(s, keys[i], now)
    ensures Doomed(s, keys, now) == keys
  {
    if keys != [] {
      AllDoomed(s, keys[..|keys| - 1], now);
    }
  }
}

/** Whole runs: commands with expiry cycles interleaved anywhere, counters, and deadlines. */
module Histories {
  import opened Octets
  import opened IntCodec
  import opened Keyspace
  import opened Expiry
  import opened Commands
  import opened Replies
  import opened Refinement

  // ----- Active expiry is invisible

  datatype Event =
    | Call(argv: seq<Bytes>, now: int)
    | Tick(size: nat, chance: Chance)

  /** Well-formed calls and possible cycles, on a clock that never runs backwards from `t`. */
  ghost predicate Timely(events: seq<Event>, t: int) {
    events == [] ||
    match events[0]
    case Call(argv, now) => Dispatchable(argv) && ClockReading(now) && t <= now && Timely(events[1..], now)
    case Tick(_, c) => Possible(c) && t <= c.clock(0) && Timely(events[1..], c.clock(MAX_ROUNDS))
  }

  function Calls(events: seq<Event>): seq<Event> {
    if events == [] then []
    else if events[0].Call? then [events[0]] + Calls(events[1..])
    else Calls(events[1..])
  }

  /** The replies of the keyspace over a run. */
  ghost function Answers(s: Store, events: seq<Event>, t: int): seq<Reply>
    requires Timely(events, t)
    decreases |events|
  {
    if events == [] then []
    else match events[0]
         case Call(argv, now) =>
           var o := Dispatch(s, argv, now);
           [o.reply] + Answers(o.store, events[1..], now)
         case Tick(size, c) => Answers(RunCycle(s, size, c, 0).store, events[1..], c.clock(MAX_ROUNDS))
  }

  /** The replies of the plain table to the calls of a run. */
  ghost function PlainAnswers(m: Table, events: seq<Event>, t: int): seq<Reply>
    requires Timely(events, t)
    decreases |events|
  {
    if events == [] then []
    else match events[0]
         case Call(argv, now) =>
           var o := PlainDispatch(LiveIn(m, now), argv, now);
           [o.reply] + PlainAnswers(o.table, events[1..], now)
         case Tick(_, c) => PlainAnswers(m, events[1..], c.clock(MAX_ROUNDS))
  }

  /** Equal wherever the command was not DBSIZE. */
  ghost predicate SameAnswers(calls: seq<Event>, a: seq<Reply>, b: seq<Reply>) {
    && |a| == |b| == |calls|
    && forall i :: 0 <= i < |calls| && calls[i].Call? && !AsksSize(calls[i].argv) ==> a[i] == b[i]
  }

  /** Removing dead keys leaves the live view alone. */
  lemma RemovalIsInvisible(s: Store, s': Store, removed: set<Bytes>, now: int)
    requires OnlyDeadRemoved(s, s', removed, now)
    ensures Live(s', now) == Live(s, now)
  {}

  lemma CycleIsInvisible(s: Store, size: nat, c: Chance)
    requires Possible(c) && Consistent(s)
    ensures var s' := RunCycle(s, size, c, 0).store;
      Consistent(s') && Live(s', c.clock(MAX_ROUNDS)) == Live(s, c.clock(MAX_ROUNDS))
  {
    hide RunCycle, Consistent, Live, OnlyDeadRemoved, Possible;
    var removed := CycleRemovesOnlyDead(s, size, c, 0);
    RemovalIsInvisible(s, RunCycle(s, size, c, 0).store, removed, c.clock(MAX_ROUNDS));
  }

  lemma LiveAtLaterTime(s: Store, m: Table, t: int, now: int)
    requires Live(s, t) == LiveIn(m, t) && t <= now
    ensures Live(s, now) == LiveIn(m, now)
  {
    LiveLater(s, t, now);
    LiveLater(Store(m, {}, 0), t, now);
  }

  lemma LiveIsLive(s: Store, now: int)
    ensures LiveIn(Live(s, now), now) == Live(s, now)
  {}

  lemma SameAnswersCons(e: Event, calls: seq<Event>, x: Reply, y: Reply, a: seq<Reply>, b: seq<Reply>)
    requires SameAnswers(calls, a, b)
    requires e.Call? && (!AsksSize(e.argv) ==> x == y)
    ensures SameAnswers([e] + calls, [x] + a, [y] + b)
  {
    hide AsksSize;
  }

  /** Commands and cycles in any order: the replies are those of the plain table given the commands alone. */
  lemma {:induction false} AnswersArePlain(s: Store, m: Table, events: seq<Event>, t: int)
    requires Timely(events, t) && Consistent(s) && Live(s, t) == LiveIn(m, t)
    ensures SameAnswers(Calls(events), Answers(s, events, t), PlainAnswers(m, events, t))
    decreases |events|
  {
    hide Consistent, Live, LiveIn, RunCycle, Dispatch, PlainDispatch, Possible, Dispatchable, SameAnswers, AsksSize;
    if events == [] {
      NoAnswers();
    } else {
      match events[0] {
        case Call(argv, now) =>
          NotEmpty(argv);
          LiveAtLaterTime(s, m, t, now);
          DispatchRefines(s, argv, now);
          var o, p := Dispatch(s, argv, now), PlainDispatch(LiveIn(m, now), argv, now);
          StepKeepsLive(s, m, argv, now);
          AnswersArePlain(o.store, p.table, events[1..], now);
          SameAnswersCons(events[0], Calls(events[1..]), o.reply, p.reply,
                          Answers(o.store, events[1..], now), PlainAnswers(p.table, events[1..], now));
        case Tick(size, c) =>
          CycleIsInvisible(s, size, c);
          TickTime(c);
          LiveAtLaterTime(s, m, t, c.clock(MAX_ROUNDS));
          AnswersArePlain(RunCycle(s, size, c, 0).store, m, events[1..], c.clock(MAX_ROUNDS));
      }
    }
  }

  lemma NotEmpty(argv: seq<Bytes>)
    requires Dispatchable(argv)
    ensures argv != []
  {}

  lemma NoAnswers()
    ensures SameAnswers([], [], [])
  {}

  lemma TickTime(c: Chance)
    requires Possible(c)
    ensures c.clock(0) <= c.clock(MAX_ROUNDS)
  {}

  lemma StepKeepsLive(s: Store, m: Table, argv: seq<Bytes>, now: int)
    requires Consistent(s) && Dispatchable(argv) && ClockReading(now) && Live(s, now) == LiveIn(m, now)
    ensures var o, p := Dispatch(s, argv, now), PlainDispatch(LiveIn(m, now), argv, now);
      Consistent(o.store) && Live(o.store, now) == LiveIn(p.table, now)
  {
    hide Consistent, Run, AsksSize, PlainSet, PlainIncrBy, PlainExpire, PlainTtl, KeysFrom, Occurrences, LiveIn;
    DispatchRefines(s, argv, now);
    var o := Dispatch(s, argv, now);
    LiveIsLive(o.store, now);
    LiveIsLive(s, now);
    if AsksSize(argv) {
      DbSizeKeeps(s, LiveIn(m, now), argv, now);
    }
  }

  lemma DbSizeKeeps(s: Store, m: Table, argv: seq<Bytes>, now: int)
    requires AsksSize(argv)
    ensures Dispatch(s, argv, now).store == s && PlainDispatch(m, argv, now).table == m
  {
    hide Find;
  }

  lemma {:induction false} PlainIgnoresTicks(m: Table, a: seq<Event>, b: seq<Event>, t: int, u: int)
    requires Timely(a, t) && Timely(b, u) && Calls(a) == Calls(b)
    ensures PlainAnswers(m, a, t) == PlainAnswers(m, b, u)
    decreases |a| + |b|
  {
    hide PlainDispatch, Possible, Dispatchable, LiveIn;
    if a != [] && a[0].Tick? {
      PlainIgnoresTicks(m, a[1..], b, a[0].chance.clock(MAX_ROUNDS), u);
    } else if b != [] && b[0].Tick? {
      PlainIgnoresTicks(m, a, b[1..], t, b[0].chance.clock(MAX_ROUNDS));
    } else if a != [] && b != [] {
      assert Calls(a)[0] == a[0] && Calls(b)[0] == b[0];
      assert Calls(a)[1..] == Calls(a[1..]) && Calls(b)[1..] == Calls(b[1..]);
      NotEmpty(a[0].argv);
      var p := PlainDispatch(LiveIn(m, a[0].now), a[0].argv, a[0].now);
      PlainIgnoresTicks(p.table, a[1..], b[1..], a[0].now, a[0].now);
    }
  }

  lemma SameAnswersJoin(calls: seq<Event>, a: seq<Reply>, b: seq<Reply>, p: seq<Reply>)
    requires SameAnswers(calls, a, p) && SameAnswers(calls, b, p)
    ensures SameAnswers(calls, a, b)
  {
    hide AsksSize;
  }

  /**
   Active expiry is invisible: two runs of the same calls at the same times, with any expiry
   cycles of any sample sizes, layouts and random numbers inserted in either, get the same
   replies to everything but DBSIZE.
   */
  lemma ActiveExpiryIsInvisible(s: Store, a: seq<Event>, b: seq<Event>, t: int)
    requires Consistent(s) && Timely(a, t) && Timely(b, t) && Calls(a) == Calls(b)
    ensures SameAnswers(Calls(a), Answers(s, a, t), Answers(s, b, t))
  {
    hide Consistent, Answers, PlainAnswers, Timely, Calls, SameAnswers, LiveIn;
    var m := Live(s, t);
    LiveIsLive(s, t);
    AnswersArePlain(s, m, a, t);
    AnswersArePlain(s, m, b, t);
    PlainIgnoresTicks(m, a, b, t, t);
    SameAnswersJoin(Calls(a), Answers(s, a, t), Answers(s, b, t), PlainAnswers(m, a, t));
  }

  // ----- Counters

  /** One INCR or DECR at a time. */
  datatype Bump = Bump(delta: int, now: int)

  function BumpAll(s: Store, k: Bytes, bumps: seq<Bump>): (Store, seq<Reply>)
    decreases |bumps|
  {
    if bumps == [] then (s, [])
    else
      var o := RunIncrBy(s, [Ascii("incr"), k], bumps[0].delta, bumps[0].now);
      var (s', replies) := BumpAll(o.store, k, bumps[1..]);
      (s', [o.reply] + replies)
  }

  /** The exact mathematical counter, refusing every step that would leave 64 bits. */
  function Count(v: int, bumps: seq<Bump>): (int, seq<Reply>)
    decreases |bumps|
  {
    if bumps == [] then (v, [])
    else
      var ok := IsInt64(v + bumps[0].delta);
      var v' := if ok then v + bumps[0].delta else v;
      var (last, replies) := Count(v', bumps[1..]);
      (last, [if ok then Integer(v') else Error(OVERFLOW)] + replies)
  }

  lemma BumpOnce(s: Store, k: Bytes, v: int, bump: Bump)
    requires k in s.entries && ParseInt(s.entries[k].data) == Some(v) && !s.entries[k].IsExpired(bump.now)
    requires bump.delta == 1 || bump.delta == -1
    ensures var o := RunIncrBy(s, [Ascii("incr"), k], bump.delta, bump.now);
      if IsInt64(v + bump.delta) then
        && o.reply == Integer(v + bump.delta)
        && o.store == WriteData(s, k, FormatInt(v + bump.delta))
        && ParseInt(FormatInt(v + bump.delta)) == Some(v + bump.delta)
      else o.reply == Error(OVERFLOW) && o.store == s
  {
    hide ParseInt, FormatInt, WriteData;
    ParsedIsInt64(s.entries[k].data);
    if IsInt64(v + bump.delta) {
      ParseFormat(v + bump.delta);
    }
  }

  /** `s'` differs from `s` in the bytes stored under `k` only. */
  ghost predicate OnlyDataChanged(s: Store, s': Store, k: Bytes) {
    k in s.entries && k in s'.entries && s' == s.(entries := s.entries[k := s.entries[k].(data := s'.entries[k].data)])
  }

  lemma DataChanges(s: Store, k: Bytes, data: Bytes, s': Store)
    requires k in s.entries
    ensures OnlyDataChanged(s, s, k)
    ensures OnlyDataChanged(s, WriteData(s, k, data), k)
    ensures OnlyDataChanged(WriteData(s, k, data), s', k) ==> OnlyDataChanged(s, s', k)
  {
    assert s.entries == s.entries[k := s.entries[k]];
  }

  /**
   Over any run of INCR and DECR on a live integer key each reply is the exact running value or
   the refusal of an overflow; the stored bytes parse back to the value, and the deadline, the
   index and every other key are untouched.
   */
  lemma {:induction false} CountersAreExact(s: Store, k: Bytes, v: int, bumps: seq<Bump>)
    requires k in s.entries && ParseInt(s.entries[k].data) == Some(v)
    requires forall i :: 0 <= i < |bumps| ==> !s.entries[k].IsExpired(bumps[i].now)
    requires forall i :: 0 <= i < |bumps| ==> bumps[i].delta == 1 || bumps[i].delta == -1
    ensures var (s', replies) := BumpAll(s, k, bumps);
      && replies == Count(v, bumps).1
      && OnlyDataChanged(s, s', k)
      && ParseInt(s'.entries[k].data) == Some(Count(v, bumps).0)
    decreases |bumps|
  {
    hide ParseInt, FormatInt, RunIncrBy;
    if bumps == [] {
      DataChanges(s, k, [], s);
    } else {
      BumpOnce(s, k, v, bumps[0]);
      var o := RunIncrBy(s, [Ascii("incr"), k], bumps[0].delta, bumps[0].now);
      var v' := if IsInt64(v + bumps[0].delta) then v + bumps[0].delta else v;
      CountersAreExact(o.store, k, v', bumps[1..]);
      DataChanges(s, k, FormatInt(v'), BumpAll(s, k, bumps).0);
    }
  }

  // ----- Deadlines seen through TTL

  /** `later` is what remains of `s` at time `t`: reached by reads and expiry cycles only. */
  ghost predicate Aged(s: Store, from: int, later: Store, t: int) {
    from <= t && Consistent(later) && Live(later, t) == LiveIn(Live(s, from), t)
  }

  lemma AgedByTime(s: Store, from: int, later: Store, t: int, u: int)
    requires t <= u && ((Consistent(s) && later == s && from == t) || Aged(s, from, later, t))
    ensures Aged(s, from, later, u)
  {
    hide Consistent;
    LiveLater(later, t, u);
    LiveLater(Store(Live(s, from), {}, 0), t, u);
  }

  lemma AgedByCycle(s: Store, from: int, later: Store, t: int, size: nat, c: Chance)
    requires Aged(s, from, later, t) && Possible(c) && t <= c.clock(0)
    ensures Aged(s, from, RunCycle(later, size, c, 0).store, c.clock(MAX_ROUNDS))
  {
    hide Consistent, RunCycle, Possible, LiveIn;
    TickTime(c);
    CycleIsInvisible(later, size, c);
    AgedByTime(s, from, later, t, c.clock(MAX_ROUNDS));
  }

  /** Commands that leave every key as it is. */
  predicate IsRead(argv: seq<Bytes>) {
    argv != [] &&
    match Find(argv[0])
    case None => true
    case Some(op) => op in {OpGet, OpExists, OpType, OpTtl, OpDbSize, OpPing, OpEcho, OpCommand, OpQuit}
  }

  lemma ReadKeepsTable(m: Table, argv: seq<Bytes>, now: int)
    requires IsRead(argv)
    ensures PlainDispatch(m, argv, now).table == m
  {
    hide Find, PlainTtl, Occurrences;
  }

  lemma AgedByRead(s: Store, from: int, later: Store, t: int, argv: seq<Bytes>)
    requires Aged(s, from, later, t) && Dispatchable(argv) && ClockReading(t) && IsRead(argv)
    ensures Aged(s, from, Dispatch(later, argv, t).store, t)
  {
    hide Consistent, Dispatch, PlainDispatch, LiveIn, IsRead, AsksSize;
    DispatchRefines(later, argv, t);
    ReadKeepsTable(Live(later, t), argv, t);
  }

  /** Where a run leaves the keyspace, and when. */
  ghost function Final(s: Store, events: seq<Event>, t: int): (Store, int)
    requires Timely(events, t)
    decreases |events|
  {
    if events == [] then (s, t)
    else match events[0]
         case Call(argv, now) => Final(Dispatch(s, argv, now).store, events[1..], now)
         case Tick(size, c) => Final(RunCycle(s, size, c, 0).store, events[1..], c.clock(MAX_ROUNDS))
  }

  ghost predicate OnlyReads(events: seq<Event>) {
    forall i :: 0 <= i < |events| && events[i].Call? ==> IsRead(events[i].argv)
  }

  /** Any run of reads and expiry cycles leaves what had not expired by its end. */
  lemma {:induction false} AgedByRun(s: Store, from: int, later: Store, t: int, events: seq<Event>)
    requires Aged(s, from, later, t) && Timely(events, t) && OnlyReads(events)
    ensures var (final, u) := Final(later, events, t); Aged(s, from, final, u)
    decreases |events|
  {
    hide Aged, Dispatch, RunCycle, Possible, Dispatchable, IsRead;
    if events != [] {
      match events[0] {
        case Call(argv, now) =>
          NotEmpty(argv);
          AgedByTime(s, from, later, t, now);
          AgedByRead(s, from, later, now, argv);
          AgedByRun(s, from, Dispatch(later, argv, now).store, now, events[1..]);
        case Tick(size, c) =>
          AgedByCycle(s, from, later, t, size, c);
          AgedByRun(s, from, RunCycle(later, size, c, 0).store, c.clock(MAX_ROUNDS), events[1..]);
      }
    }
  }

  lemma TtlOfDeadline(s: Store, k: Bytes, now: int, later: Store, t: int)
    requires k in Live(s, now) && Live(s, now)[k].HasExpiry() && Live(s, now)[k].expireAt <= INT64_MAX
    requires Aged(s, now, later, t) && ClockReading(now)
    ensures var deadline := Live(s, now)[k].expireAt;
      && (t < deadline ==> (IsInt64(deadline - t + 500) <==> deadline - t <= INT64_MAX - 500))
      && (t < deadline && PastHalfSecond(t) ==> IsInt64(deadline - t + 500))
      && RunTtl(later, [Ascii("ttl"), k], t).reply ==
           Integer(if t < deadline then (deadline - t + 500) / 1000 else -2)
  {
    TtlRefines(later, [Ascii("ttl"), k], t);
  }

  /** SET with a TTL succeeds only with the exact deadline. */
  lemma SetStoresDeadline(s: Store, argv: seq<Bytes>, now: int)
    requires Consistent(s) && Dispatchable(argv) && ClockReading(now) && |argv| >= 3
    requires var p := ReadSetOptions(argv, 3, NO_OPTIONS); p.Accepted? && p.opts.hasTtl
    ensures var o := RunSet(s, argv, now);
      var opts := ReadSetOptions(argv, 3, NO_OPTIONS).opts;
      var deadline := now + opts.amount * opts.unitMs;
      o.reply == Simple(Ascii("OK")) ==>
        now < deadline <= INT64_MAX && Live(o.store, now) == Live(s, now)[argv[1] := Value(argv[2], deadline)]
  {
    hide Consistent, LiveIn, RunSet, ReadSetOptions, PlainSet;
    SetRefines(s, argv, now);
    PlainSetStores(Live(s, now), argv, now);
  }

  lemma PlainSetStores(m: Table, argv: seq<Bytes>, now: int)
    requires |argv| >= 3 && 0 < now
    requires var p := ReadSetOptions(argv, 3, NO_OPTIONS); p.Accepted? && p.opts.hasTtl
    ensures var p := PlainSet(m, argv, now);
      var opts := ReadSetOptions(argv, 3, NO_OPTIONS).opts;
      var deadline := now + opts.amount * opts.unitMs;
      p.reply == Simple(Ascii("OK")) ==>
        now < deadline <= INT64_MAX && p.table == m[argv[1] := Value(argv[2], deadline)]
  {
    hide ReadSetOptions;
    OptionsAreSound(argv, 3, NO_OPTIONS);
    var opts := ReadSetOptions(argv, 3, NO_OPTIONS).opts;
    MulOrder(1, opts.amount, opts.unitMs);
  }

  /**
   After SET with a TTL is answered OK, TTL reports the time to the exact deadline rounded to
   the nearest second until it passes, and a missing key from then on.
   */
  lemma SetThenTtl(s: Store, argv: seq<Bytes>, now: int, later: Store, t: int)
    requires Consistent(s) && Dispatchable(argv) && ClockReading(now) && |argv| >= 3
    requires var p := ReadSetOptions(argv, 3, NO_OPTIONS); p.Accepted? && p.opts.hasTtl
    requires RunSet(s, argv, now).reply == Simple(Ascii("OK"))
    requires Aged(RunSet(s, argv, now).store, now, later, t)
    ensures var opts := ReadSetOptions(argv, 3, NO_OPTIONS).opts;
      var deadline := now + opts.amount * opts.unitMs;
      RunTtl(later, [Ascii("ttl"), argv[1]], t).reply ==
        Integer(if t < deadline then (deadline - t + 500) / 1000 else -2)
  {
    hide Consistent, LiveIn, Aged, RunSet, ReadSetOptions, RunTtl;
    SetStoresDeadline(s, argv, now);
    TtlOfDeadline(RunSet(s, argv, now).store, argv[1], now, later, t);
  }

  /** A SET that is not answered OK changes nothing a client can see. */
  lemma RefusedSetIsInvisible(s: Store, argv: seq<Bytes>, now: int)
    requires Consistent(s) && Dispatchable(argv) && ClockReading(now) && |argv| >= 3
    ensures var o := RunSet(s, argv, now);
      o.reply != Simple(Ascii("OK")) ==> Live(o.store, now) == Live(s, now)
  {
    hide Consistent, LiveIn, TtlToDeadline, RunSet, ReadSetOptions;
    SetRefines(s, argv, now);
  }

  /** EXPIRE, likewise, with its deletion for a time that is not in the future. */
  lemma ExpireThenTtl(s: Store, argv: seq<Bytes>, now: int, later: Store, t: int)
    requires Consistent(s) && ClockReading(now) && |argv| == 3
    requires Aged(RunExpire(s, argv, now).store, now, later, t)
    ensures var o := RunExpire(s, argv, now);
      var k, n := argv[1], ParseInt(argv[2]);
      if o.reply != Integer(1) then Live(o.store, now) == Live(s, now)
      else
        && n.Some? && k in Live(s, now)
        && if n.value <= 0 then Live(o.store, now) == Live(s, now) - {k}
           else
             var deadline := now + 1000 * n.value;
             && IsInt64(deadline)
             && Live(o.store, now) == Live(s, now)[k := Live(s, now)[k].(expireAt := deadline)]
             && RunTtl(later, [Ascii("ttl"), k], t).reply ==
                  Integer(if t < deadline then (deadline - t + 500) / 1000 else -2)
  {
    hide Consistent, LiveIn, Aged, RunExpire, ParseInt;
    ExpireRefines(s, argv, now);
    var o := RunExpire(s, argv, now);
    if o.reply == Integer(1) && ParseInt(argv[2]).value > 0 {
      TtlOfDeadline(o.store, argv[1], now, later, t);
    }
  }

  /** So after SET, whatever is read and whenever cycles run, TTL counts down to the exact deadline. */
  lemma SetThenReadsThenTtl(s: Store, argv: seq<Bytes>, now: int, events: seq<Event>, t: int)
    requires Consistent(s) && Dispatchable(argv) && ClockReading(now) && |argv| >= 3
    requires var p := ReadSetOptions(argv, 3, NO_OPTIONS); p.Accepted? && p.opts.hasTtl
    requires RunSet(s, argv, now).reply == Simple(Ascii("OK"))
    requires Timely(events, now) && OnlyReads(events) && Final(RunSet(s, argv, now).store, events, now).1 <= t
    ensures var opts := ReadSetOptions(argv, 3, NO_OPTIONS).opts;
      var deadline := now + opts.amount * opts.unitMs;
      RunTtl(Final(RunSet(s, argv, now).store, events, now).0, [Ascii("ttl"), argv[1]], t).reply ==
        Integer(if t < deadline then (deadline - t + 500) / 1000 else -2)
  {
    hide Consistent, LiveIn, Aged, RunSet, ReadSetOptions, RunTtl, Final, Timely, OnlyReads, PlainSet;
    var set1 := RunSet(s, argv, now).store;
    SetRefines(s, argv, now);
    var (final, u) := Final(set1, events, now);
    AgedByTime(set1, now, set1, now, now);
    AgedByRun(set1, now, set1, now, events);
    AgedByTime(set1, now, final, u, t);
    SetThenTtl(s, argv, now, final, t);
  }

  /** And so after EXPIRE. */
  lemma ExpireThenReadsThenTtl(s: Store, argv: seq<Bytes>, now: int, events: seq<Event>, t: int)
    requires Consistent(s) && ClockReading(now) && |argv| == 3
    requires RunExpire(s, argv, now).reply == Integer(1) && ParseInt(argv[2]).Some? && ParseInt(argv[2]).value > 0
    requires Timely(events, now) && OnlyReads(events) && Final(RunExpire(s, argv, now).store, events, now).1 <= t
    ensures var deadline := now + 1000 * ParseInt(argv[2]).value;
      RunTtl(Final(RunExpire(s, argv, now).store, events, now).0, [Ascii("ttl"), argv[1]], t).reply ==
        Integer(if t < deadline then (deadline - t + 500) / 1000 else -2)
  {
    hide Consistent, LiveIn, Aged, RunExpire, ParseInt, RunTtl, Final, Timely, OnlyReads, PlainExpire;
    var expiring := RunExpire(s, argv, now).store;
    ExpireRefines(s, argv, now);
    var (final, u) := Final(expiring, events, now);
    AgedByTime(expiring, now, expiring, now, now);
    AgedByRun(expiring, now, expiring, now, events);
    AgedByTime(expiring, now, final, u, t);
    ExpireThenTtl(s, argv, now, final, t);
  }
}

/**
 One sequential account of a whole run: the commands of all clients in the order they were
 executed, the protocol errors, and the expiry cycles between them. It says what the keyspace is
 and what each client has been answered.
 */
module Journals {
  import opened Octets
  import opened Keyspace
  import opened Expiry
  import opened Commands
  import opened Replies
  import opened Refinement
  import opened Histories
  import opened Framing
  import opened Service
  import Parser

  datatype Entry<O> =
    | Ran(owner: O, argv: seq<Bytes>, now: int)
    | Rejected(owner: O, error: Parser.ProtocolError)
    | Cycled(size: nat, chance: Chance)

  /** Commands that fit the command layer, run at proper times, and cycles that can happen. */
  ghost predicate Sensible<O>(e: Entry<O>) {
    match e
    case Ran(_, argv, now) => Dispatchable(argv) && ClockReading(now)
    case Rejected(_, _) => true
    case Cycled(_, chance) => Possible(chance)
  }

  ghost predicate AllSensible<O>(j: seq<Entry<O>>) {
    forall i :: 0 <= i < |j| ==> Sensible(j[i])
  }

  ghost function Next<O>(s: Store, e: Entry<O>): Store
    requires Sensible(e)
  {
    match e
    case Ran(_, argv, now) => Dispatch(s, argv, now).store
    case Rejected(_, _) => s
    case Cycled(size, chance) => RunCycle(s, size, chance, 0).store
  }

  /** The keyspace that a journal leads to. */
  ghost function StoreAfter<O>(s: Store, j: seq<Entry<O>>): Store
    requires AllSensible(j)
    decreases |j|
  {
    if j == [] then s else StoreAfter(Next(s, j[0]), j[1..])
  }

  ghost predicate Owned<O>(e: Entry<O>, o: O) {
    !e.Cycled? && e.owner == o
  }

  function Answer<O>(s: Store, e: Entry<O>): seq<Reply> {
    match e
    case Ran(_, argv, now) => if argv == [] then [] else [Dispatch(s, argv, now).reply]
    case Rejected(_, error) => [ProtocolErrorReply(error)]
    case Cycled(_, _) => []
  }

  /** The replies that client `o` is owed. */
  ghost function RepliesTo<O>(s: Store, j: seq<Entry<O>>, o: O): seq<Reply>
    requires AllSensible(j)
    decreases |j|
  {
    if j == [] then []
    else (if Owned(j[0], o) then Answer(s, j[0]) else []) + RepliesTo(Next(s, j[0]), j[1..], o)
  }

  /** The commands of client `o`. */
  ghost function CommandsOf<O>(j: seq<Entry<O>>, o: O): seq<seq<Bytes>> {
    if j == [] then []
    else (if j[0].Ran? && j[0].owner == o then [j[0].argv] else []) + CommandsOf(j[1..], o)
  }

  // ----- Going on with a journal

  lemma {:induction false} StoreContinued<O>(s: Store, j: seq<Entry<O>>, k: seq<Entry<O>>)
    requires AllSensible(j) && AllSensible(k)
    ensures AllSensible(j + k)
    ensures StoreAfter(s, j + k) == StoreAfter(StoreAfter(s, j), k)
    decreases |j|
  {
    hide Sensible, Next;
    if j == [] {
      assert j + k == k;
    } else {
      assert (j + k)[0] == j[0] && (j + k)[1..] == j[1..] + k;
      StoreContinued(Next(s, j[0]), j[1..], k);
    }
  }

  lemma {:induction false} Continued<O>(s: Store, j: seq<Entry<O>>, k: seq<Entry<O>>, o: O)
    requires AllSensible(j) && AllSensible(k) && AllSensible(j + k)
    ensures RepliesTo(s, j + k, o) == RepliesTo(s, j, o) + RepliesTo(StoreAfter(s, j), k, o)
    ensures CommandsOf(j + k, o) == CommandsOf(j, o) + CommandsOf(k, o)
    decreases |j|
  {
    hide Sensible, Next, Answer;
    if j == [] {
      assert j + k == k;
    } else {
      assert (j + k)[0] == j[0] && (j + k)[1..] == j[1..] + k;
      Continued(Next(s, j[0]), j[1..], k, o);
    }
  }

  lemma {:induction false} NotAnOwner<O>(s: Store, j: seq<Entry<O>>, o: O)
    requires AllSensible(j) && forall i :: 0 <= i < |j| ==> !Owned(j[i], o)
    ensures RepliesTo(s, j, o) == [] && CommandsOf(j, o) == []
    decreases |j|
  {
    hide Sensible, Next, Answer;
    if j != [] {
      NotAnOwner(Next(s, j[0]), j[1..], o);
    }
  }

  // ----- A pass over the input of one client, as entries

  function Executed<O>(o: O, cmds: seq<seq<Bytes>>, clock: nat -> int, i: nat): seq<Entry<O>>
    decreases |cmds|
  {
    if cmds == [] then [] else [Ran(o, cmds[0], clock(i))] + Executed(o, cmds[1..], clock, i + 1)
  }

  function PassEntries<O>(o: O, p: Pass, clock: nat -> int): seq<Entry<O>> {
    Executed(o, NonEmpty(p.argvs), clock, 0) + if p.fate.Malformed? then [Rejected(o, p.fate.error)] else []
  }

  ghost predicate AllDispatchable(cmds: seq<seq<Bytes>>) {
    forall j :: 0 <= j < |cmds| ==> Dispatchable(cmds[j])
  }

  lemma {:induction false} ExecutedRuns<O>(s: Store, o: O, cmds: seq<seq<Bytes>>, clock: nat -> int, i: nat)
    requires AllDispatchable(cmds) && forall n :: ClockReading(clock(n))
    ensures var k := Executed(o, cmds, clock, i);
      && AllSensible(k)
      && (forall j :: 0 <= j < |cmds| ==> cmds[j] != [])
      && (StoreAfter(s, k), RepliesTo(s, k, o)) == DispatchAll(s, cmds, clock, i)
      && CommandsOf(k, o) == cmds
      && (forall e :: 0 <= e < |k| ==> k[e].Ran? && k[e].owner == o)
    decreases |cmds|
  {
    hide Dispatch, ClockReading;
    if cmds != [] {
      var e := Ran(o, cmds[0], clock(i));
      var k := Executed(o, cmds[1..], clock, i + 1);
      assert Dispatchable(cmds[0]) && ClockReading(clock(i));
      assert Sensible(e);
      ExecutedRuns(Dispatch(s, cmds[0], clock(i)).store, o, cmds[1..], clock, i + 1);
      assert ([e] + k)[1..] == k;
    }
  }

  /** What a pass does to the keyspace and to its client is what its entries say. */
  lemma PassIsJournaled<O>(s: Store, o: O, p: Pass, clock: nat -> int)
    requires PassIsDispatch(p, s, clock, 0) && AllDispatchable(NonEmpty(p.argvs)) && forall n :: ClockReading(clock(n))
    ensures var k := PassEntries(o, p, clock);
      && AllSensible(k)
      && StoreAfter(s, k) == p.store
      && RepliesTo(s, k, o) == p.replies
      && CommandsOf(k, o) == NonEmpty(p.argvs)
      && (forall e :: 0 <= e < |k| ==> Owned(k[e], o))
  {
    hide DispatchAll, Dispatchable, ClockReading, NonEmpty;
    var cmds := NonEmpty(p.argvs);
    ExecutedRuns(s, o, cmds, clock, 0);
    if p.fate.Malformed? {
      var last := [Rejected(o, p.fate.error)];
      assert AllSensible(last);
      StoreContinued(s, Executed(o, cmds, clock, 0), last);
      Continued(s, Executed(o, cmds, clock, 0), last, o);
      assert last[1..] == [];
    } else {
      assert PassEntries(o, p, clock) == Executed(o, cmds, clock, 0);
    }
  }

  /** Every command a pass delivers fits the command layer. */
  lemma {:induction false} ServedIsDispatchable(st: Parser.ParserState, b: Bytes, s: Store, pending: nat, cap: nat,
                                                lim: Parser.ProtocolLimits, clock: nat -> int, i: nat)
    requires Parser.WellFormed(st, lim) && ServableLimits(lim)
    ensures AllDispatchable(NonEmpty(Serve(st, b, s, pending, cap, lim, clock, i).argvs))
    decreases |b|
  {
    hide Parser.Parse, Dispatch, Encode, Dispatchable, ServableLimits, NonEmpty, AllDispatchable;
    var r := Parser.Parse(st, b, lim);
    NoneDispatchable();
    if r.Complete? {
      if r.argv == [] {
        ServedIsDispatchable(Parser.Start, r.rest, s, pending, cap, lim, clock, i);
        NonEmptyCons(r.argv, Serve(Parser.Start, r.rest, s, pending, cap, lim, clock, i).argvs);
        var later := NonEmpty(Serve(Parser.Start, r.rest, s, pending, cap, lim, clock, i).argvs);
        assert [] + later == later;
      } else {
        ParsedIsDispatchable(st, b, lim);
        var o := Dispatch(s, r.argv, clock(i));
        var queued := pending + |Encode(o.reply)|;
        var p := Serve(Parser.Start, r.rest, o.store, queued, cap, lim, clock, i + 1);
        ServedIsDispatchable(Parser.Start, r.rest, o.store, queued, cap, lim, clock, i + 1);
        NonEmptyCons(r.argv, p.argvs);
        NonEmptyCons(r.argv, []);
        assert [r.argv] + [] == [r.argv];
        OneMoreDispatchable(r.argv, NonEmpty(p.argvs));
        OneMoreDispatchable(r.argv, []);
      }
    }
  }

  lemma NoneDispatchable()
    ensures NonEmpty([]) == [] && AllDispatchable([])
  {}

  lemma OneMoreDispatchable(argv: seq<Bytes>, cmds: seq<seq<Bytes>>)
    requires Dispatchable(argv) && AllDispatchable(cmds)
    ensures AllDispatchable([argv] + cmds)
  {
    hide Dispatchable;
  }

  // ----- What the clients see

  /** The clock never runs backwards from `t` on. */
  ghost predicate Forward<O>(j: seq<Entry<O>>, t: int) {
    j == [] ||
    match j[0]
    case Ran(_, _, now) => t <= now && Forward(j[1..], now)
    case Rejected(_, _) => Forward(j[1..], t)
    case Cycled(_, chance) => t <= chance.clock(0) && Forward(j[1..], chance.clock(MAX_ROUNDS))
  }

  /** A plain table that drops a key at its deadline and knows of no cycles. */
  function PlainNext<O>(m: Table, e: Entry<O>): Table {
    if e.Ran? && e.argv != [] then PlainDispatch(LiveIn(m, e.now), e.argv, e.now).table else m
  }

  function PlainAnswer<O>(m: Table, e: Entry<O>): seq<Reply> {
    match e
    case Ran(_, argv, now) => if argv == [] then [] else [PlainDispatch(LiveIn(m, now), argv, now).reply]
    case Rejected(_, error) => [ProtocolErrorReply(error)]
    case Cycled(_, _) => []
  }

  ghost function PlainRepliesTo<O>(m: Table, j: seq<Entry<O>>, o: O): seq<Reply>
    decreases |j|
  {
    if j == [] then []
    else (if Owned(j[0], o) then PlainAnswer(m, j[0]) else []) + PlainRepliesTo(PlainNext(m, j[0]), j[1..], o)
  }

  /** For every reply to client `o`: whether it answers DBSIZE, which counts dead entries too. */
  ghost function SizeFlags<O>(j: seq<Entry<O>>, o: O): seq<bool>
    decreases |j|
  {
    if j == [] then []
    else (if Owned(j[0], o) then [j[0].Ran? && AsksSize(j[0].argv)] else []) + SizeFlags(j[1..], o)
  }

  /** Equal reply by reply, but for those to DBSIZE. */
  ghost predicate SameButSize(flags: seq<bool>, a: seq<Reply>, b: seq<Reply>) {
    |a| == |b| == |flags| && forall i :: 0 <= i < |flags| && !flags[i] ==> a[i] == b[i]
  }

  /** One entry keeps the keyspace and the plain table alike to a client, now and later. */
  lemma NextIsPlain<O>(s: Store, m: Table, e: Entry<O>, t: int, u: int)
    requires Consistent(s) && Sensible(e) && Live(s, t) == LiveIn(m, t)
    requires match e
             case Ran(_, _, now) => t <= now == u
             case Rejected(_, _) => u == t
             case Cycled(_, chance) => t <= chance.clock(0) && u == chance.clock(MAX_ROUNDS)
    ensures Consistent(Next(s, e)) && Live(Next(s, e), u) == LiveIn(PlainNext(m, e), u)
    ensures e.Ran? ==> e.argv != [] && (!AsksSize(e.argv) ==> Answer(s, e) == PlainAnswer(m, e))
  {
    hide Consistent, Dispatch, PlainDispatch, RunCycle, Possible, Live, LiveIn, AsksSize;
    match e {
      case Ran(_, argv, now) =>
        LiveAtLaterTime(s, m, t, now);
        StepKeepsLive(s, m, argv, now);
        DispatchRefines(s, argv, now);
      case Rejected(_, _) =>
      case Cycled(size, chance) =>
        TickTime(chance);
        CycleIsInvisible(s, size, chance);
        LiveAtLaterTime(s, m, t, u);
    }
  }

  /**
   Whatever the clients do concurrently and whenever cycles happen, a client is answered as by a plain
   table that executes the same commands and nothing else; only its replies to DBSIZE may differ.
   */
  lemma {:induction false} RepliesArePlain<O>(s: Store, m: Table, j: seq<Entry<O>>, t: int, o: O)
    requires Consistent(s) && AllSensible(j) && Forward(j, t) && Live(s, t) == LiveIn(m, t)
    ensures SameButSize(SizeFlags(j, o), RepliesTo(s, j, o), PlainRepliesTo(m, j, o))
    decreases |j|
  {
    hide Consistent, Next, PlainNext, Answer, PlainAnswer, Live, LiveIn, AsksSize, Dispatchable, Possible, SameButSize;
    if j == [] {
      NothingToCompare();
    } else {
      var e := j[0];
      assert Sensible(e);
      var u := TimeAfter(e, t);
      NextIsPlain(s, m, e, t, u);
      RepliesArePlain(Next(s, e), PlainNext(m, e), j[1..], u, o);
      SameAnswer(s, m, e);
      var flags := if Owned(e, o) then [e.Ran? && AsksSize(e.argv)] else [];
      var a := if Owned(e, o) then Answer(s, e) else [];
      var b := if Owned(e, o) then PlainAnswer(m, e) else [];
      assert SameButSize(flags, a, b) by {
        CompareFirst(s, m, e, o);
      }
      CompareMore(flags, a, b, SizeFlags(j[1..], o), RepliesTo(Next(s, e), j[1..], o),
                  PlainRepliesTo(PlainNext(m, e), j[1..], o));
    }
  }

  lemma NothingToCompare()
    ensures SameButSize([], [], [])
  {}

  lemma CompareFirst<O>(s: Store, m: Table, e: Entry<O>, o: O)
    requires Sensible(e) && (e.Ran? ==> e.argv != [])
    requires e.Ran? && !AsksSize(e.argv) ==> Answer(s, e) == PlainAnswer(m, e)
    ensures Owned(e, o) ==> SameButSize([e.Ran? && AsksSize(e.argv)], Answer(s, e), PlainAnswer(m, e))
    ensures SameButSize([], [], [])
  {
    hide AsksSize, Dispatch, PlainDispatch, ProtocolErrorReply;
  }

  lemma CompareMore(f: seq<bool>, a: seq<Reply>, b: seq<Reply>, g: seq<bool>, c: seq<Reply>, d: seq<Reply>)
    requires SameButSize(f, a, b) && SameButSize(g, c, d)
    ensures SameButSize(f + g, a + c, b + d)
  {}

  lemma SameAnswer<O>(s: Store, m: Table, e: Entry<O>)
    ensures !e.Ran? ==> Answer(s, e) == PlainAnswer(m, e)
  {}

  /** Without a DBSIZE the replies are the very same. */
  lemma NeverAsked(flags: seq<bool>, a: seq<Reply>, b: seq<Reply>)
    requires SameButSize(flags, a, b) && true !in flags
    ensures a == b
  {}

  // ----- What the clients can read

  /** A client that sends no unknown command with a line end is sent well-formed elements only. */
  lemma {:induction false} RepliesAreFramed<O>(s: Store, j: seq<Entry<O>>, o: O)
    requires Consistent(s) && AllSensible(j) && AllReadable(CommandsOf(j, o))
    ensures forall i :: 0 <= i < |RepliesTo(s, j, o)| ==> Framed(RepliesTo(s, j, o)[i])
    decreases |j|
  {
    hide Consistent, Next, Answer, Framed, Dispatchable, Readable, Possible, ClockReading;
    if j != [] {
      var e := j[0];
      assert Sensible(e);
      NextIsConsistent(s, e);
      var first := if e.Ran? && e.owner == o then [e.argv] else [];
      var later := CommandsOf(j[1..], o);
      assert CommandsOf(j, o) == first + later;
      assert forall i :: 0 <= i < |later| ==> later[i] == (first + later)[|first| + i];
      RepliesAreFramed(Next(s, e), j[1..], o);
      if Owned(e, o) {
        assert e.Ran? ==> (first + later)[0] == e.argv;
        AnswerIsFramed(s, e);
      }
    }
  }

  lemma NextIsConsistent<O>(s: Store, e: Entry<O>)
    requires Consistent(s) && Sensible(e)
    ensures Consistent(Next(s, e))
  {
    hide Consistent, Dispatch, PlainDispatch, RunCycle, Possible, AsksSize;
    match e {
      case Ran(_, argv, now) => DispatchRefines(s, argv, now);
      case Rejected(_, _) =>
      case Cycled(size, chance) => CycleIsInvisible(s, size, chance);
    }
  }

  lemma AnswerIsFramed<O>(s: Store, e: Entry<O>)
    requires Consistent(s) && Sensible(e) && (e.Ran? ==> e.argv != [] && Readable(e.argv))
    ensures forall i :: 0 <= i < |Answer(s, e)| ==> Framed(Answer(s, e)[i])
  {
    hide Consistent, Dispatch, Framed, Possible;
    match e {
      case Ran(_, argv, now) => DispatchReplyFramed(s, argv, now);
      case Rejected(_, error) => ProtocolErrorFramed(error);
      case Cycled(_, _) =>
    }
  }

  // ----- Time

  /** When an entry is over, if it started at `t` or later. */
  function TimeAfter<O>(e: Entry<O>, t: int): int {
    match e
    case Ran(_, _, now) => now
    case Rejected(_, _) => t
    case Cycled(_, chance) => chance.clock(MAX_ROUNDS)
  }

  function End<O>(j: seq<Entry<O>>, t: int): int
    decreases |j|
  {
    if j == [] then t else End(j[1..], TimeAfter(j[0], t))
  }

  /** From `lo` to `hi` without running backwards. */
  ghost predicate Within<O>(j: seq<Entry<O>>, lo: int, hi: int) {
    Forward(j, lo) && End(j, lo) <= hi
  }

  lemma {:induction false} EarlierStart<O>(j: seq<Entry<O>>, lo: int, t: int)
    requires Forward(j, t) && lo <= t
    ensures Forward(j, lo) && End(j, lo) <= End(j, t)
    decreases |j|
  {
    if j != [] && j[0].Rejected? {
      EarlierStart(j[1..], lo, t);
    }
  }

  /** One stretch of time after another. */
  lemma {:induction false} WithinJoin<O>(j: seq<Entry<O>>, k: seq<Entry<O>>, lo: int, mid: int, hi: int)
    requires Within(j, lo, mid) && Within(k, mid, hi)
    ensures Within(j + k, lo, hi)
    decreases |j|
  {
    if j == [] {
      assert j + k == k;
      EarlierStart(k, lo, mid);
    } else {
      assert (j + k)[0] == j[0] && (j + k)[1..] == j[1..] + k;
      WithinJoin(j[1..], k, TimeAfter(j[0], lo), mid, hi);
    }
  }

  /** Readings that do not decrease, all of them from `lo` to `hi`. */
  ghost predicate Clocked(clock: nat -> int, lo: int, hi: int) {
    forall i, n :: 0 <= i <= n ==> lo <= clock(i) <= clock(n) <= hi
  }

  lemma {:induction false} ExecutedWithin<O>(o: O, cmds: seq<seq<Bytes>>, clock: nat -> int, i: nat, lo: int, hi: int)
    requires Clocked(clock, lo, hi) && lo <= hi
    ensures Within(Executed(o, cmds, clock, i), if cmds == [] then lo else clock(i), hi)
    decreases |cmds|
  {
    if cmds != [] {
      ExecutedWithin(o, cmds[1..], clock, i + 1, lo, hi);
      var k := Executed(o, cmds[1..], clock, i + 1);
      assert clock(i) <= clock(i + 1) <= hi;
      if cmds[1..] != [] {
        EarlierStart(k, clock(i), clock(i + 1));
      }
      assert ([Ran(o, cmds[0], clock(i))] + k)[1..] == k;
    }
  }

  /** A pass journals its commands at the readings it made. */
  lemma PassWithin<O>(o: O, p: Pass, clock: nat -> int, lo: int, hi: int)
    requires Clocked(clock, lo, hi) && lo <= hi
    ensures Within(PassEntries(o, p, clock), lo, hi)
  {
    hide NonEmpty;
    var cmds := NonEmpty(p.argvs);
    var k := Executed(o, cmds, clock, 0);
    ExecutedWithin(o, cmds, clock, 0, lo, hi);
    assert lo <= clock(0);
    EarlierStart(k, lo, if cmds == [] then lo else clock(0));
    if p.fate.Malformed? {
      WithinJoin(k, [Rejected(o, p.fate.error)], lo, hi, hi);
    } else {
      assert k + [] == k;
    }
  }

  /** `k` goes on from `j` with entries that keep to a clock. */
  ghost predicate Extends<O>(j: seq<Entry<O>>, k: seq<Entry<O>>, clock: nat -> int) {
    j <= k && forall lo, hi :: lo <= hi && Clocked(clock, lo, hi) ==> Within(k[|j|..], lo, hi)
  }

  lemma ExtendsByNothing<O>(j: seq<Entry<O>>, clock: nat -> int)
    ensures Extends(j, j, clock)
  {}

  lemma ExtendsByPass<O>(j: seq<Entry<O>>, o: O, p: Pass, clock: nat -> int)
    ensures Extends(j, j + PassEntries(o, p, clock), clock)
  {
    hide PassEntries, Within;
    var k := PassEntries(o, p, clock);
    assert (j + k)[|j|..] == k;
    forall lo, hi | lo <= hi && Clocked(clock, lo, hi) ensures Within(k, lo, hi) {
      PassWithin(o, p, clock, lo, hi);
    }
  }

  /** The readings of a batch do not decrease, within each event and from one to the next. */
  ghost predicate BatchClocked(clock: nat -> nat -> int, lo: int, hi: int) {
    forall e: nat, i: nat, f: nat, n: nat :: e < f || (e == f && i <= n) ==> lo <= clock(e)(i) <= clock(f)(n) <= hi
  }

  ghost predicate ExtendsUpTo<O>(j: seq<Entry<O>>, k: seq<Entry<O>>, clock: nat -> nat -> int, events: nat) {
    j <= k && forall lo, hi :: lo <= hi && BatchClocked(clock, lo, hi) ==> Within(k[|j|..], lo, clock(events)(0))
  }

  /** `k` goes on from `j` with the entries of a batch. */
  ghost predicate ExtendsBatch<O>(j: seq<Entry<O>>, k: seq<Entry<O>>, clock: nat -> nat -> int) {
    j <= k && forall lo, hi :: lo <= hi && BatchClocked(clock, lo, hi) ==> Within(k[|j|..], lo, hi)
  }

  lemma BatchStarts<O>(j: seq<Entry<O>>, clock: nat -> nat -> int)
    ensures ExtendsUpTo(j, j, clock, 0)
  {
    forall lo, hi | lo <= hi && BatchClocked(clock, lo, hi) ensures Within(j[|j|..], lo, clock(0)(0)) {
      assert lo <= clock(0)(0);
    }
  }

  lemma BatchGoesOn<O>(j: seq<Entry<O>>, k: seq<Entry<O>>, l: seq<Entry<O>>, clock: nat -> nat -> int, events: nat)
    requires ExtendsUpTo(j, k, clock, events) && Extends(k, l, clock(events))
    ensures ExtendsUpTo(j, l, clock, events + 1)
  {
    hide Within;
    assert l[|j|..] == k[|j|..] + l[|k|..];
    forall lo, hi | lo <= hi && BatchClocked(clock, lo, hi) ensures Within(l[|j|..], lo, clock(events + 1)(0)) {
      var from, to := clock(events)(0), clock(events + 1)(0);
      assert Clocked(clock(events), from, to);
      WithinJoin(k[|j|..], l[|k|..], lo, from, to);
    }
  }

  lemma BatchEnds<O>(j: seq<Entry<O>>, k: seq<Entry<O>>, clock: nat -> nat -> int, events: nat)
    requires ExtendsUpTo(j, k, clock, events)
    ensures ExtendsBatch(j, k, clock)
  {
    forall lo, hi | lo <= hi && BatchClocked(clock, lo, hi) ensures Within(k[|j|..], lo, hi) {
      assert clock(events)(0) <= hi;
    }
  }

  /** When iteration `n` begins: at `t`, or at the end of the cycle before it. */
  function Began(chance: nat -> Chance, n: nat, t: int): int {
    if n == 0 then t else chance(n - 1).clock(MAX_ROUNDS)
  }

  /** From `t` on no reading is smaller than one made before it, over all iterations. */
  ghost predicate Steady(clock: nat -> nat -> nat -> int, chance: nat -> Chance, t: int) {
    forall n: nat ::
      && Began(chance, n, t) <= chance(n).clock(0)
      && BatchClocked(clock(n), Began(chance, n, t), chance(n).clock(0))
  }

  /** `k` goes on from `j` with the entries of `n` iterations. */
  ghost predicate ExtendsRun<O>(j: seq<Entry<O>>, k: seq<Entry<O>>, clock: nat -> nat -> nat -> int,
                                chance: nat -> Chance, n: nat) {
    j <= k && forall t :: Steady(clock, chance, t) ==> Within(k[|j|..], t, Began(chance, n, t))
  }

  lemma RunStarts<O>(j: seq<Entry<O>>, clock: nat -> nat -> nat -> int, chance: nat -> Chance)
    ensures ExtendsRun(j, j, clock, chance, 0)
  {}

  lemma RunGoesOn<O>(j: seq<Entry<O>>, k: seq<Entry<O>>, l: seq<Entry<O>>, clock: nat -> nat -> nat -> int,
                     chance: nat -> Chance, n: nat, size: nat)
    requires ExtendsRun(j, k, clock, chance, n) && ExtendsBatch(k, l, clock(n)) && Possible(chance(n))
    ensures ExtendsRun(j, l + [Cycled(size, chance(n))], clock, chance, n + 1)
  {
    hide Within, BatchClocked, Possible;
    var cycle := [Cycled(size, chance(n))];
    assert l[|j|..] == k[|j|..] + l[|k|..];
    assert (l + cycle)[|j|..] == l[|j|..] + cycle;
    forall t | Steady(clock, chance, t) ensures Within((l + cycle)[|j|..], t, Began(chance, n + 1, t)) {
      var from, to := Began(chance, n, t), chance(n).clock(0);
      assert from <= to && BatchClocked(clock(n), from, to);
      WithinJoin(k[|j|..], l[|k|..], t, from, to);
      CycleWithin<O>(size, chance(n));
      WithinJoin(l[|j|..], cycle, t, to, chance(n).clock(MAX_ROUNDS));
    }
  }

  lemma CycleWithin<O>(size: nat, chance: Chance)
    requires Possible(chance)
    ensures var j: seq<Entry<O>> := [Cycled(size, chance)]; Within(j, chance.clock(0), chance.clock(MAX_ROUNDS))
  {
    var j: seq<Entry<O>> := [Cycled(size, chance)];
    assert j[1..] == [];
  }
}

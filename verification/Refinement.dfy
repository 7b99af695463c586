/**
 The keyspace with its index, lazy reclaim and sampled expiry answers every command
 exactly as a plain table of timed values does.
 */
module Refinement {
  import opened Octets
  import opened IntCodec
  import opened Keyspace
  import opened Expiry
  import opened Commands
  import CommandSyntax
  import opened Replies

  // ----- The reference: a table from which dead entries vanish by themselves

  datatype Plain = Plain(table: Table, reply: Reply, close: bool)

  function KeysFrom(argv: seq<Bytes>, i: nat): set<Bytes> {
    set j | i <= j < |argv| :: argv[j]
  }

  function Occurrences(m: Table, keys: seq<Bytes>): nat {
    if keys == [] then 0 else (if keys[0] in m then 1 else 0) + Occurrences(m, keys[1..])
  }

  function PlainSet(m: Table, argv: seq<Bytes>, now: int): Plain
    requires |argv| >= 3
  {
    OptionsAreSound(argv, 3, NO_OPTIONS);
    match ReadSetOptions(argv, 3, NO_OPTIONS)
    case Refused(error) => Plain(m, Error(error), false)
    case Accepted(o) =>
      if (o.nx && argv[1] in m) || (o.xx && argv[1] !in m) then Plain(m, NullBulk, false)
      else if o.hasTtl && now + o.amount * o.unitMs > INT64_MAX then Plain(m, Error(BAD_SET_EXPIRE), false)
      else
        var deadline := if o.hasTtl then now + o.amount * o.unitMs else NO_EXPIRY;
        Plain(m[argv[1] := Value(argv[2], deadline)], Simple(Ascii("OK")), false)
  }

  function PlainIncrBy(m: Table, k: Bytes, delta: int): Plain {
    if k !in m then Plain(m[k := Value(FormatInt(delta), NO_EXPIRY)], Integer(delta), false)
    else match ParseInt(m[k].data)
         case None => Plain(m, Error(NOT_INTEGER), false)
         case Some(cur) =>
           if IsInt64(cur + delta) then
             Plain(m[k := m[k].(data := FormatInt(cur + delta))], Integer(cur + delta), false)
           else Plain(m, Error(OVERFLOW), false)
  }

  function PlainExpire(m: Table, argv: seq<Bytes>, now: int): Plain
    requires |argv| == 3
  {
    var k := argv[1];
    match ParseInt(argv[2])
    case None => Plain(m, Error(NOT_INTEGER), false)
    case Some(seconds) =>
      if k !in m then Plain(m, Integer(0), false)
      else if seconds <= 0 then Plain(m - {k}, Integer(1), false)
      else if !IsInt64(now + 1000 * seconds) then Plain(m, Error(BAD_EXPIRE), false)
      else Plain(m[k := m[k].(expireAt := now + 1000 * seconds)], Integer(1), false)
  }

  function PlainTtl(m: Table, k: Bytes, now: int): int {
    if k !in m then -2
    else if !m[k].HasExpiry() then -1
    else (m[k].expireAt - now + 500) / 1000
  }

  const COUNT: Bytes := [99, 111, 117, 110, 116]
  const ASYNC: Bytes := [97, 115, 121, 110, 99]
  const SYNC: Bytes := [115, 121, 110, 99]

  /** FLUSHALL with nothing more than ASYNC or SYNC. */
  predicate Flushes(argv: seq<Bytes>) {
    |argv| <= 1 || (|argv| == 2 && (CommandSyntax.Spells(argv[1], ASYNC) || CommandSyntax.Spells(argv[1], SYNC)))
  }

  function PlainRun(op: Op, m: Table, argv: seq<Bytes>, now: int): Plain
    requires ArityOk(op, |argv|)
  {
    match op
    case OpSet => PlainSet(m, argv, now)
    case OpGet => Plain(m, if argv[1] in m then Bulk(m[argv[1]].data) else NullBulk, false)
    case OpIncr => PlainIncrBy(m, argv[1], 1)
    case OpDecr => PlainIncrBy(m, argv[1], -1)
    case OpDel => Plain(m - KeysFrom(argv, 1), Integer(|m.Keys * KeysFrom(argv, 1)|), false)
    case OpExists => Plain(m, Integer(Occurrences(m, argv[1..])), false)
    case OpType => Plain(m, Simple(if argv[1] in m then Ascii("string") else Ascii("none")), false)
    case OpExpire => PlainExpire(m, argv, now)
    case OpTtl => Plain(m, Integer(PlainTtl(m, argv[1], now)), false)
    case OpPersist =>
      var k := argv[1];
      if k in m && m[k].HasExpiry() then Plain(m[k := m[k].(expireAt := NO_EXPIRY)], Integer(1), false)
      else Plain(m, Integer(0), false)
    case OpPing =>
      Plain(m,
            if |argv| == 1 then Simple([80, 79, 78, 71]) else if |argv| == 2 then Bulk(argv[1])
            else Error(Ascii("ERR wrong number of arguments for 'ping' command")),
            false)
    case OpEcho => Plain(m, Bulk(argv[1]), false)
    case OpQuit => Plain(m, Simple([79, 75]), true)
    case OpDbSize => Plain(m, Integer(|m|), false)
    case OpFlushAll =>
      if Flushes(argv) then Plain(map[], Simple([79, 75]), false) else Plain(m, Error(SYNTAX), false)
    case OpCommand =>
      Plain(m, if |argv| >= 2 && CommandSyntax.Spells(argv[1], COUNT) then Integer(16) else EmptyArray, false)
  }

  function PlainDispatch(m: Table, argv: seq<Bytes>, now: int): Plain
    requires argv != []
  {
    match Find(argv[0])
    case None => Plain(m, Error(UnknownCommand(argv)), false)
    case Some(op) =>
      if ArityOk(op, |argv|) then PlainRun(op, m, argv, now)
      else Plain(m, Error(WrongArity(NameOf(op))), false)
  }

  // ----- Deadlines

  lemma MulOrder(a: int, b: int, c: int)
    requires a <= b && 0 <= c
    ensures a * c <= b * c
  {}

  lemma QuotientBound(a: int, limit: nat, unit: int)
    requires unit > 0
    ensures a > limit / unit <==> a * unit > limit
  {
    var q := limit / unit;
    assert q * unit <= limit < q * unit + unit;
    if a > q {
      MulOrder(q + 1, a, unit);
    } else {
      MulOrder(a, q, unit);
    }
  }

  /** The conversion succeeds exactly when both the product and the sum fit in 64 bits. */
  lemma TtlToDeadlineExact(amount: int, unitMs: int, now: int)
    requires IsInt64(amount) && unitMs > 0 && IsInt64(now)
    ensures TtlToDeadline(amount, unitMs, now) ==
              if IsInt64(amount * unitMs) && IsInt64(now + amount * unitMs) then Some(now + amount * unitMs) else None
  {
    QuotientBound(amount, INT64_MAX, unitMs);
    QuotientBound(-amount, -INT64_MIN, unitMs);
    assert (-amount) * unitMs == -(amount * unitMs);
  }

  lemma DeadlineIsLater(amount: int, unitMs: int, now: int)
    requires 0 < amount <= INT64_MAX && unitMs > 0 && 0 < now <= INT64_MAX
    ensures var d := TtlToDeadline(amount, unitMs, now); d.Some? ==> now < d.value <= INT64_MAX
  {
    TtlToDeadlineExact(amount, unitMs, now);
    MulOrder(1, amount, unitMs);
  }

  // ----- Command by command

  ghost predicate Matches(o: Outcome, p: Plain, now: int) {
    && Consistent(o.store)
    && Live(o.store, now) == p.table
    && o.reply == p.reply
    && o.close == p.close
  }

  lemma PositiveDeadline(amount: int, unitMs: int, now: int)
    requires 0 < amount <= INT64_MAX && unitMs > 0 && 0 < now <= INT64_MAX
    ensures TtlToDeadline(amount, unitMs, now) ==
              if now + amount * unitMs > INT64_MAX then None else Some(now + amount * unitMs)
  {
    TtlToDeadlineExact(amount, unitMs, now);
    MulOrder(1, amount, unitMs);
    hide TtlToDeadline;
  }

  lemma SetRefines(s: Store, argv: seq<Bytes>, now: int)
    requires Consistent(s) && Dispatchable(argv) && ClockReading(now) && |argv| >= 3
    ensures Matches(RunSet(s, argv, now), PlainSet(Live(s, now), argv, now), now)
  {
    hide Consistent, TtlToDeadline;
    OptionsAreSound(argv, 3, NO_OPTIONS);
    var parsed := ReadSetOptions(argv, 3, NO_OPTIONS);
    if parsed.Accepted? {
      var o := parsed.opts;
      LookupRefines(s, argv[1], now);
      var s' := Lookup(s, argv[1], now).0;
      if o.hasTtl {
        DeadlineIsLater(o.amount, o.unitMs, now);
        PositiveDeadline(o.amount, o.unitMs, now);
      }
      var d := SetDeadline(o, now);
      if d.Some? {
        SetStringRefines(s', argv[1], argv[2], d.value, now);
      }
    }
  }

  lemma IncrRefines(s: Store, argv: seq<Bytes>, delta: int, now: int)
    requires Consistent(s) && |argv| == 2 && (delta == 1 || delta == -1)
    ensures Matches(RunIncrBy(s, argv, delta, now), PlainIncrBy(Live(s, now), argv[1], delta), now)
  {
    hide Consistent, FormatInt, ParseInt;
    var k := argv[1];
    LookupRefines(s, k, now);
    var (s', v) := Lookup(s, k, now);
    if v.None? {
      ParseFormat(delta);
      SetStringRefines(s', k, FormatInt(delta), NO_EXPIRY, now);
    } else {
      var cur := ParseInt(v.value.data);
      if cur.Some? {
        ParsedIsInt64(v.value.data);
        if IsInt64(cur.value + delta) {
          ParseFormat(cur.value + delta);
          WriteDataRefines(s', k, FormatInt(cur.value + delta), now);
        }
      }
    }
  }

  lemma ParsedIsInt64(s: Bytes)
    ensures ParseInt(s).Some? ==> IsInt64(ParseInt(s).value)
  {}

  lemma CountOneMore(keys: set<Bytes>, k: Bytes, later: set<Bytes>)
    ensures |keys * ({k} + later)| == |(keys - {k}) * later| + if k in keys then 1 else 0
  {
    var rest := (keys - {k}) * later;
    if k in keys {
      assert keys * ({k} + later) == {k} + rest;
    } else {
      assert keys * ({k} + later) == rest;
    }
  }

  lemma RemoveOneMore(m: Table, k: Bytes, later: set<Bytes>)
    ensures m - ({k} + later) == (m - {k}) - later
    ensures |m.Keys * ({k} + later)| == |(m - {k}).Keys * later| + if k in m then 1 else 0
  {
    CountOneMore(m.Keys, k, later);
    assert (m - {k}).Keys == m.Keys - {k};
  }

  lemma RemoveNone(m: Table)
    ensures m - {} == m && m.Keys * {} == {}
  {}

  lemma KeysFromStep(argv: seq<Bytes>, i: nat)
    requires i <= |argv|
    ensures KeysFrom(argv, i) == if i == |argv| then {} else {argv[i]} + KeysFrom(argv, i + 1)
  {}

  /** Deleting one by one removes the set of keys named and counts those that were live. */
  lemma {:induction false} DelRefines(s: Store, argv: seq<Bytes>, i: nat, now: int)
    requires Consistent(s) && i <= |argv|
    ensures var (s', n) := DeleteFrom(s, argv, i, now);
      && Consistent(s')
      && Live(s', now) == Live(s, now) - KeysFrom(argv, i)
      && n == |Live(s, now).Keys * KeysFrom(argv, i)|
    decreases |argv| - i
  {
    hide Consistent, Erase, Live, KeysFrom;
    KeysFromStep(argv, i);
    if i == |argv| {
      RemoveNone(Live(s, now));
    } else {
      EraseRefines(s, argv[i], now);
      DelRefines(Erase(s, argv[i], now).0, argv, i + 1, now);
      RemoveOneMore(Live(s, now), argv[i], KeysFrom(argv, i + 1));
    }
  }

  lemma {:induction false} ExistsRefines(s: Store, argv: seq<Bytes>, i: nat, now: int)
    requires Consistent(s) && i <= |argv|
    ensures var (s', n) := CountFrom(s, argv, i, now);
      Consistent(s') && Live(s', now) == Live(s, now) && n == Occurrences(Live(s, now), argv[i..])
    decreases |argv| - i
  {
    if i < |argv| {
      LookupRefines(s, argv[i], now);
      ExistsRefines(Lookup(s, argv[i], now).0, argv, i + 1, now);
      assert argv[i..][1..] == argv[i + 1..];
    }
  }

  lemma ExpireRefines(s: Store, argv: seq<Bytes>, now: int)
    requires Consistent(s) && ClockReading(now) && |argv| == 3
    ensures Matches(RunExpire(s, argv, now), PlainExpire(Live(s, now), argv, now), now)
  {
    hide Consistent, TtlToDeadline, ParseInt, Erase, SetExpireAt;
    var k := argv[1];
    var n := ParseInt(argv[2]);
    if n.Some? {
      ParsedIsInt64(argv[2]);
      LookupRefines(s, k, now);
      EraseRefines(s, k, now);
      if n.value > 0 {
        TtlToDeadlineExact(n.value, 1000, now);
        DeadlineIsLater(n.value, 1000, now);
        var d := TtlToDeadline(n.value, 1000, now);
        if d.Some? {
          SetExpireAtRefines(s, k, d.value, now);
        }
      }
    }
  }

  lemma TtlRefines(s: Store, argv: seq<Bytes>, now: int)
    requires Consistent(s) && |argv| == 2
    ensures var o := RunTtl(s, argv, now);
      && Consistent(o.store) && Live(o.store, now) == Live(s, now)
      && o.reply == Integer(PlainTtl(Live(s, now), argv[1], now)) && !o.close
  {
    PttlRefines(s, argv[1], now);
  }

  lemma SmallWords(word: Bytes)
    ensures ToLower(word) == Ascii("count") <==> CommandSyntax.Spells(word, COUNT)
    ensures ToLower(word) == Ascii("async") <==> CommandSyntax.Spells(word, ASYNC)
    ensures ToLower(word) == Ascii("sync") <==> CommandSyntax.Spells(word, SYNC)
  {
    hide Ascii, ToLower, CommandSyntax.Spells;
    CommandSyntax.AsciiIs("count", COUNT);
    CommandSyntax.AsciiIs("async", ASYNC);
    CommandSyntax.AsciiIs("sync", SYNC);
    CommandSyntax.SpellsExactly(word, COUNT);
    CommandSyntax.SpellsExactly(word, ASYNC);
    CommandSyntax.SpellsExactly(word, SYNC);
  }

  /** FLUSHALL empties both tables, counting nothing as expired, or is refused and leaves them alone. */
  lemma FlushAllIsExact(s: Store, argv: seq<Bytes>)
    requires |argv| >= 1
    ensures RunFlushAll(s, argv) ==
              if Flushes(argv) then Outcome(Store(map[], {}, s.expired), Simple([79, 75]), false)
              else Outcome(s, Error(SYNTAX), false)
  {
    hide Ascii, ToLower, CommandSyntax.Spells;
    CommandSyntax.AsciiIs("OK", [79, 75]);
    if |argv| == 2 {
      SmallWords(argv[1]);
    }
  }

  lemma FlushAllRefines(s: Store, argv: seq<Bytes>, now: int)
    requires Consistent(s) && |argv| >= 1
    ensures Matches(RunFlushAll(s, argv), PlainRun(OpFlushAll, Live(s, now), argv, now), now)
  {
    hide RunFlushAll, Flushes;
    FlushAllIsExact(s, argv);
  }

  lemma PingRefines(s: Store, argv: seq<Bytes>, now: int)
    requires Consistent(s) && |argv| >= 1
    ensures Matches(RunPing(s, argv), PlainRun(OpPing, Live(s, now), argv, now), now)
  {
    hide Ascii, Consistent, LiveIn;
    CommandSyntax.AsciiIs("PONG", [80, 79, 78, 71]);
    PingText();
  }

  lemma PingText()
    ensures WrongArity(Ascii("ping")) == Ascii("ERR wrong number of arguments for 'ping' command")
  {
    var a, b, c := Ascii("ERR wrong number of arguments for '"), Ascii("ping"), Ascii("' command");
    var whole := Ascii("ERR wrong number of arguments for 'ping' command");
    assert |a| == 35 && |b| == 4 && |c| == 9 && |whole| == 48;
    assert whole[..35] == a && whole[35..39] == b && whole[39..] == c;
  }

  lemma CommandRefines(s: Store, argv: seq<Bytes>, now: int)
    requires Consistent(s) && |argv| >= 1
    ensures Matches(RunCommand(s, argv), PlainRun(OpCommand, Live(s, now), argv, now), now)
  {
    hide Ascii, ToLower, CommandSyntax.Spells, Consistent, LiveIn;
    CommandSyntax.TableIsComplete(OpCommand);
    if |argv| >= 2 {
      SmallWords(argv[1]);
    }
  }

  lemma QuitText()
    ensures Ascii("OK") == [79, 75]
  {}

  /** DBSIZE itself, not a malformed one. */
  predicate AsksSize(argv: seq<Bytes>) {
    argv != [] && Find(argv[0]) == Some(OpDbSize) && ArityOk(OpDbSize, |argv|)
  }

  /** Every command but DBSIZE, as the plain table answers it; DBSIZE changes nothing and counts the entries. */
  lemma RunRefines(op: Op, s: Store, argv: seq<Bytes>, now: int)
    requires Consistent(s) && Dispatchable(argv) && ClockReading(now) && ArityOk(op, |argv|)
    ensures op != OpDbSize ==> Matches(Run(op, s, argv, now), PlainRun(op, Live(s, now), argv, now), now)
    ensures op == OpDbSize ==> Run(op, s, argv, now) == Outcome(s, Integer(ToInt64(|s.entries|)), false)
  {
    hide PlainSet, RunSet, RunIncrBy, PlainIncrBy, RunExpire, PlainExpire, DeleteFrom, CountFrom, RunTtl, PlainTtl;
    hide RunPing, RunFlushAll, RunCommand, Flushes, CommandSyntax.Spells, Ascii;
    match op {
      case OpPing => PingRefines(s, argv, now);
      case OpFlushAll => FlushAllRefines(s, argv, now);
      case OpCommand => CommandRefines(s, argv, now);
      case OpQuit => QuitText();
      case OpSet => SetRefines(s, argv, now);
      case OpIncr => IncrRefines(s, argv, 1, now);
      case OpDecr => IncrRefines(s, argv, -1, now);
      case OpDel => DelRefines(s, argv, 1, now);
      case OpExists => ExistsRefines(s, argv, 1, now);
      case OpExpire => ExpireRefines(s, argv, now);
      case OpTtl => TtlRefines(s, argv, now);
      case OpPersist => PersistRefines(s, argv[1], now);
      case OpGet => LookupRefines(s, argv[1], now);
      case OpType => LookupRefines(s, argv[1], now);
      case _ =>
    }
  }

  lemma DispatchRefines(s: Store, argv: seq<Bytes>, now: int)
    requires Consistent(s) && Dispatchable(argv) && ClockReading(now)
    ensures !AsksSize(argv) ==> Matches(Dispatch(s, argv, now), PlainDispatch(Live(s, now), argv, now), now)
    ensures AsksSize(argv) ==> Dispatch(s, argv, now) == Outcome(s, Integer(ToInt64(|s.entries|)), false)
  {
    hide Run, PlainRun, Find;
    var op := Find(argv[0]);
    if op.Some? && ArityOk(op.value, |argv|) {
      RunRefines(op.value, s, argv, now);
    }
  }

  /** The number of entries is the number of live keys if and only if no entry is dead. */
  lemma SizeIsExact(s: Store, now: int)
    ensures |Live(s, now)| <= |s.entries|
    ensures |s.entries| == |Live(s, now)| <==> forall k :: k in s.entries ==> !s.entries[k].IsExpired(now)
  {
    var dead := set k | k in s.entries && s.entries[k].IsExpired(now);
    assert s.entries.Keys == Live(s, now).Keys + dead;
    assert |s.entries.Keys| == |Live(s, now).Keys| + |dead|;
    if dead == {} {
      forall k | k in s.entries ensures !s.entries[k].IsExpired(now) {
        assert k !in dead;
      }
    } else {
      var k :| k in dead;
      assert s.entries[k].IsExpired(now);
      assert |dead| > 0;
    }
  }

  /** DBSIZE replies as the plain table does if and only if no entry is dead. */
  lemma DbSizeRefines(s: Store, argv: seq<Bytes>, now: int)
    requires AsksSize(argv) && |s.entries| <= INT64_MAX
    ensures Dispatch(s, argv, now).reply == PlainDispatch(Live(s, now), argv, now).reply <==>
              forall k :: k in s.entries ==> !s.entries[k].IsExpired(now)
  {
    hide Find, LiveIn;
    SizeIsExact(s, now);
  }
}

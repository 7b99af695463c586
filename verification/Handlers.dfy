/** The command handlers: they mutate the database and append one reply to the output buffer. */
module Handlers {
  import opened Octets
  import opened IntCodec
  import opened Buffers
  import opened Keyspace
  import opened Database
  import opened Commands
  import opened Replies
  import Writer

  /** What every caller of a handler establishes. */
  ghost predicate Ready(argv: seq<Bytes>, out: Buffer, db: Db, now: int)
    reads out, db
  {
    out.Valid() && Consistent(db.State()) && Dispatchable(argv) && ClockReading(now)
  }

  /** The database is in the state of the outcome, and its one reply is at the end of the output. */
  twostate predicate Answered(out: Buffer, db: Db, o: Outcome)
    reads out, out.data, db
  {
    && old(out.Valid()) && Writer.Kept(out)
    && db.State() == o.store
    && out.Contents() == old(out.Contents()) + Encode(o.reply)
  }

  method LowerAscii(s: Bytes) returns (r: Bytes)
    ensures r == ToLower(s)
  {
    r := s;
    var i := 0;
    while i < |r|
      invariant |r| == |s| && 0 <= i <= |s|
      invariant r == ToLower(s)[..i] + s[i..]
    {
      if 65 <= r[i] <= 90 {
        r := r[i := r[i] - 65 + 97];
      }
      i := i + 1;
    }
  }

  // ----- String commands

  method ReadOptions(argv: seq<Bytes>) returns (r: ParsedOptions)
    ensures r == ReadSetOptions(argv, 3, NO_OPTIONS)
  {
    var o := NO_OPTIONS;
    var i := 3;
    while i < |argv|
      invariant 3 <= i
      invariant ReadSetOptions(argv, 3, NO_OPTIONS) == ReadSetOptions(argv, i, o)
      decreases |argv| - i
    {
      var opt := LowerAscii(argv[i]);
      if opt == Ascii("nx") && !o.xx && !o.nx {
        o := o.(nx := true);
      } else if opt == Ascii("xx") && !o.nx && !o.xx {
        o := o.(xx := true);
      } else if (opt == Ascii("ex") || opt == Ascii("px")) && !o.hasTtl && i + 1 < |argv| {
        var amount := StringToInt64(argv[i + 1]);
        if amount.None? {
          return Refused(NOT_INTEGER);
        }
        if amount.value <= 0 {
          return Refused(BAD_SET_EXPIRE);
        }
        o := o.(hasTtl := true, unitMs := if opt == Ascii("ex") then 1000 else 1, amount := amount.value as int);
        i := i + 1;
      } else {
        return Refused(SYNTAX);
      }
      i := i + 1;
    }
    r := Accepted(o);
  }

  method CmdSet(argv: seq<Bytes>, out: Buffer, db: Db, now: int)
    requires Ready(argv, out, db, now) && |argv| >= 3
    modifies out, out.data, db
    ensures Answered(out, db, RunSet(old(db.State()), argv, now))
  {
    hide ReadSetOptions, TtlToDeadline, Consistent;
    var parsed := ReadOptions(argv);
    OptionsAreSound(argv, 3, NO_OPTIONS);
    if parsed.Refused? {
      Writer.Error(out, parsed.error);
      return;
    }
    var o := parsed.opts;
    var found := db.Find(argv[1], now);
    var present := found.Some?;
    if (o.nx && present) || (o.xx && !present) {
      Writer.NullBulk(out);
      return;
    }
    var deadline := Some(NO_EXPIRY);
    if o.hasTtl {
      deadline := TtlToDeadline(o.amount, o.unitMs, now);
      if deadline.None? {
        Writer.Error(out, BAD_SET_EXPIRE);
        return;
      }
    }
    db.Put(argv[1], argv[2], deadline.value);
    Writer.Simple(out, Ascii("OK"));
  }

  method CmdGet(argv: seq<Bytes>, out: Buffer, db: Db, now: int)
    requires Ready(argv, out, db, now) && |argv| == 2
    modifies out, out.data, db
    ensures Answered(out, db, RunGet(old(db.State()), argv, now))
  {
    var v := db.Find(argv[1], now);
    if v.None? {
      Writer.NullBulk(out);
      return;
    }
    Writer.Bulk(out, v.value.data);
  }

  method IncrBy(argv: seq<Bytes>, delta: int64, out: Buffer, db: Db, now: int)
    requires Ready(argv, out, db, now) && |argv| == 2 && (delta == 1 || delta == -1)
    modifies out, out.data, db
    ensures Answered(out, db, RunIncrBy(old(db.State()), argv, delta as int, now))
  {
    hide FormatInt, ParseInt, Consistent;
    var v := db.Find(argv[1], now);
    if v.None? {
      db.Put(argv[1], FormatInt(delta as int), NO_EXPIRY);
      Writer.Integer(out, delta);
      return;
    }
    var cur := StringToInt64(v.value.data);
    if cur.None? {
      Writer.Error(out, NOT_INTEGER);
      return;
    }
    if (if delta > 0 then cur.value > 0x7fff_ffff_ffff_ffff - delta else cur.value < -0x8000_0000_0000_0000 - delta) {
      Writer.Error(out, OVERFLOW);
      return;
    }
    var next := cur.value + delta;
    db.Overwrite(argv[1], FormatInt(next as int));
    Writer.Integer(out, next);
  }

  // ----- Keyspace commands

  /** The loop of DEL. */
  method DeleteKeys(argv: seq<Bytes>, db: Db, now: int) returns (deleted: int64)
    requires 1 <= |argv| <= 0x7fff_ffff
    modifies db
    ensures deleted >= 0
    ensures DeleteFrom(old(db.State()), argv, 1, now) == (db.State(), deleted as int)
  {
    hide Erase;
    deleted := 0;
    var i := 1;
    while i < |argv|
      invariant 1 <= i <= |argv| && 0 <= deleted as int < i
      invariant var (s, n) := DeleteFrom(db.State(), argv, i, now);
        DeleteFrom(old(db.State()), argv, 1, now) == (s, n + deleted as int)
    {
      var found := db.Remove(argv[i], now);
      if found {
        deleted := deleted + 1;
      }
      i := i + 1;
    }
  }

  method CmdDel(argv: seq<Bytes>, out: Buffer, db: Db, now: int)
    requires Ready(argv, out, db, now)
    modifies out, out.data, db
    ensures Answered(out, db, RunDel(old(db.State()), argv, now))
  {
    hide Consistent, DeleteFrom;
    var deleted := DeleteKeys(argv, db, now);
    Writer.Integer(out, deleted);
  }

  /** The loop of EXISTS. */
  method CountKeys(argv: seq<Bytes>, db: Db, now: int) returns (found: int64)
    requires 1 <= |argv| <= 0x7fff_ffff
    modifies db
    ensures found >= 0
    ensures CountFrom(old(db.State()), argv, 1, now) == (db.State(), found as int)
  {
    hide Lookup;
    found := 0;
    var i := 1;
    while i < |argv|
      invariant 1 <= i <= |argv| && 0 <= found as int < i
      invariant var (s, n) := CountFrom(db.State(), argv, i, now);
        CountFrom(old(db.State()), argv, 1, now) == (s, n + found as int)
    {
      var v := db.Find(argv[i], now);
      if v.Some? {
        found := found + 1;
      }
      i := i + 1;
    }
  }

  method CmdExists(argv: seq<Bytes>, out: Buffer, db: Db, now: int)
    requires Ready(argv, out, db, now)
    modifies out, out.data, db
    ensures Answered(out, db, RunExists(old(db.State()), argv, now))
  {
    hide Consistent, CountFrom;
    var found := CountKeys(argv, db, now);
    Writer.Integer(out, found);
  }

  method CmdType(argv: seq<Bytes>, out: Buffer, db: Db, now: int)
    requires Ready(argv, out, db, now) && |argv| == 2
    modifies out, out.data, db
    ensures Answered(out, db, RunType(old(db.State()), argv, now))
  {
    var v := db.Find(argv[1], now);
    Writer.Simple(out, if v.None? then Ascii("none") else Ascii("string"));
  }

  method CmdExpire(argv: seq<Bytes>, out: Buffer, db: Db, now: int)
    requires Ready(argv, out, db, now) && |argv| == 3
    modifies out, out.data, db
    ensures Answered(out, db, RunExpire(old(db.State()), argv, now))
  {
    hide Consistent, ParseInt, TtlToDeadline, Lookup, Erase, SetExpireAt;
    var seconds := StringToInt64(argv[2]);
    if seconds.None? {
      Writer.Error(out, NOT_INTEGER);
      return;
    }
    var v := db.Find(argv[1], now);
    if v.None? {
      Writer.Integer(out, 0);
      return;
    }
    if seconds.value <= 0 {
      var _ := db.Remove(argv[1], now);
      Writer.Integer(out, 1);
      return;
    }
    var deadline := TtlToDeadline(seconds.value as int, 1000, now);
    if deadline.None? {
      Writer.Error(out, BAD_EXPIRE);
      return;
    }
    var _ := db.ExpireAt(argv[1], deadline.value, now);
    Writer.Integer(out, 1);
  }

  method CmdTtl(argv: seq<Bytes>, out: Buffer, db: Db, now: int)
    requires Ready(argv, out, db, now) && |argv| == 2 && RoundingFits(db.State(), argv[1], now)
    modifies out, out.data, db
    ensures Answered(out, db, RunTtl(old(db.State()), argv, now))
  {
    RemainingIsInt64(db.State(), argv[1], now);
    hide Consistent, Pttl;
    var remaining := db.RemainingMs(argv[1], now);
    var ms := remaining as int64;
    if ms < 0 {
      Writer.Integer(out, ms);
      return;
    }
    Writer.Integer(out, (ms + 500) / 1000);
  }

  lemma RemainingIsInt64(s: Store, k: Bytes, now: int)
    requires Consistent(s) && ClockReading(now)
    ensures -2 <= Pttl(s, k, now).1 <= INT64_MAX
  {
    PttlRefines(s, k, now);
  }

  /** Rounding overflows only for a live deadline almost 2^63 ms away, so never once the clock is past half a second. */
  lemma PttlFits(s: Store, k: Bytes, now: int)
    requires Consistent(s) && ClockReading(now)
    ensures RoundingFits(s, k, now) <==>
              !(k in Live(s, now) && Live(s, now)[k].HasExpiry() && Live(s, now)[k].expireAt - now > INT64_MAX - 500)
    ensures PastHalfSecond(now) ==> RoundingFits(s, k, now)
  {
    PttlRefines(s, k, now);
  }

  /** At 499 ms it does overflow for the last deadline there is. */
  lemma EarlyRoundingOverflows(k: Bytes, data: Bytes)
    requires |data| <= INT64_MAX
    ensures var s := Store(map[k := Value(data, INT64_MAX)], {k}, 0);
      Consistent(s) && ClockReading(499) && !RoundingFits(s, k, 499)
  {
    var s := Store(map[k := Value(data, INT64_MAX)], {k}, 0);
    assert s.entries[k].HasExpiry();
    assert Pttl(s, k, 499).1 == INT64_MAX - 499;
  }

  method CmdPersist(argv: seq<Bytes>, out: Buffer, db: Db, now: int)
    requires Ready(argv, out, db, now) && |argv| == 2
    modifies out, out.data, db
    ensures Answered(out, db, RunPersist(old(db.State()), argv, now))
  {
    var cleared := db.ClearDeadline(argv[1], now);
    Writer.Integer(out, if cleared then 1 else 0);
  }

  // ----- Connection and server commands

  method CmdPing(argv: seq<Bytes>, out: Buffer, db: Db, now: int)
    requires Ready(argv, out, db, now)
    modifies out, out.data
    ensures Answered(out, db, RunPing(old(db.State()), argv))
  {
    if |argv| == 1 {
      Writer.Simple(out, Ascii("PONG"));
    } else if |argv| == 2 {
      Writer.Bulk(out, argv[1]);
    } else {
      Writer.Error(out, WrongArity(Ascii("ping")));
    }
  }

  method CmdFlushAll(argv: seq<Bytes>, out: Buffer, db: Db, now: int)
    requires Ready(argv, out, db, now)
    modifies out, out.data, db
    ensures Answered(out, db, RunFlushAll(old(db.State()), argv))
  {
    if |argv| > 2 {
      Writer.Error(out, SYNTAX);
      return;
    }
    if |argv| == 2 {
      var opt := LowerAscii(argv[1]);
      if opt != Ascii("async") && opt != Ascii("sync") {
        Writer.Error(out, SYNTAX);
        return;
      }
    }
    db.Clear();
    Writer.Simple(out, Ascii("OK"));
  }

  method CmdCommand(argv: seq<Bytes>, out: Buffer, db: Db, now: int)
    requires Ready(argv, out, db, now)
    modifies out, out.data
    ensures Answered(out, db, RunCommand(old(db.State()), argv))
  {
    if |argv| >= 2 {
      var opt := LowerAscii(argv[1]);
      if opt == Ascii("count") {
        Writer.Integer(out, |TABLE| as int64);
        return;
      }
    }
    Writer.Array(out, 0);
  }

  // ----- Dispatch

  method UnknownText(argv: seq<Bytes>) returns (msg: Bytes)
    requires argv != []
    ensures msg == UnknownCommand(argv)
  {
    msg := Ascii("ERR unknown command '") + argv[0] + Ascii("', with args beginning with: ");
    var i := 1;
    while i < |argv| && i <= ECHOED_ARGS
      invariant 1 <= i
      invariant UnknownCommand(argv) == msg + EchoedArgs(argv, i)
    {
      var piece := Ascii("'") + Truncated(argv[i]) + Ascii("', ");
      Assoc3(msg, piece, EchoedArgs(argv, i + 1));
      msg := msg + piece;
      i := i + 1;
    }
    assert msg + [] == msg;
  }

  method RunHandler(op: Op, argv: seq<Bytes>, out: Buffer, db: Db, now: int)
    requires Ready(argv, out, db, now) && ArityOk(op, |argv|)
    requires op == OpTtl ==> RoundingFits(db.State(), argv[1], now)
    modifies out, out.data, db
    ensures Answered(out, db, Run(op, old(db.State()), argv, now))
  {
    hide Consistent, RoundingFits, RunSet, RunGet, RunIncrBy, RunDel, RunExists, RunType, RunExpire, RunTtl, RunPersist,
         RunPing, RunFlushAll, RunCommand;
    match op {
      case OpPing => CmdPing(argv, out, db, now);
      case OpEcho => Writer.Bulk(out, argv[1]);
      case OpQuit => Writer.Simple(out, Ascii("OK"));
      case OpSet => CmdSet(argv, out, db, now);
      case OpGet => CmdGet(argv, out, db, now);
      case OpIncr => IncrBy(argv, 1, out, db, now);
      case OpDecr => IncrBy(argv, -1, out, db, now);
      case OpDel => CmdDel(argv, out, db, now);
      case OpExists => CmdExists(argv, out, db, now);
      case OpType => CmdType(argv, out, db, now);
      case OpExpire => CmdExpire(argv, out, db, now);
      case OpTtl => CmdTtl(argv, out, db, now);
      case OpPersist => CmdPersist(argv, out, db, now);
      case OpDbSize => Writer.Integer(out, ToInt64(|db.entries|) as int64);
      case OpFlushAll => CmdFlushAll(argv, out, db, now);
      case OpCommand => CmdCommand(argv, out, db, now);
    }
  }

  /** Looks the command up, checks its arity and runs it. */
  method DispatchCommand(argv: seq<Bytes>, out: Buffer, db: Db, now: int) returns (closeAfterReply: bool)
    requires Ready(argv, out, db, now)
    requires Find(argv[0]) == Some(OpTtl) && |argv| == 2 ==> RoundingFits(db.State(), argv[1], now)
    modifies out, out.data, db
    ensures Answered(out, db, Dispatch(old(db.State()), argv, now))
    ensures closeAfterReply == Dispatch(old(db.State()), argv, now).close
  {
    hide Consistent, RoundingFits, Run, UnknownCommand, WrongArity;
    var name := LowerAscii(argv[0]);
    var cmd := FindIn(TABLE, name);
    if cmd.None? {
      var msg := UnknownText(argv);
      Writer.Error(out, msg);
      return false;
    }
    var op := cmd.value;
    if !ArityOk(op, |argv|) {
      Writer.Error(out, WrongArity(NameOf(op)));
      return false;
    }
    QuitCloses(op, db.State(), argv, now);
    RunHandler(op, argv, out, db, now);
    closeAfterReply := op == OpQuit;
  }

  lemma QuitCloses(op: Op, s: Store, argv: seq<Bytes>, now: int)
    requires ArityOk(op, |argv|)
    ensures Run(op, s, argv, now).close == (op == OpQuit)
  {}
}

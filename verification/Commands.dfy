/**
 The commands as functions of the keyspace, the argument vector and one clock
 reading: the new keyspace, exactly one reply, and whether the connection closes.
 */
module Commands {
  import opened Octets
  import opened IntCodec
  import opened Keyspace
  import opened Replies

  datatype Outcome = Outcome(store: Store, reply: Reply, close: bool)

  // ----- The command table

  datatype Op =
    | OpPing | OpEcho | OpQuit
    | OpSet | OpGet | OpIncr | OpDecr
    | OpDel | OpExists | OpType | OpExpire | OpTtl | OpPersist
    | OpDbSize | OpFlushAll | OpCommand

  const TABLE: seq<Op> := [
    OpPing, OpEcho, OpQuit,
    OpSet, OpGet, OpIncr, OpDecr,
    OpDel, OpExists, OpType, OpExpire, OpTtl, OpPersist,
    OpDbSize, OpFlushAll, OpCommand]

  function NameOf(op: Op): Bytes {
    match op
    case OpPing => Ascii("ping")
    case OpEcho => Ascii("echo")
    case OpQuit => Ascii("quit")
    case OpSet => Ascii("set")
    case OpGet => Ascii("get")
    case OpIncr => Ascii("incr")
    case OpDecr => Ascii("decr")
    case OpDel => Ascii("del")
    case OpExists => Ascii("exists")
    case OpType => Ascii("type")
    case OpExpire => Ascii("expire")
    case OpTtl => Ascii("ttl")
    case OpPersist => Ascii("persist")
    case OpDbSize => Ascii("dbsize")
    case OpFlushAll => Ascii("flushall")
    case OpCommand => Ascii("command")
  }

  /** Positive: the exact number of arguments, name included; negative: the least number. */
  function ArityOf(op: Op): int {
    match op
    case OpPing => -1
    case OpEcho => 2
    case OpQuit => 1
    case OpSet => -3
    case OpGet => 2
    case OpIncr => 2
    case OpDecr => 2
    case OpDel => -2
    case OpExists => -2
    case OpType => 2
    case OpExpire => 3
    case OpTtl => 2
    case OpPersist => 2
    case OpDbSize => 1
    case OpFlushAll => -1
    case OpCommand => -1
  }

  predicate ArityOk(op: Op, argc: int) {
    if ArityOf(op) >= 0 then argc == ArityOf(op) else argc >= -ArityOf(op)
  }

  function ToLower(s: Bytes): (r: Bytes)
    ensures |r| == |s|
  {
    seq(|s|, i requires 0 <= i < |s| => if 65 <= s[i] <= 90 then s[i] - 65 + 97 else s[i])
  }

  function FindIn(table: seq<Op>, name: Bytes): Option<Op> {
    if table == [] then None
    else if NameOf(table[0]) == name then Some(table[0])
    else FindIn(table[1..], name)
  }

  function Find(name: Bytes): Option<Op> {
    FindIn(TABLE, ToLower(name))
  }

  // ----- Error texts

  const NOT_INTEGER: Bytes := Ascii("ERR value is not an integer or out of range")
  const SYNTAX: Bytes := Ascii("ERR syntax error")
  const BAD_SET_EXPIRE: Bytes := Ascii("ERR invalid expire time in 'set' command")
  const BAD_EXPIRE: Bytes := Ascii("ERR invalid expire time in 'expire' command")
  const OVERFLOW: Bytes := Ascii("ERR increment or decrement would overflow")

  function WrongArity(name: Bytes): Bytes {
    Ascii("ERR wrong number of arguments for '") + name + Ascii("' command")
  }

  const ECHOED_ARGS: nat := 3
  const ECHOED_BYTES: nat := 32

  function Truncated(a: Bytes): Bytes {
    if |a| <= ECHOED_BYTES then a else a[..ECHOED_BYTES]
  }

  /** The quoted arguments of an unknown command, from index `i` to at most the third. */
  function EchoedArgs(argv: seq<Bytes>, i: nat): Bytes
    decreases |argv| - i
  {
    if i >= |argv| || i > ECHOED_ARGS then []
    else Ascii("'") + Truncated(argv[i]) + Ascii("', ") + EchoedArgs(argv, i + 1)
  }

  function UnknownCommand(argv: seq<Bytes>): Bytes
    requires argv != []
  {
    Ascii("ERR unknown command '") + argv[0] + Ascii("', with args beginning with: ") + EchoedArgs(argv, 1)
  }

  // ----- Deadlines

  /** C++ integer division by a positive number: toward zero. */
  function TruncDiv(a: int, b: int): int
    requires b > 0
  {
    if a >= 0 then a / b else -((-a) / b)
  }

  /** Each test guards the arithmetic after it, so that nothing leaves int64_t. */
  function TtlToDeadline(amount: int, unitMs: int, now: int): Option<int>
    requires unitMs > 0
  {
    if amount > TruncDiv(INT64_MAX, unitMs) || amount < TruncDiv(INT64_MIN, unitMs) then None
    else
      var delta := amount * unitMs;
      if delta > 0 && now > INT64_MAX - delta then None
      else if delta < 0 && now < INT64_MIN - delta then None
      else Some(now + delta)
  }

  // ----- String commands

  datatype SetOptions = SetOptions(nx: bool, xx: bool, hasTtl: bool, unitMs: int, amount: int)

  datatype ParsedOptions = Accepted(opts: SetOptions) | Refused(error: Bytes)

  function ReadSetOptions(argv: seq<Bytes>, i: nat, o: SetOptions): ParsedOptions
    decreases |argv| - i
  {
    if i >= |argv| then Accepted(o)
    else
      var opt := ToLower(argv[i]);
      if opt == Ascii("nx") && !o.xx && !o.nx then ReadSetOptions(argv, i + 1, o.(nx := true))
      else if opt == Ascii("xx") && !o.nx && !o.xx then ReadSetOptions(argv, i + 1, o.(xx := true))
      else if (opt == Ascii("ex") || opt == Ascii("px")) && !o.hasTtl && i + 1 < |argv| then
        match ParseInt(argv[i + 1])
        case None => Refused(NOT_INTEGER)
        case Some(amount) =>
          if amount <= 0 then Refused(BAD_SET_EXPIRE)
          else
            var unit := if opt == Ascii("ex") then 1000 else 1;
            ReadSetOptions(argv, i + 2, o.(hasTtl := true, unitMs := unit, amount := amount))
      else Refused(SYNTAX)
  }

  const NO_OPTIONS: SetOptions := SetOptions(false, false, false, 0, 0)

  predicate SoundOptions(o: SetOptions) {
    o.hasTtl ==> (o.unitMs == 1 || o.unitMs == 1000) && 0 < o.amount <= INT64_MAX
  }

  lemma {:induction false} OptionsAreSound(argv: seq<Bytes>, i: nat, o: SetOptions)
    requires SoundOptions(o)
    ensures ReadSetOptions(argv, i, o).Accepted? ==> SoundOptions(ReadSetOptions(argv, i, o).opts)
    decreases |argv| - i
  {
    if i < |argv| {
      var opt := ToLower(argv[i]);
      if opt == Ascii("nx") && !o.xx && !o.nx {
        OptionsAreSound(argv, i + 1, o.(nx := true));
      } else if opt == Ascii("xx") && !o.nx && !o.xx {
        OptionsAreSound(argv, i + 1, o.(xx := true));
      } else if (opt == Ascii("ex") || opt == Ascii("px")) && !o.hasTtl && i + 1 < |argv| {
        var n := ParseInt(argv[i + 1]);
        if n.Some? && n.value > 0 {
          var unit := if opt == Ascii("ex") then 1000 else 1;
          OptionsAreSound(argv, i + 2, o.(hasTtl := true, unitMs := unit, amount := n.value));
        }
      }
    }
  }

  /** The deadline an accepted option list asks for; NO_EXPIRY without a TTL. */
  function SetDeadline(o: SetOptions, now: int): Option<int>
    requires SoundOptions(o)
  {
    if o.hasTtl then TtlToDeadline(o.amount, o.unitMs, now) else Some(NO_EXPIRY)
  }

  function RunSet(s: Store, argv: seq<Bytes>, now: int): Outcome
    requires |argv| >= 3
  {
    OptionsAreSound(argv, 3, NO_OPTIONS);
    match ReadSetOptions(argv, 3, NO_OPTIONS)
    case Refused(error) => Outcome(s, Error(error), false)
    case Accepted(o) =>
      var (s', v) := Lookup(s, argv[1], now);
      if (o.nx && v.Some?) || (o.xx && v.None?) then Outcome(s', NullBulk, false)
      else match SetDeadline(o, now)
           case None => Outcome(s', Error(BAD_SET_EXPIRE), false)
           case Some(deadline) => Outcome(SetString(s', argv[1], argv[2], deadline), Simple(Ascii("OK")), false)
  }

  function RunGet(s: Store, argv: seq<Bytes>, now: int): Outcome
    requires |argv| == 2
  {
    var (s', v) := Lookup(s, argv[1], now);
    Outcome(s', if v.None? then NullBulk else Bulk(v.value.data), false)
  }

  function RunIncrBy(s: Store, argv: seq<Bytes>, delta: int, now: int): Outcome
    requires |argv| == 2
  {
    var (s', v) := Lookup(s, argv[1], now);
    if v.None? then Outcome(SetString(s', argv[1], FormatInt(delta), NO_EXPIRY), Integer(delta), false)
    else match ParseInt(v.value.data)
         case None => Outcome(s', Error(NOT_INTEGER), false)
         case Some(cur) =>
           if (if delta > 0 then cur > INT64_MAX - delta else cur < INT64_MIN - delta) then
             Outcome(s', Error(OVERFLOW), false)
           else Outcome(WriteData(s', argv[1], FormatInt(cur + delta)), Integer(cur + delta), false)
  }

  // ----- Keyspace commands

  function DeleteFrom(s: Store, argv: seq<Bytes>, i: nat, now: int): (r: (Store, nat))
    ensures r.1 <= if i < |argv| then |argv| - i else 0
    decreases |argv| - i
  {
    if i >= |argv| then (s, 0)
    else
      var (s', found) := Erase(s, argv[i], now);
      var (s'', n) := DeleteFrom(s', argv, i + 1, now);
      (s'', n + if found then 1 else 0)
  }

  function CountFrom(s: Store, argv: seq<Bytes>, i: nat, now: int): (r: (Store, nat))
    ensures r.1 <= if i < |argv| then |argv| - i else 0
    decreases |argv| - i
  {
    if i >= |argv| then (s, 0)
    else
      var (s', v) := Lookup(s, argv[i], now);
      var (s'', n) := CountFrom(s', argv, i + 1, now);
      (s'', n + if v.Some? then 1 else 0)
  }

  function RunDel(s: Store, argv: seq<Bytes>, now: int): Outcome {
    var (s', n) := DeleteFrom(s, argv, 1, now);
    Outcome(s', Integer(n), false)
  }

  function RunExists(s: Store, argv: seq<Bytes>, now: int): Outcome {
    var (s', n) := CountFrom(s, argv, 1, now);
    Outcome(s', Integer(n), false)
  }

  function RunType(s: Store, argv: seq<Bytes>, now: int): Outcome
    requires |argv| == 2
  {
    var (s', v) := Lookup(s, argv[1], now);
    Outcome(s', Simple(if v.None? then Ascii("none") else Ascii("string")), false)
  }

  function RunExpire(s: Store, argv: seq<Bytes>, now: int): Outcome
    requires |argv| == 3
  {
    match ParseInt(argv[2])
    case None => Outcome(s, Error(NOT_INTEGER), false)
    case Some(seconds) =>
      var (s', v) := Lookup(s, argv[1], now);
      if v.None? then Outcome(s', Integer(0), false)
      else if seconds <= 0 then Outcome(Erase(s', argv[1], now).0, Integer(1), false)
      else match TtlToDeadline(seconds, 1000, now)
           case None => Outcome(s', Error(BAD_EXPIRE), false)
           case Some(deadline) => Outcome(SetExpireAt(s', argv[1], deadline, now).0, Integer(1), false)
  }

  function RoundedSeconds(ms: int): int {
    if ms < 0 then ms else (ms + 500) / 1000
  }

  function RunTtl(s: Store, argv: seq<Bytes>, now: int): Outcome
    requires |argv| == 2
  {
    var (s', ms) := Pttl(s, argv[1], now);
    Outcome(s', Integer(RoundedSeconds(ms)), false)
  }

  function RunPersist(s: Store, argv: seq<Bytes>, now: int): Outcome
    requires |argv| == 2
  {
    var (s', cleared) := Persist(s, argv[1], now);
    Outcome(s', Integer(if cleared then 1 else 0), false)
  }

  // ----- Connection and server commands

  function RunPing(s: Store, argv: seq<Bytes>): Outcome {
    Outcome(s,
            if |argv| == 1 then Simple(Ascii("PONG"))
            else if |argv| == 2 then Bulk(argv[1])
            else Error(WrongArity(Ascii("ping"))),
            false)
  }

  /** static_cast<int64_t> of a size. */
  function ToInt64(n: nat): (r: int)
    ensures IsInt64(r) && (n <= INT64_MAX ==> r == n)
  {
    var w := n % 0x1_0000_0000_0000_0000;
    if w <= INT64_MAX then w else w - 0x1_0000_0000_0000_0000
  }

  function RunFlushAll(s: Store, argv: seq<Bytes>): Outcome {
    if |argv| > 2 || (|argv| == 2 && ToLower(argv[1]) != Ascii("async") && ToLower(argv[1]) != Ascii("sync")) then
      Outcome(s, Error(SYNTAX), false)
    else Outcome(Store(map[], {}, s.expired), Simple(Ascii("OK")), false)
  }

  function RunCommand(s: Store, argv: seq<Bytes>): Outcome {
    Outcome(s, if |argv| >= 2 && ToLower(argv[1]) == Ascii("count") then Integer(|TABLE|) else EmptyArray, false)
  }

  // ----- Dispatch

  function Run(op: Op, s: Store, argv: seq<Bytes>, now: int): Outcome
    requires ArityOk(op, |argv|)
  {
    match op
    case OpPing => RunPing(s, argv)
    case OpEcho => Outcome(s, Bulk(argv[1]), false)
    case OpQuit => Outcome(s, Simple(Ascii("OK")), true)
    case OpSet => RunSet(s, argv, now)
    case OpGet => RunGet(s, argv, now)
    case OpIncr => RunIncrBy(s, argv, 1, now)
    case OpDecr => RunIncrBy(s, argv, -1, now)
    case OpDel => RunDel(s, argv, now)
    case OpExists => RunExists(s, argv, now)
    case OpType => RunType(s, argv, now)
    case OpExpire => RunExpire(s, argv, now)
    case OpTtl => RunTtl(s, argv, now)
    case OpPersist => RunPersist(s, argv, now)
    case OpDbSize => Outcome(s, Integer(ToInt64(|s.entries|)), false)
    case OpFlushAll => RunFlushAll(s, argv)
    case OpCommand => RunCommand(s, argv)
  }

  function Dispatch(s: Store, argv: seq<Bytes>, now: int): Outcome
    requires argv != []
  {
    match Find(argv[0])
    case None => Outcome(s, Error(UnknownCommand(argv)), false)
    case Some(op) =>
      if ArityOk(op, |argv|) then Run(op, s, argv, now)
      else Outcome(s, Error(WrongArity(NameOf(op))), false)
  }

  // ----- What the callers of dispatch guarantee

  /** Sizes that fit the C++ types: argc an int, each argument's length an int64_t. */
  predicate Dispatchable(argv: seq<Bytes>) {
    && 1 <= |argv| <= 0x7fff_ffff
    && forall i :: 0 <= i < |argv| ==> |argv[i]| <= INT64_MAX
  }

  /** A wall clock reading in milliseconds: after the epoch. */
  predicate ClockReading(now: int) {
    0 < now <= INT64_MAX
  }

  /** Later than the half second that TTL adds before it divides. */
  predicate PastHalfSecond(now: int) {
    ClockReading(now) && 500 <= now
  }

  /** The sum that TTL forms for this key is an int64_t. */
  predicate RoundingFits(s: Store, k: Bytes, now: int) {
    IsInt64(Pttl(s, k, now).1 + 500)
  }
}

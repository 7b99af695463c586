/** One pass over the buffered input of a connection: parse, dispatch, reply, until it must stop. */
module Service {
  import opened Octets
  import opened Keyspace
  import opened Parser
  import opened Chunking
  import opened Commands
  import opened Replies
  import opened Refinement
  import opened Framing

  /** Why a pass stopped. */
  datatype Fate =
    | Waiting                          // the input is used up
    | Malformed(error: ProtocolError)  // the client broke the protocol
    | Quitting                         // a command asked to close
    | Overflowing                      // the replies pile up beyond the limit

  datatype Pass = Pass(store: Store, argvs: seq<seq<Bytes>>, replies: seq<Reply>, st: ParserState, rest: Bytes,
                       fate: Fate)

  function Before(argv: seq<Bytes>, replies: seq<Reply>, p: Pass): Pass {
    p.(argvs := [argv] + p.argvs, replies := replies + p.replies)
  }

  /** process_input: `pending` bytes of output are already queued; the i-th command reads the clock as `clock(i)`. */
  function Serve(st: ParserState, b: Bytes, s: Store, pending: nat, cap: nat, lim: ProtocolLimits, clock: nat -> int,
                 i: nat): Pass
    decreases |b|
  {
    match Parse(st, b, lim)
    case Incomplete(st', rest) => Pass(s, [], [], st', rest, Waiting)
    case Error(error, rest) => Pass(s, [], [ProtocolErrorReply(error)], Start, rest, Malformed(error))
    case Complete(argv, rest) =>
      if argv == [] then Before(argv, [], Serve(Start, rest, s, pending, cap, lim, clock, i))
      else
        var o := Dispatch(s, argv, clock(i));
        var queued := pending + |Encode(o.reply)|;
        if o.close then Pass(o.store, [argv], [o.reply], Start, rest, Quitting)
        else if queued > cap then Pass(o.store, [argv], [o.reply], Start, rest, Overflowing)
        else Before(argv, [o.reply], Serve(Start, rest, o.store, queued, cap, lim, clock, i + 1))
  }

  // ----- What a pass amounts to

  function NonEmpty(argvs: seq<seq<Bytes>>): seq<seq<Bytes>> {
    if argvs == [] then []
    else (if argvs[0] == [] then [] else [argvs[0]]) + NonEmpty(argvs[1..])
  }

  /** The commands executed one after the other, each on the keyspace its predecessor left. */
  function DispatchAll(s: Store, cmds: seq<seq<Bytes>>, clock: nat -> int, i: nat): (Store, seq<Reply>)
    requires forall j :: 0 <= j < |cmds| ==> cmds[j] != []
    decreases |cmds|
  {
    if cmds == [] then (s, [])
    else
      var o := Dispatch(s, cmds[0], clock(i));
      var (s', replies) := DispatchAll(o.store, cmds[1..], clock, i + 1);
      (s', [o.reply] + replies)
  }

  lemma AllNonEmpty(argvs: seq<seq<Bytes>>)
    ensures forall j :: 0 <= j < |NonEmpty(argvs)| ==> NonEmpty(argvs)[j] != []
  {}

  lemma NonEmptyCons(argv: seq<Bytes>, argvs: seq<seq<Bytes>>)
    ensures NonEmpty([argv] + argvs) == (if argv == [] then [] else [argv]) + NonEmpty(argvs)
  {
    assert ([argv] + argvs)[1..] == argvs;
  }

  lemma {:induction false} NonEmptyAppend(a: seq<seq<Bytes>>, b: seq<seq<Bytes>>)
    ensures NonEmpty(a + b) == NonEmpty(a) + NonEmpty(b)
  {
    if a == [] {
      assert a + b == b;
    } else {
      assert (a + b)[1..] == a[1..] + b;
      NonEmptyAppend(a[1..], b);
    }
  }

  lemma {:induction false} OneReplyEach(s: Store, cmds: seq<seq<Bytes>>, clock: nat -> int, i: nat)
    requires forall j :: 0 <= j < |cmds| ==> cmds[j] != []
    ensures |DispatchAll(s, cmds, clock, i).1| == |cmds|
    decreases |cmds|
  {
    hide Dispatch;
    if cmds != [] {
      OneReplyEach(Dispatch(s, cmds[0], clock(i)).store, cmds[1..], clock, i + 1);
    }
  }

  ghost predicate PassIsDispatch(p: Pass, s: Store, clock: nat -> int, i: nat) {
    AllNonEmpty(p.argvs);
    var d := DispatchAll(s, NonEmpty(p.argvs), clock, i);
    && p.store == d.0
    && p.replies == d.1 + if p.fate.Malformed? then [ProtocolErrorReply(p.fate.error)] else []
  }

  lemma DispatchFirst(s: Store, argv: seq<Bytes>, rest: Pass, clock: nat -> int, i: nat)
    requires argv != [] && PassIsDispatch(rest, Dispatch(s, argv, clock(i)).store, clock, i + 1)
    ensures PassIsDispatch(Before(argv, [Dispatch(s, argv, clock(i)).reply], rest), s, clock, i)
  {
    hide Dispatch;
    NonEmptyCons(argv, rest.argvs);
    AllNonEmpty(rest.argvs);
    AllNonEmpty([argv] + rest.argvs);
    var o := Dispatch(s, argv, clock(i));
    var cmds := [argv] + NonEmpty(rest.argvs);
    assert cmds[1..] == NonEmpty(rest.argvs);
    var d := DispatchAll(o.store, NonEmpty(rest.argvs), clock, i + 1);
    var last := if rest.fate.Malformed? then [ProtocolErrorReply(rest.fate.error)] else [];
    Assoc3([o.reply], d.1, last);
  }

  lemma SkipEmpty(s: Store, rest: Pass, clock: nat -> int, i: nat)
    requires PassIsDispatch(rest, s, clock, i)
    ensures PassIsDispatch(Before([], [], rest), s, clock, i)
  {
    hide Dispatch, DispatchAll;
    NonEmptyCons([], rest.argvs);
    assert [] + NonEmpty(rest.argvs) == NonEmpty(rest.argvs);
    assert [] + rest.replies == rest.replies;
  }

  lemma NoCommands(p: Pass, s: Store, clock: nat -> int, i: nat)
    requires p.argvs == [] && p.store == s
    requires p.replies == if p.fate.Malformed? then [ProtocolErrorReply(p.fate.error)] else []
    ensures PassIsDispatch(p, s, clock, i)
  {
    var d: seq<Reply> := [];
    assert d + p.replies == p.replies;
  }

  /**
   The replies of a pass are those of its non-empty commands executed in order, one each,
   followed by the protocol-error reply if there was one.
   */
  lemma {:induction false} ServeDispatches(st: ParserState, b: Bytes, s: Store, pending: nat, cap: nat,
                                           lim: ProtocolLimits, clock: nat -> int, i: nat)
    ensures PassIsDispatch(Serve(st, b, s, pending, cap, lim, clock, i), s, clock, i)
    decreases |b|
  {
    hide Parse, Dispatch, PassIsDispatch, Encode;
    var p := Serve(st, b, s, pending, cap, lim, clock, i);
    match Parse(st, b, lim) {
      case Incomplete(_, _) => NoCommands(p, s, clock, i);
      case Error(_, _) => NoCommands(p, s, clock, i);
      case Complete(argv, rest) =>
        if argv == [] {
          ServeDispatches(Start, rest, s, pending, cap, lim, clock, i);
          SkipEmpty(s, Serve(Start, rest, s, pending, cap, lim, clock, i), clock, i);
        } else {
          var o := Dispatch(s, argv, clock(i));
          var queued := pending + |Encode(o.reply)|;
          var stops := o.close || queued > cap;
          var last := if stops then Pass(o.store, [], [], Start, rest, p.fate)
                      else Serve(Start, rest, o.store, queued, cap, lim, clock, i + 1);
          if stops {
            NoCommands(last, o.store, clock, i + 1);
          } else {
            ServeDispatches(Start, rest, o.store, queued, cap, lim, clock, i + 1);
          }
          assert p == Before(argv, [o.reply], last);
          DispatchFirst(s, argv, last, clock, i);
        }
    }
  }

  /** A pass takes argument vectors off the stream exactly as draining the parser would. */
  lemma {:induction false} ServeDrains(st: ParserState, b: Bytes, s: Store, pending: nat, cap: nat, lim: ProtocolLimits,
                                       clock: nat -> int, i: nat)
    ensures var p, d := Serve(st, b, s, pending, cap, lim, clock, i), Drain(st, b, lim);
      match p.fate
      case Waiting => d == Stream(p.argvs, Pending(p.st, p.rest))
      case Malformed(error) => d == Stream(p.argvs, Failed(error))
      case _ => p.argvs <= d.argvs
    decreases |b|
  {
    hide Parse, Dispatch, Encode;
    var r := Parse(st, b, lim);
    if r.Complete? {
      if r.argv == [] {
        ServeDrains(Start, r.rest, s, pending, cap, lim, clock, i);
      } else {
        var o := Dispatch(s, r.argv, clock(i));
        ServeDrains(Start, r.rest, o.store, pending + |Encode(o.reply)|, cap, lim, clock, i + 1);
      }
    }
  }

  /** QUIT, under any capitalisation. */
  predicate Quits(argv: seq<Bytes>) {
    |argv| == 1 && Find(argv[0]) == Some(OpQuit)
  }

  lemma OnlyQuitCloses(s: Store, argv: seq<Bytes>, now: int)
    requires argv != []
    ensures Dispatch(s, argv, now).close <==> Quits(argv)
  {
    hide Find;
  }

  /** The output has passed the limit after the first `n` replies. */
  ghost predicate Passed(pending: nat, cap: nat, replies: seq<Reply>, n: nat)
    requires n <= |replies|
  {
    pending + |EncodeAll(replies[..n])| > cap
  }

  /** Whether a pass with these commands and replies has stopped in time, and for the reason it gives. */
  ghost predicate InTime(cmds: seq<seq<Bytes>>, replies: seq<Reply>, fate: Fate, pending: nat, cap: nat) {
    && |replies| == |cmds| + (if fate.Malformed? then 1 else 0)
    && (forall k :: 0 <= k < |cmds| - 1 ==> !Quits(cmds[k]) && !Passed(pending, cap, replies, k + 1))
    && (fate.Quitting? <==> cmds != [] && Quits(cmds[|cmds| - 1]))
    && (fate.Overflowing? <==> cmds != [] && !Quits(cmds[|cmds| - 1]) && Passed(pending, cap, replies, |cmds|))
  }

  /**
   A pass stops in time: after a QUIT and after the reply that takes the output past the limit no command
   is executed any more, and it stops for no other reason while whole commands are left.
   */
  lemma {:induction false} ServeStopsInTime(st: ParserState, b: Bytes, s: Store, pending: nat, cap: nat,
                                            lim: ProtocolLimits, clock: nat -> int, i: nat)
    ensures var p := Serve(st, b, s, pending, cap, lim, clock, i);
      InTime(NonEmpty(p.argvs), p.replies, p.fate, pending, cap)
    decreases |b|
  {
    hide Parse, Dispatch, Encode, Quits, NonEmpty, InTime;
    match Parse(st, b, lim) {
      case Incomplete(_, _) =>
        NoneInTime(Waiting, [], pending, cap);
      case Error(error, _) =>
        NoneInTime(Malformed(error), [ProtocolErrorReply(error)], pending, cap);
      case Complete(argv, rest) =>
        if argv == [] {
          ServeStopsInTime(Start, rest, s, pending, cap, lim, clock, i);
          var later := Serve(Start, rest, s, pending, cap, lim, clock, i);
          NonEmptyCons([], later.argvs);
          assert [] + later.replies == later.replies && [] + NonEmpty(later.argvs) == NonEmpty(later.argvs);
        } else {
          var o := Dispatch(s, argv, clock(i));
          var queued := pending + |Encode(o.reply)|;
          OnlyQuitCloses(s, argv, clock(i));
          if o.close || queued > cap {
            NonEmptyOnly(argv);
            LastInTime(argv, o.reply, if o.close then Quitting else Overflowing, pending, cap);
          } else {
            ServeStopsInTime(Start, rest, o.store, queued, cap, lim, clock, i + 1);
            var later := Serve(Start, rest, o.store, queued, cap, lim, clock, i + 1);
            NonEmptyCons(argv, later.argvs);
            OneMoreInTime(argv, o.reply, NonEmpty(later.argvs), later.replies, pending, queued, cap, later.fate);
          }
        }
    }
  }

  lemma NoneInTime(fate: Fate, replies: seq<Reply>, pending: nat, cap: nat)
    requires !fate.Quitting? && !fate.Overflowing? && |replies| == if fate.Malformed? then 1 else 0
    ensures InTime(NonEmpty([]), replies, fate, pending, cap)
  {
    hide Quits, Passed;
  }

  lemma LastInTime(argv: seq<Bytes>, reply: Reply, fate: Fate, pending: nat, cap: nat)
    requires Quits(argv) || pending + |Encode(reply)| > cap
    requires fate == if Quits(argv) then Quitting else Overflowing
    ensures InTime([argv], [reply], fate, pending, cap)
  {
    hide Quits, Passed, Encode;
    PassedOne(pending, cap, reply);
  }

  lemma NonEmptyOnly(argv: seq<Bytes>)
    requires argv != []
    ensures NonEmpty([argv]) == [argv]
  {
    NonEmptyCons(argv, []);
    assert [argv] + [] == [argv];
  }

  lemma PassedOne(pending: nat, cap: nat, reply: Reply)
    ensures Passed(pending, cap, [reply], 1) <==> pending + |Encode(reply)| > cap
  {
    hide Encode;
    assert [reply][..1] == [reply];
    EncodeOne(reply);
  }

  lemma PassedLater(pending: nat, cap: nat, reply: Reply, replies: seq<Reply>, n: nat)
    requires n <= |replies|
    ensures Passed(pending, cap, [reply] + replies, n + 1) <==>
              Passed(pending + |Encode(reply)|, cap, replies, n)
  {
    hide Encode, EncodeAll;
    assert ([reply] + replies)[..n + 1] == [reply] + replies[..n];
    EncodeAllAppend([reply], replies[..n]);
    EncodeOne(reply);
  }

  /** One command that did not stop the pass, in front of the rest of it. */
  lemma OneMoreInTime(argv: seq<Bytes>, reply: Reply, cmds: seq<seq<Bytes>>, replies: seq<Reply>, pending: nat,
                      queued: nat, cap: nat, fate: Fate)
    requires !Quits(argv) && queued == pending + |Encode(reply)| && queued <= cap
    requires InTime(cmds, replies, fate, queued, cap)
    ensures InTime([argv] + cmds, [reply] + replies, fate, pending, cap)
  {
    hide Quits, Passed, Encode;
    var all, whole := [argv] + cmds, [reply] + replies;
    PassedFirst(pending, cap, reply, replies);
    forall k | 0 <= k < |all| - 1 ensures !Quits(all[k]) && !Passed(pending, cap, whole, k + 1) {
      if k > 0 {
        PassedLater(pending, cap, reply, replies, k);
        assert all[k] == cmds[k - 1];
      }
    }
    PassedLater(pending, cap, reply, replies, |cmds|);
    if cmds == [] {
      assert all == [argv] && |all| == 1;
    } else {
      assert all[|all| - 1] == cmds[|cmds| - 1];
      assert fate.Overflowing? <==> !Quits(all[|all| - 1]) && Passed(pending, cap, whole, |all|);
    }
    assert |whole| == |all| + if fate.Malformed? then 1 else 0;
  }

  lemma PassedFirst(pending: nat, cap: nat, reply: Reply, replies: seq<Reply>)
    ensures Passed(pending, cap, [reply] + replies, 1) <==> pending + |Encode(reply)| > cap
  {
    hide Encode, EncodeAll;
    PassedLater(pending, cap, reply, replies, 0);
    assert replies[..0] == [];
    EncodeNone();
  }

  /** A pass that goes on or ends in an orderly way has not let the output grow beyond the limit. */
  lemma {:induction false} ServeIsCapped(st: ParserState, b: Bytes, s: Store, pending: nat, cap: nat,
                                         lim: ProtocolLimits, clock: nat -> int, i: nat)
    ensures var p := Serve(st, b, s, pending, cap, lim, clock, i);
      && (p.fate.Waiting? && pending <= cap ==> pending + |EncodeAll(p.replies)| <= cap)
      && (p.fate.Overflowing? ==> pending + |EncodeAll(p.replies)| > cap)
      && (p.fate.Malformed? || p.fate.Quitting? ==> p.replies != [])
    decreases |b|
  {
    hide Parse, Dispatch, Encode, EncodeAll;
    var r := Parse(st, b, lim);
    EncodeNone();
    if r.Complete? {
      if r.argv == [] {
        ServeIsCapped(Start, r.rest, s, pending, cap, lim, clock, i);
        var p := Serve(Start, r.rest, s, pending, cap, lim, clock, i);
        assert [] + p.replies == p.replies;
      } else {
        var o := Dispatch(s, r.argv, clock(i));
        var queued := pending + |Encode(o.reply)|;
        EncodeOne(o.reply);
        if !o.close && queued <= cap {
          ServeIsCapped(Start, r.rest, o.store, queued, cap, lim, clock, i + 1);
          var p := Serve(Start, r.rest, o.store, queued, cap, lim, clock, i + 1);
          EncodeAllAppend([o.reply], p.replies);
        }
      }
    }
  }

  lemma EncodeNone()
    ensures EncodeAll([]) == []
  {}

  lemma EncodeOne(r: Reply)
    ensures EncodeAll([r]) == Encode(r)
  {
    hide Encode;
    assert EncodeAll([r]) == Encode(r) + EncodeAll([]);
  }

  /**
   Limits under which every delivered command fits the types of the command layer; the defaults,
   a mebi of arguments and 64 KiB lines, are far below.
   */
  predicate ServableLimits(lim: ProtocolLimits) {
    lim.maxMultibulkArgs <= 0x7fff_ffff && lim.maxInlineLen <= 0x7fff_ffff
  }

  lemma ParsedIsDispatchable(st: ParserState, b: Bytes, lim: ProtocolLimits)
    requires WellFormed(st, lim) && ServableLimits(lim) && Parse(st, b, lim).Complete? && Parse(st, b, lim).argv != []
    ensures Dispatchable(Parse(st, b, lim).argv)
  {
    hide Parse;
    CompleteIsWithinLimits(st, b, lim);
  }

  /** The known commands, and the unknown ones that echo no line end. */
  ghost predicate Readable(argv: seq<Bytes>)
    requires argv != []
  {
    Find(argv[0]).Some? || (IndexOfCrlf(argv[0]) < 0 && CleanEcho(argv, 1))
  }

  ghost predicate AllReadable(cmds: seq<seq<Bytes>>) {
    forall j {:trigger cmds[j]} :: 0 <= j < |cmds| ==> cmds[j] != [] && Dispatchable(cmds[j]) && Readable(cmds[j])
  }

  lemma {:induction false} DispatchAllFramed(s: Store, cmds: seq<seq<Bytes>>, clock: nat -> int, i: nat)
    requires Consistent(s) && AllReadable(cmds)
    requires forall j :: ClockReading(clock(j))
    ensures var (s', replies) := DispatchAll(s, cmds, clock, i);
      && Consistent(s') && |replies| == |cmds|
      && forall j :: 0 <= j < |replies| ==> Framed(replies[j])
    decreases |cmds|
  {
    hide Consistent, Dispatch, Find, CleanEcho, Framed, IndexOfCrlf, PlainDispatch;
    if cmds != [] {
      var now := clock(i);
      assert ClockReading(now);
      assert Dispatchable(cmds[0]) && Readable(cmds[0]);
      DispatchReplyFramed(s, cmds[0], now);
      DispatchRefines(s, cmds[0], now);
      DispatchAllFramed(Dispatch(s, cmds[0], now).store, cmds[1..], clock, i + 1);
    }
  }

  /**
   What the client reads: the bytes queued by a pass decode to its replies, one for each command
   it delivered and possibly a final protocol error.
   */
  lemma ClientReadsPass(st: ParserState, b: Bytes, s: Store, pending: nat, cap: nat, lim: ProtocolLimits,
                        clock: nat -> int)
    requires Consistent(s) && forall j :: ClockReading(clock(j))
    requires AllReadable(NonEmpty(Serve(st, b, s, pending, cap, lim, clock, 0).argvs))
    ensures var p := Serve(st, b, s, pending, cap, lim, clock, 0);
      && DecodeAll(EncodeAll(p.replies)) == Some(p.replies)
      && |p.replies| == |NonEmpty(p.argvs)| + if p.fate.Malformed? then 1 else 0
  {
    hide Serve, Consistent, AllReadable, DecodeAll, EncodeAll, Framed, DispatchAll;
    var p := Serve(st, b, s, pending, cap, lim, clock, 0);
    ServeDispatches(st, b, s, pending, cap, lim, clock, 0);
    AllNonEmpty(p.argvs);
    DispatchAllFramed(s, NonEmpty(p.argvs), clock, 0);
    if p.fate.Malformed? {
      ProtocolErrorFramed(p.fate.error);
    }
    DecodeAllEncodeAll(p.replies);
  }
}

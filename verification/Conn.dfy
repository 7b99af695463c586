/** One client connection: its buffers, its parser, and the bytes that went through it. */
module Connection {
  import opened Octets
  import opened Buffers
  import opened Keyspace
  import opened Database
  import opened Parser
  import opened Chunking
  import opened Commands
  import opened Handlers
  import opened Replies
  import opened Refinement
  import opened Framing
  import opened Service
  import opened Kernel
  import Writer

  // ----- The loop of process_input on values

  /** What the loop works on: parser, input, keyspace, length of the output, and the history. */
  datatype View = View(st: ParserState, held: Bytes, store: Store, pending: nat, argvs: seq<seq<Bytes>>,
                       replies: seq<Reply>, closing: bool)

  /** One turn: what was parsed, what was answered, and whether to stop. */
  ghost predicate Turned(v: View, w: View, lim: ProtocolLimits, now: int, cap: nat, stop: Option<Fate>, ran: bool) {
    match Parse(v.st, v.held, lim)
    case Incomplete(st, rest) => w == v.(st := st, held := rest) && stop == Some(Waiting) && !ran
    case Error(error, rest) =>
      && stop == Some(Malformed(error)) && !ran
      && w == v.(st := Start, held := rest, pending := w.pending, closing := true,
                 replies := v.replies + [ProtocolErrorReply(error)])
    case Complete(argv, rest) =>
      if argv == [] then w == v.(st := Start, held := rest, argvs := v.argvs + [argv]) && stop == None && !ran
      else
        var o := Dispatch(v.store, argv, now);
        && ran
        && w == View(Start, rest, o.store, v.pending + |Encode(o.reply)|, v.argvs + [argv], v.replies + [o.reply],
                     v.closing || o.close)
        && stop == if o.close then Some(Quitting) else if w.pending > cap then Some(Overflowing) else None
  }

  /** The history once the whole pass from here is done. */
  function Total(v: View, cap: nat, lim: ProtocolLimits, clock: nat -> int, i: nat): Pass {
    var p := Serve(v.st, v.held, v.store, v.pending, cap, lim, clock, i);
    p.(argvs := v.argvs + p.argvs, replies := v.replies + p.replies)
  }

  /** From `v` the pass ended in `w` with this fate. */
  ghost predicate Served(v: View, w: View, cap: nat, lim: ProtocolLimits, clock: nat -> int, fate: Fate) {
    && Total(v, cap, lim, clock, 0) == Pass(w.store, w.argvs, w.replies, w.st, w.held, fate)
    && w.closing == (v.closing || fate.Malformed? || fate.Quitting?)
  }

  lemma TurnServes(start: View, v: View, w: View, cap: nat, lim: ProtocolLimits, clock: nat -> int, i: nat,
                   stop: Option<Fate>, ran: bool)
    requires Total(start, cap, lim, clock, 0) == Total(v, cap, lim, clock, i) && v.closing == start.closing
    requires Turned(v, w, lim, clock(i), cap, stop, ran)
    ensures stop.Some? ==> Served(start, w, cap, lim, clock, stop.value)
    ensures stop.None? ==> w.closing == start.closing && |w.held| < |v.held|
    ensures stop.None? ==> Total(start, cap, lim, clock, 0) == Total(w, cap, lim, clock, if ran then i + 1 else i)
  {
    hide Parse, Dispatch, Encode;
    TurnTotal(v, w, cap, lim, clock, i, stop, ran);
  }

  lemma TurnTotal(v: View, w: View, cap: nat, lim: ProtocolLimits, clock: nat -> int, i: nat, stop: Option<Fate>,
                  ran: bool)
    requires Turned(v, w, lim, clock(i), cap, stop, ran)
    ensures Total(v, cap, lim, clock, i) ==
              if stop.Some? then Pass(w.store, w.argvs, w.replies, w.st, w.held, stop.value)
              else Total(w, cap, lim, clock, if ran then i + 1 else i)
  {
    hide Parse, Dispatch, Encode;
    var p := Serve(w.st, w.held, w.store, w.pending, cap, lim, clock, if ran then i + 1 else i);
    match Parse(v.st, v.held, lim) {
      case Incomplete(_, _) =>
        assert v.argvs + [] == v.argvs && v.replies + [] == v.replies;
      case Error(_, _) =>
        assert v.argvs + [] == v.argvs;
      case Complete(argv, _) =>
        Assoc3(v.argvs, [argv], p.argvs);
        if argv == [] {
          assert [] + p.replies == p.replies;
        } else {
          Assoc3(v.replies, [Dispatch(v.store, argv, clock(i)).reply], p.replies);
        }
    }
  }

  class Conn {
    const fd: int
    const incarnation: nat
    const limits: ProtocolLimits
    const input: Buffer
    const out: Buffer
    const parser: RespParser
    var closeAfterWrite: bool
    var writeArmed: bool

    /** History: bytes read, argument vectors delivered, replies queued, bytes sent. */
    ghost var received: Bytes
    ghost var argvs: seq<seq<Bytes>>
    ghost var replies: seq<Reply>
    ghost var sent: Bytes

    /** The memory set aside for this connection. */
    ghost var Repr: set<object>

    ghost function Objects(): set<object>
      reads input, out
    {
      {this, input, out, parser, input.data, out.data}
    }

    ghost predicate Owned()
      reads this, input, out
    {
      Objects() <= Repr
    }

    /** No byte of output is lost, repeated or reordered. */
    ghost predicate Conserved()
      reads this`sent, this`replies, out, out.data
    {
      out.Valid() && sent + out.Contents() == EncodeAll(replies)
    }

    /** The parts are separate and valid, and no byte of output is lost, repeated or reordered. */
    ghost predicate Valid()
      reads this, input, out, parser, input.data, out.data
    {
      && input != out && input.data != out.data
      && input.Valid() && out.Valid() && parser.Valid()
      && parser.limits == limits && ServableLimits(limits)
      && Conserved()
    }

    /**
     What was delivered and what is still held are what the bytes received so far amount to, and
     every command delivered has got exactly one reply.
     */
    ghost predicate OnTrack()
      reads this, input, parser, input.data
      requires input.Valid()
    {
      !closeAfterWrite ==>
        && Drain(Start, received, limits) == After(argvs, Drain(parser.State(), input.Contents(), limits))
        && |replies| == |NonEmpty(argvs)|
    }

    /** Nothing more can be taken off the input, and it is as short as the limits make it. */
    ghost predicate Drained()
      reads this, input, parser, input.data
      requires input.Valid()
    {
      !closeAfterWrite ==>
        && Quiescent(parser.State(), input.Contents(), limits)
        && (|input.Contents()| <= MAX_HEADER || |input.Contents()| <= limits.maxInlineLen
            || |input.Contents()| <= limits.maxBulkLen + 1)
    }

    /** The state between two events. */
    ghost predicate Settled(cap: nat)
      reads this, input, out, parser, input.data, out.data
    {
      && Valid() && OnTrack() && Drained()
      && (writeArmed <==> out.Contents() != [])
      && (closeAfterWrite ==> out.Contents() != [])
      && (!closeAfterWrite ==> |out.Contents()| <= cap)
    }

    constructor (fd: int, incarnation: nat, lim: ProtocolLimits)
      requires ServableLimits(lim)
      ensures this.fd == fd && this.incarnation == incarnation && limits == lim
      ensures fresh(Repr) && Owned() && !writeArmed && received == [] && argvs == [] && replies == [] && sent == []
      ensures forall cap: nat :: Settled(cap)
    {
      this.fd, this.incarnation, limits := fd, incarnation, lim;
      var i := new Buffer();
      var o := new Buffer();
      input, out := i, o;
      parser := new RespParser(lim);
      closeAfterWrite, writeArmed := false, false;
      received, argvs, replies, sent := [], [], [], [];
      new;
      Repr := {this, input, out, parser, input.data, out.data};
      EmptyStream(lim);
    }

    /** The kernel wrote `chunk` behind the write cursor; it now counts as received. */
    method Load(chunk: Bytes)
      requires Valid() && OnTrack() && Drained() && |chunk| <= input.Writable()
      modifies this`received, input`writePos, input.data
      ensures Valid() && OnTrack()
      ensures received == old(received) + chunk && input.Contents() == old(input.Contents()) + chunk
    {
      hide Drain, After, Quiescent, EncodeAll, NonEmpty, RespParser.Valid, ServableLimits;
      if !closeAfterWrite {
        TrackAppend(received, argvs, parser.State(), input.Contents(), chunk, limits);
      }
      input.Store(chunk);
      input.Commit(|chunk|);
      received := received + chunk;
    }

    /** The read half of handle_read: one read of at most 16 KiB into the input buffer. */
    method Receive(sys: System) returns (r: ReadResult)
      requires Valid() && OnTrack() && Drained() && Owned() && fd in sys.open
      modifies this`received, this`Repr, input, input.data, sys`readLog
      ensures sys.readLog == old(sys.readLog) + [fd]
      ensures Valid() && OnTrack() && Owned() && fresh(Repr - old(Repr))
      ensures input.data == old(input.data) || fresh(input.data)
      ensures r.Data? ==> received == old(received) + r.bytes && input.Contents() == old(input.Contents()) + r.bytes
      ensures !r.Data? ==> received == old(received) && input.Contents() == old(input.Contents()) && Drained()
      ensures out.Valid() && out.Contents() == old(out.Contents())
    {
      hide Drain, After, Quiescent, EncodeAll, NonEmpty, RespParser.Valid, ServableLimits;
      input.EnsureWritable(READ_CHUNK);
      Repr := Repr + {input.data};
      r := sys.Read(fd);
      if r.Data? {
        Load(r.bytes);
      }
    }

    /** Adds a reply that has just been written to the output to the history. */
    ghost method Record(r: Reply, before: Bytes)
      requires out.Valid() && sent + before == EncodeAll(replies) && out.Contents() == before + Encode(r)
      modifies this`replies
      ensures replies == old(replies) + [r]
      ensures sent + out.Contents() == EncodeAll(replies)
    {
      EncodeAllOne(replies, r);
      Assoc3(sent, before, Encode(r));
      replies := replies + [r];
    }

    ghost function Seen(db: Db): View
      reads this, input, out, parser, input.data, out.data, db
      requires input.Valid() && out.Valid()
    {
      View(parser.State(), input.Contents(), db.State(), |out.Contents()|, argvs, replies, closeAfterWrite)
    }

    /** Dispatches one command; its reply joins the output and the history. */
    method Answer(argv: seq<Bytes>, db: Db, now: int) returns (close: bool)
      requires Valid() && Consistent(db.State()) && Dispatchable(argv) && PastHalfSecond(now)
      modifies this`replies, out, out.data, db
      ensures Valid() && Consistent(db.State()) && Writer.Kept(out)
      ensures var o := Dispatch(old(db.State()), argv, now);
        && db.State() == o.store && replies == old(replies) + [o.reply] && close == o.close
        && |out.Contents()| == old(|out.Contents()|) + |Encode(o.reply)|
    {
      hide Dispatch, Consistent, EncodeAll, ServableLimits, Encode, RespParser.Valid;
      ghost var before, store := out.Contents(), db.State();
      DispatchKeepsConsistent(store, argv, now);
      PttlFitsArgv(store, argv, now);
      close := DispatchCommand(argv, out, db, now);
      Record(Dispatch(store, argv, now).reply, before);
    }

    /** Queues the protocol-error reply. */
    method Refuse(error: ProtocolError)
      requires Valid()
      modifies this`replies, out, out.data
      ensures Valid() && Writer.Kept(out) && replies == old(replies) + [ProtocolErrorReply(error)]
    {
      hide EncodeAll, ServableLimits, Encode, RespParser.Valid, ProtocolErrorReply;
      ghost var before := out.Contents();
      Writer.Error(out, Ascii("ERR ") + ErrorText(error));
      ErrorReplyBytes(error);
      Record(ProtocolErrorReply(error), before);
    }

    /** One turn of the loop in process_input. */
    method ServeOne(db: Db, now: int, cap: nat) returns (stop: Option<Fate>, ran: bool)
      requires Valid() && Consistent(db.State()) && PastHalfSecond(now)
      modifies this`closeAfterWrite, this`argvs, this`replies, parser, input`readPos, input`writePos, out, out.data, db
      ensures Valid() && Consistent(db.State()) && Writer.Kept(out)
      ensures Turned(old(Seen(db)), Seen(db), limits, now, cap, stop, ran)
    {
      hide Parse, Dispatch, Consistent, EncodeAll, ServableLimits, Encode, RespParser.Valid, ProtocolErrorReply;
      ghost var st, b := parser.State(), input.Contents();
      ParserIsWellFormed(parser);
      var v := parser.ParseOne(input);
      if v == NeedMore {
        return Some(Waiting), false;
      }
      if v.Broken? {
        Refuse(v.error);
        closeAfterWrite := true;
        return Some(Malformed(v.error)), false;
      }
      argvs := argvs + [v.argv];
      if v.argv == [] {
        return None, false;
      }
      ParsedIsDispatchable(st, b, limits);
      var close := Answer(v.argv, db, now);
      if close {
        closeAfterWrite := true;
        return Some(Quitting), true;
      }
      return if out.Readable() > cap then Some(Overflowing) else None, true;
    }

    /** process_input up to its flush: parse, dispatch and queue replies until something stops it. */
    method Process(db: Db, clock: nat -> int, cap: nat) returns (fate: Fate)
      requires Valid() && Consistent(db.State()) && forall i :: PastHalfSecond(clock(i))
      modifies this`closeAfterWrite, this`argvs, this`replies, parser, input`readPos, input`writePos, out, out.data, db
      ensures Valid() && Consistent(db.State()) && Writer.Kept(out)
      ensures Served(old(Seen(db)), Seen(db), cap, limits, clock, fate)
    {
      hide Turned, Served, Total, Consistent, EncodeAll, ServableLimits, RespParser.Valid;
      ghost var start := Seen(db);
      var i := 0;
      var stop: Option<Fate> := None;
      while stop.None?
        invariant Valid() && Consistent(db.State()) && Writer.Kept(out)
        invariant stop.None? ==> Total(start, cap, limits, clock, 0) == Total(Seen(db), cap, limits, clock, i)
        invariant stop.None? ==> Seen(db).closing == start.closing
        invariant stop.Some? ==> Served(start, Seen(db), cap, limits, clock, stop.value)
        decreases stop.None?, input.Readable()
      {
        assert PastHalfSecond(clock(i));
        ghost var v := Seen(db);
        var ran;
        stop, ran := ServeOne(db, clock(i), cap);
        TurnServes(start, v, Seen(db), cap, limits, clock, i, stop, ran);
        i := if ran then i + 1 else i;
      }
      fate := stop.value;
    }

    /**
     A pass over freshly received input. Unless the replies have piled up beyond the cap, it leaves
     the connection with its input drained, its output within the cap and its history on track.
     */
    method Digest(db: Db, clock: nat -> int, cap: nat) returns (fate: Fate)
      requires Valid() && OnTrack() && Consistent(db.State()) && forall i :: PastHalfSecond(clock(i))
      requires if closeAfterWrite then out.Contents() != [] else |out.Contents()| <= cap
      requires Owned()
      modifies this`Repr, this`closeAfterWrite, this`argvs, this`replies, parser, input`readPos, input`writePos
      modifies out, out.data, db
      ensures Valid() && Consistent(db.State()) && Writer.Kept(out)
      ensures Served(old(Seen(db)), Seen(db), cap, limits, clock, fate)
      ensures Owned() && fresh(Repr - old(Repr))
      ensures !fate.Overflowing? ==> OnTrack() && Drained()
      ensures !fate.Overflowing? ==> if closeAfterWrite then out.Contents() != [] else |out.Contents()| <= cap
    {
      hide Served, Consistent, EncodeAll, ServableLimits, RespParser.Valid, Drain, Quiescent;
      ghost var v := Seen(db);
      ParserIsWellFormed(parser);
      fate := Process(db, clock, cap);
      Repr := Repr + {out.data};
      PassSettles(v, Seen(db), received, sent, cap, limits, clock, fate, old(out.Contents()), out.Contents());
    }

    /** The loop of flush_output: sends until nothing is left, the socket is full, or it fails. */
    method SendAll(sys: System) returns (ok: bool)
      requires Valid() && fd in sys.open
      modifies this`sent, out`readPos, out`writePos, sys`signals, sys`fullLog, sys`sendFailures
      ensures sys.fullLog == old(sys.fullLog) + if ok && out.Valid() && out.Readable() > 0 then [fd] else []
      ensures sys.sendFailures == old(sys.sendFailures) + if ok then 0 else 1
      ensures Valid() && out.Valid() && |out.Contents()| <= old(|out.Contents()|)
      ensures old(OnTrack() && Drained()) ==> OnTrack() && Drained()
    {
      hide EncodeAll, RespParser.Valid, ServableLimits, Drain, Quiescent;
      while out.Readable() > 0
        invariant Valid() && |out.Contents()| <= old(|out.Contents()|)
        invariant sys.fullLog == old(sys.fullLog) && sys.sendFailures == old(sys.sendFailures)
        decreases out.Readable(), sys.signals
      {
        var r := sys.Send(fd, out.Readable());
        match r {
          case Sent(n) =>
            ghost var queued := out.Contents();
            Assoc3(sent, queued[..n], queued[n..]);
            assert queued[..n] + queued[n..] == queued;
            sent := sent + queued[..n];
            out.Consume(n);
          case Interrupted =>
          case WouldBlock =>
            return true;
          case SendFailed =>
            return false;
        }
      }
      ok := true;
    }
  }

  /** What a pass leaves in the output is what was there and the replies it added. */
  lemma OutputGrows(sent: Bytes, before: Bytes, after: Bytes, replies: seq<Reply>, more: seq<Reply>)
    requires sent + before == EncodeAll(replies) && sent + after == EncodeAll(replies + more)
    ensures |after| == |before| + |EncodeAll(more)|
  {
    EncodeAllAppend(replies, more);
  }

  lemma NonEmptyEncoding(rs: seq<Reply>)
    requires rs != []
    ensures EncodeAll(rs) != []
  {}

  lemma PassSettles(v: View, w: View, received: Bytes, sent: Bytes, cap: nat, lim: ProtocolLimits, clock: nat -> int,
                    fate: Fate, before: Bytes, after: Bytes)
    requires Served(v, w, cap, lim, clock, fate) && WellFormed(v.st, lim)
    requires !v.closing ==> Drain(Start, received, lim) == After(v.argvs, Drain(v.st, v.held, lim))
    requires !v.closing ==> |v.replies| == |NonEmpty(v.argvs)|
    requires sent + before == EncodeAll(v.replies) && sent + after == EncodeAll(w.replies)
    requires v.pending == |before| && w.pending == |after|
    requires if v.closing then before != [] else |before| <= cap
    ensures !fate.Overflowing? && !w.closing ==>
              && Drain(Start, received, lim) == After(w.argvs, Drain(w.st, w.held, lim))
              && |w.replies| == |NonEmpty(w.argvs)|
              && Quiescent(w.st, w.held, lim)
              && (|w.held| <= MAX_HEADER || |w.held| <= lim.maxInlineLen || |w.held| <= lim.maxBulkLen + 1)
    ensures !fate.Overflowing? ==> if w.closing then after != [] else |after| <= cap
  {
    hide Serve, Drain, EncodeAll, Quiescent, Encode, WellFormed, NonEmpty;
    var p := Serve(v.st, v.held, v.store, v.pending, cap, lim, clock, 0);
    OutputGrows(sent, before, after, v.replies, p.replies);
    ServeIsCapped(v.st, v.held, v.store, v.pending, cap, lim, clock, 0);
    if fate.Malformed? || fate.Quitting? {
      NonEmptyEncoding(p.replies);
    } else if fate.Waiting? && !w.closing {
      ServeDrains(v.st, v.held, v.store, v.pending, cap, lim, clock, 0);
      DrainQuiescent(v.st, v.held, lim);
      QuiescentDrain(w.st, w.held, lim);
      AfterAfter(v.argvs, p.argvs, Drain(w.st, w.held, lim));
      assert p.argvs + [] == p.argvs;
      DrainIsBounded(v.st, v.held, lim);
      OneReplyPerCommand(v, cap, lim, clock);
      NonEmptyAppend(v.argvs, p.argvs);
    }
  }

  lemma OneReplyPerCommand(v: View, cap: nat, lim: ProtocolLimits, clock: nat -> int)
    ensures var p := Serve(v.st, v.held, v.store, v.pending, cap, lim, clock, 0);
      !p.fate.Malformed? ==> |p.replies| == |NonEmpty(p.argvs)|
  {
    hide Serve, DispatchAll, NonEmpty;
    var p := Serve(v.st, v.held, v.store, v.pending, cap, lim, clock, 0);
    ServeDispatches(v.st, v.held, v.store, v.pending, cap, lim, clock, 0);
    AllNonEmpty(p.argvs);
    OneReplyEach(v.store, NonEmpty(p.argvs), clock, 0);
  }

  lemma QuiescentDrain(st: ParserState, held: Bytes, lim: ProtocolLimits)
    requires Quiescent(st, held, lim)
    ensures Drain(st, held, lim) == Stream([], Pending(st, held))
  {
    assert Parse(st, held, lim) == Incomplete(st, held);
  }

  /** What a drained parser still holds is bounded by the limits alone. */
  lemma {:induction false} DrainIsBounded(st: ParserState, b: Bytes, lim: ProtocolLimits)
    requires WellFormed(st, lim) && Drain(st, b, lim).tail.Pending?
    ensures var t := Drain(st, b, lim).tail;
      |t.rest| <= MAX_HEADER || |t.rest| <= lim.maxInlineLen || |t.rest| <= lim.maxBulkLen + 1
    decreases |b|
  {
    hide Parse;
    var r := Parse(st, b, lim);
    if r.Complete? {
      DrainIsBounded(Start, r.rest, lim);
    } else {
      IncompleteIsBounded(st, b, lim);
    }
  }

  lemma ParserIsWellFormed(parser: RespParser)
    requires parser.Valid()
    ensures WellFormed(parser.State(), parser.limits)
  {}

  lemma PttlFitsArgv(s: Store, argv: seq<Bytes>, now: int)
    requires Consistent(s) && PastHalfSecond(now)
    ensures |argv| == 2 ==> RoundingFits(s, argv[1], now)
  {
    hide Consistent, RoundingFits;
    if |argv| == 2 {
      PttlFits(s, argv[1], now);
    }
  }

  lemma ErrorReplyBytes(error: ProtocolError)
    ensures Encode(ProtocolErrorReply(error)) == Writer.ErrorLine(Ascii("ERR ") + ErrorText(error))
  {}

  lemma DispatchKeepsConsistent(s: Store, argv: seq<Bytes>, now: int)
    requires Consistent(s) && Dispatchable(argv) && ClockReading(now)
    ensures Consistent(Dispatch(s, argv, now).store)
  {
    hide Consistent, Dispatch, PlainDispatch, Find;
    DispatchRefines(s, argv, now);
  }

  lemma EmptyStream(lim: ProtocolLimits)
    ensures Drain(Start, [], lim) == Stream([], Pending(Start, []))
    ensures Drain(Start, [], lim) == After([], Drain(Start, [], lim))
    ensures Quiescent(Start, [], lim)
    ensures EncodeAll([]) == []
  {}

  /** Appending a chunk to what a quiescent parser holds keeps it on track. */
  lemma TrackAppend(received: Bytes, argvs: seq<seq<Bytes>>, st: ParserState, held: Bytes, chunk: Bytes,
                    lim: ProtocolLimits)
    requires Drain(Start, received, lim) == After(argvs, Drain(st, held, lim)) && Quiescent(st, held, lim)
    ensures Drain(Start, received + chunk, lim) == After(argvs, Drain(st, held + chunk, lim))
  {
    assert Parse(st, held, lim) == Incomplete(st, held);
    assert Drain(st, held, lim) == Stream([], Pending(st, held));
    assert argvs + [] == argvs;
    DrainResumes(Start, received, chunk, lim);
  }
}

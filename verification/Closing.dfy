/**
 A connection whose closing reply waits for the socket is still read and served. When that reply is
 the last one, and what happens to the buffers when it is not.
 */
module Closing {
  import opened Octets
  import opened Keyspace
  import opened Parser
  import opened Chunking
  import opened Commands
  import opened Replies
  import opened Framing
  import opened Service

  /** What a pass that says nothing can have met: no non-empty command and no broken framing. */
  ghost predicate Silent(d: Stream) {
    d.tail.Pending? && NonEmpty(d.argvs) == []
  }

  lemma SilentAfter(argvs: seq<seq<Bytes>>, d: Stream)
    ensures Silent(After(argvs, d)) <==> NonEmpty(argvs) == [] && Silent(d)
  {
    NonEmptyAppend(argvs, d.argvs);
  }

  lemma NonEmptyOne(argv: seq<Bytes>)
    ensures NonEmpty([argv]) == if argv == [] then [] else [argv]
  {
    NonEmptyCons(argv, []);
    assert [argv] + [] == [argv];
  }

  /** A pass adds no reply if and only if the bytes finish no non-empty command and break no framing. */
  lemma {:induction false} SilentPass(st: ParserState, b: Bytes, s: Store, pending: nat, cap: nat, lim: ProtocolLimits,
                                      clock: nat -> int, i: nat)
    ensures Serve(st, b, s, pending, cap, lim, clock, i).replies == [] <==> Silent(Drain(st, b, lim))
    decreases |b|
  {
    hide Parse, Dispatch, Encode, NonEmpty, Silent;
    var r := Parse(st, b, lim);
    assert Silent(Drain(st, b, lim)) <==> !r.Error? && (r.Complete? ==> Silent(Drain(st, b, lim))) by {
      SilentEnds(st, b, lim);
    }
    if r.Complete? {
      SilentAfter([r.argv], Drain(Start, r.rest, lim));
      NonEmptyOne(r.argv);
      if r.argv == [] {
        SilentPass(Start, r.rest, s, pending, cap, lim, clock, i);
      }
    }
  }

  lemma SilentEnds(st: ParserState, b: Bytes, lim: ProtocolLimits)
    ensures Parse(st, b, lim).Incomplete? ==> Silent(Drain(st, b, lim))
    ensures Parse(st, b, lim).Error? ==> !Silent(Drain(st, b, lim))
  {
    hide Parse;
  }

  // ----- The rest of a connection's life

  /** One more read, with the keyspace, the queued output and the clock that its pass finds. */
  datatype Turn = Turn(chunk: Bytes, store: Store, pending: nat, clock: nat -> int)

  /** What several passes say in all, and what they leave behind; one that overflows is the last. */
  datatype Sequel = Sequel(replies: seq<Reply>, st: ParserState, rest: Bytes)

  function Passes(st: ParserState, held: Bytes, turns: seq<Turn>, cap: nat, lim: ProtocolLimits): Sequel
    decreases |turns|
  {
    if turns == [] then Sequel([], st, held)
    else
      var t := turns[0];
      var p := Serve(st, held + t.chunk, t.store, t.pending, cap, lim, t.clock, 0);
      if p.fate.Overflowing? then Sequel(p.replies, p.st, p.rest)
      else
        var later := Passes(p.st, p.rest, turns[1..], cap, lim);
        later.(replies := p.replies + later.replies)
  }

  function Chunks(turns: seq<Turn>): seq<Bytes> {
    seq(|turns|, i requires 0 <= i < |turns| => turns[i].chunk)
  }

  lemma ChunksTail(turns: seq<Turn>)
    requires turns != []
    ensures Chunks(turns)[0] == turns[0].chunk && Chunks(turns)[1..] == Chunks(turns[1..])
  {}

  /**
   The reply queued now is the last one if and only if the bytes that still arrive, together with
   those held, finish no non-empty command and break no framing.
   */
  lemma {:induction false} LastReply(st: ParserState, held: Bytes, turns: seq<Turn>, cap: nat, lim: ProtocolLimits)
    ensures Passes(st, held, turns, cap, lim).replies == [] <==> Silent(Feed(st, held, Chunks(turns), lim))
    decreases |turns|
  {
    hide Serve, Drain, NonEmpty, Silent, Chunks;
    if turns == [] {
      assert Silent(Stream([], Pending(st, held))) by {
        SilentNothing(st, held);
      }
      assert Chunks(turns) == [] by {
        NoTurns();
      }
    } else {
      var t := turns[0];
      var b := held + t.chunk;
      var p := Serve(st, b, t.store, t.pending, cap, lim, t.clock, 0);
      var d := Drain(st, b, lim);
      SilentPass(st, b, t.store, t.pending, cap, lim, t.clock, 0);
      ServeDrains(st, b, t.store, t.pending, cap, lim, t.clock, 0);
      SpokenFate(st, b, t.store, t.pending, cap, lim, t.clock, 0);
      ChunksTail(turns);
      assert |Chunks(turns)| == |turns| by {
        CountTurns(turns);
      }
      if d.tail.Failed? {
        FailedSpeaks(d);
      } else {
        SilentAfter(d.argvs, Feed(d.tail.st, d.tail.rest, Chunks(turns)[1..], lim));
        PendingSilence(d);
        if p.replies == [] {
          LastReply(p.st, p.rest, turns[1..], cap, lim);
        }
      }
    }
  }

  lemma SilentNothing(st: ParserState, held: Bytes)
    ensures Silent(Stream([], Pending(st, held)))
  {}

  lemma NoTurns()
    ensures Chunks([]) == []
  {}

  lemma CountTurns(turns: seq<Turn>)
    ensures |Chunks(turns)| == |turns|
  {}

  lemma FailedSpeaks(d: Stream)
    requires d.tail.Failed?
    ensures !Silent(d)
  {}

  lemma PendingSilence(d: Stream)
    requires d.tail.Pending?
    ensures Silent(d) <==> NonEmpty(d.argvs) == []
  {}

  /** A pass that ends otherwise than by waiting has said something. */
  lemma {:induction false} SpokenFate(st: ParserState, b: Bytes, s: Store, pending: nat, cap: nat, lim: ProtocolLimits,
                                      clock: nat -> int, i: nat)
    ensures var p := Serve(st, b, s, pending, cap, lim, clock, i); p.replies == [] ==> p.fate.Waiting?
    decreases |b|
  {
    hide Parse, Dispatch, Encode;
    var r := Parse(st, b, lim);
    if r.Complete? && r.argv == [] {
      SpokenFate(Start, r.rest, s, pending, cap, lim, clock, i);
    }
  }

  // ----- What goes wrong otherwise

  /** A refused inline line is not consumed. */
  lemma RefusedLineStays(b: Bytes, lim: ProtocolLimits)
    requires |b| > lim.maxInlineLen && b[0] != STAR && LF !in b
    ensures Parse(Start, b, lim) == Parser.Error(TooBigInline, b)
  {
    assert IndexOf(b, LF) < 0;
    assert TakeStep(Start, b, lim) == Reject(TooBigInline, 0);
    assert b[0..] == b;
  }

  /**
   Reads that bring no newline: every one of them queues the protocol error again, whatever the cap
   on the output, and the held input grows by every byte, whatever the limits.
   */
  lemma {:induction false} RefusedLineGrows(held: Bytes, turns: seq<Turn>, cap: nat, lim: ProtocolLimits)
    requires |held| > lim.maxInlineLen && held[0] != STAR && LF !in held
    requires forall i :: 0 <= i < |turns| ==> LF !in turns[i].chunk
    ensures var o := Passes(Start, held, turns, cap, lim);
      && o.replies == seq(|turns|, _ => ProtocolErrorReply(TooBigInline))
      && o.rest == held + Flatten(Chunks(turns))
    decreases |turns|
  {
    hide Serve, Chunks, ProtocolErrorReply;
    if turns == [] {
      NoTurns();
      assert held + Flatten(Chunks(turns)) == held;
    } else {
      var t := turns[0];
      RefusedPass(held + t.chunk, t, cap, lim);
      ChunksTail(turns);
      CountTurns(turns);
      RefusedLineGrows(held + t.chunk, turns[1..], cap, lim);
      Assoc3(held, t.chunk, Flatten(Chunks(turns[1..])));
    }
  }

  /** With a limit of one byte, a client that sent `ab` is refused, and refused again when `c` arrives. */
  lemma TwoFarewells(s: Store, clock: nat -> int, cap: nat)
    ensures var lim := ProtocolLimits(1, 1, 1);
      var turns := [Turn([97, 98], s, 0, clock), Turn([99], s, 0, clock)];
      var refusal := ProtocolErrorReply(TooBigInline);
      && Passes(Start, [], turns[..1], cap, lim) == Sequel([refusal], Start, [97, 98])
      && Passes(Start, [], turns, cap, lim) == Sequel([refusal, refusal], Start, [97, 98, 99])
  {
    hide Serve, ProtocolErrorReply, Passes;
    var lim := ProtocolLimits(1, 1, 1);
    var one, two := Turn([97, 98], s, 0, clock), Turn([99], s, 0, clock);
    var first: Bytes := [97, 98];
    var both: Bytes := [97, 98, 99];
    assert [one, two][..1] == [one];
    assert [] + first == first && first + two.chunk == both;
    RefusedPass(first, one, cap, lim);
    RefusedPass(both, two, cap, lim);
    FirstTurn([], [one], cap, lim);
    FirstTurn([], [one, two], cap, lim);
    FirstTurn(first, [two], cap, lim);
    assert [one][1..] == [] && [two][1..] == [] && [one, two][1..] == [two];
    NoMorePasses(first, cap, lim);
    NoMorePasses(both, cap, lim);
  }

  lemma RefusedPass(b: Bytes, t: Turn, cap: nat, lim: ProtocolLimits)
    requires |b| > lim.maxInlineLen && b[0] != STAR && LF !in b
    ensures Serve(Start, b, t.store, t.pending, cap, lim, t.clock, 0) ==
              Pass(t.store, [], [ProtocolErrorReply(TooBigInline)], Start, b, Malformed(TooBigInline))
  {
    hide Parse, ProtocolErrorReply;
    RefusedLineStays(b, lim);
  }

  lemma NoMorePasses(held: Bytes, cap: nat, lim: ProtocolLimits)
    ensures Passes(Start, held, [], cap, lim) == Sequel([], Start, held)
  {}

  lemma FirstTurn(held: Bytes, turns: seq<Turn>, cap: nat, lim: ProtocolLimits)
    requires turns != []
    ensures var t := turns[0];
      var p := Serve(Start, held + t.chunk, t.store, t.pending, cap, lim, t.clock, 0);
      !p.fate.Overflowing? ==>
        var later := Passes(p.st, p.rest, turns[1..], cap, lim);
        Passes(Start, held, turns, cap, lim) == later.(replies := p.replies + later.replies)
  {
    hide Serve;
  }

  /** So no bound on input or output survives a closing reply: each is passed by some run of reads. */
  lemma ClosingIsUnbounded(bound: nat, s: Store, clock: nat -> int, cap: nat)
    ensures exists turns ::
              var o := Passes(Start, [97, 98], turns, cap, ProtocolLimits(1, 1, 1));
              |o.rest| > bound && |EncodeAll(o.replies)| > bound
  {
    hide Passes, Chunks, EncodeAll, ProtocolErrorReply;
    var lim := ProtocolLimits(1, 1, 1);
    var held: Bytes := [97, 98];
    var turns := seq(bound + 1, _ => Turn([99], s, 0, clock));
    RefusedLineGrows(held, turns, cap, lim);
    var o := Passes(Start, held, turns, cap, lim);
    OneByteEach(turns);
    EncodingIsLong(o.replies);
  }

  lemma {:induction false} OneByteEach(turns: seq<Turn>)
    requires forall i :: 0 <= i < |turns| ==> |turns[i].chunk| == 1
    ensures |Flatten(Chunks(turns))| == |turns|
    decreases |turns|
  {
    if turns != [] {
      ChunksTail(turns);
      OneByteEach(turns[1..]);
    }
  }

  lemma {:induction false} EncodingIsLong(replies: seq<Reply>)
    ensures |EncodeAll(replies)| >= |replies|
    decreases |replies|
  {
    hide Encode;
    if replies != [] {
      EncodingIsLong(replies[1..]);
    }
  }
}

/**
 How a byte stream is cut into reads does not matter, with one exception that is
 characterised exactly.
 */
module Chunking {
  import opened Octets
  import opened IntCodec
  import opened Inline
  import opened Parser

  // ----- Parsing until nothing more can be done

  datatype Tail = Pending(st: ParserState, rest: Bytes) | Failed(error: ProtocolError)

  /** The argument vectors delivered so far, and how the parser is left. */
  datatype Stream = Stream(argvs: seq<seq<Bytes>>, tail: Tail)

  function After(argvs: seq<seq<Bytes>>, s: Stream): Stream {
    Stream(argvs + s.argvs, s.tail)
  }

  /** Calls parse until it needs more bytes or fails. */
  function Drain(st: ParserState, b: Bytes, lim: ProtocolLimits): Stream
    decreases |b|
  {
    match Parse(st, b, lim)
    case Incomplete(st', rest) => Stream([], Pending(st', rest))
    case Complete(argv, rest) => After([argv], Drain(Start, rest, lim))
    case Error(error, _) => Stream([], Failed(error))
  }

  /** One read per chunk: append it, drain, and keep the remainder for the next one. */
  function Feed(st: ParserState, held: Bytes, chunks: seq<Bytes>, lim: ProtocolLimits): Stream
    decreases |chunks|
  {
    if chunks == [] then Stream([], Pending(st, held))
    else
      var d := Drain(st, held + chunks[0], lim);
      if d.tail.Failed? then d
      else After(d.argvs, Feed(d.tail.st, d.tail.rest, chunks[1..], lim))
  }

  /** The state of a parser that has been drained: the bytes it holds complete no token. */
  ghost predicate Quiescent(st: ParserState, held: Bytes, lim: ProtocolLimits) {
    TakeStep(st, held, lim) == Wait
  }

  /** Same commands, and the same verdict; the wording of an error may differ. */
  ghost predicate Agree(a: Stream, b: Stream) {
    && a.argvs == b.argvs
    && a.tail.Failed? == b.tail.Failed?
    && (a.tail.Pending? ==> a.tail == b.tail)
  }

  // ----- The exception

  /** The next command is an inline line of exactly `maxInlineLen` bytes ended by `\r\n`. */
  predicate FullInlineLine(st: ParserState, b: Bytes, lim: ProtocolLimits) {
    && st == Start
    && |b| >= lim.maxInlineLen + 2
    && b[0] != STAR
    && b[lim.maxInlineLen] == CR
    && IndexOf(b, LF) == lim.maxInlineLen + 1
  }

  /** Position `k` separates the `\r` from the `\n` of a full inline line of the stream. */
  predicate BadCut(st: ParserState, b: Bytes, k: int, lim: ProtocolLimits)
    decreases |b|
  {
    match Parse(st, b, lim)
    case Complete(_, rest) =>
      || (FullInlineLine(st, b, lim) && k == lim.maxInlineLen + 1)
      || BadCut(Start, rest, k - (|b| - |rest|), lim)
    case _ => false
  }

  // ----- More bytes do not change a token that is already there

  lemma InlineStepStable(b: Bytes, more: Bytes, lim: ProtocolLimits)
    ensures InlineStep(b, lim).Finish? ==> InlineStep(b + more, lim) == InlineStep(b, lim)
    ensures InlineStep(b, lim).Reject? && IndexOf(b, LF) >= 0 ==> InlineStep(b + more, lim) == InlineStep(b, lim)
  {
    var nl := IndexOf(b, LF);
    LaterIndex(b, more, LF);
    if nl >= 0 {
      var len := if nl > 0 && b[nl - 1] == CR then nl - 1 else nl;
      assert (b + more)[..len] == b[..len];
    }
  }

  lemma CountStepStable(b: Bytes, more: Bytes, lim: ProtocolLimits)
    requires b != []
    ensures CountStep(b, lim).Advance? || CountStep(b, lim).Finish? ==> CountStep(b + more, lim) == CountStep(b, lim)
    ensures CountStep(b, lim).Reject? ==> CountStep(b + more, lim).Reject?
  {
    var crlf := IndexOfCrlf(b);
    LaterCrlf(b, more);
    if crlf > 0 {
      assert (b + more)[1..crlf] == b[1..crlf];
    }
  }

  lemma LengthStepStable(remaining: int, args: seq<Bytes>, b: Bytes, more: Bytes, lim: ProtocolLimits)
    ensures LengthStep(remaining, args, b, lim).Advance? ==>
              LengthStep(remaining, args, b + more, lim) == LengthStep(remaining, args, b, lim)
    ensures LengthStep(remaining, args, b, lim).Reject? ==> LengthStep(remaining, args, b + more, lim).Reject?
  {
    var crlf := IndexOfCrlf(b);
    LaterCrlf(b, more);
    if crlf > 0 {
      assert (b + more)[1..crlf] == b[1..crlf];
    }
  }

  lemma PayloadStepStable(remaining: int, args: seq<Bytes>, len: int, b: Bytes, more: Bytes)
    ensures !PayloadStep(remaining, args, len, b).Wait? ==>
              PayloadStep(remaining, args, len, b + more) == PayloadStep(remaining, args, len, b)
  {
    if 0 <= len && len + 2 <= |b| {
      assert (b + more)[..len] == b[..len];
    }
  }

  /** A token that was there stays; a rejection stays unless the cut is the bad one. */
  lemma StepStable(st: ParserState, b: Bytes, more: Bytes, lim: ProtocolLimits)
    ensures var s := TakeStep(st, b, lim);
      && (s.Advance? || s.Finish? ==> TakeStep(st, b + more, lim) == s)
      && (s.Reject? ==> TakeStep(st, b + more, lim).Reject?
                        || (TakeStep(st, b + more, lim).Finish? && FullInlineLine(st, b + more, lim) &&
                            |b| == lim.maxInlineLen + 1))
  {
    match st {
      case Start =>
        if b != [] {
          if b[0] == STAR {
            CountStepStable(b, more, lim);
          } else {
            InlineStepStable(b, more, lim);
            LaterIndex(b, more, LF);
          }
        }
      case ArgLen(remaining, args) =>
        LengthStepStable(remaining, args, b, more, lim);
      case ArgData(remaining, args, len) =>
        PayloadStepStable(remaining, args, len, b, more);
    }
  }

  /** A full inline line that arrives without its `\n` is rejected. */
  lemma FullLineCutFails(st: ParserState, b: Bytes, lim: ProtocolLimits)
    requires FullInlineLine(st, b, lim)
    ensures Parse(st, b[..lim.maxInlineLen + 1], lim).Error?
  {
    var cut := b[..lim.maxInlineLen + 1];
    assert IndexOf(cut, LF) < 0;
    assert InlineStep(cut, lim) == Reject(TooBigInline, 0);
  }

  // ----- One call, lifted from one token

  lemma {:induction false} ParseExtends(st: ParserState, b: Bytes, more: Bytes, lim: ProtocolLimits)
    ensures var r := Parse(st, b, lim);
      match r
      case Incomplete(st', rest) => Parse(st, b + more, lim) == Parse(st', rest + more, lim)
      case Complete(argv, rest) => Parse(st, b + more, lim) == Complete(argv, rest + more)
      case Error(_, rest) =>
        || Parse(st, b + more, lim).Error?
        || (Parse(st, b + more, lim).Complete? && FullInlineLine(st, b + more, lim) && |b| == lim.maxInlineLen + 1)
    decreases |b|
  {
    hide TakeStep;
    StepStable(st, b, more, lim);
    match TakeStep(st, b, lim) {
      case Wait =>
      case Advance(next, used) =>
        assert (b + more)[used..] == b[used..] + more;
        ParseExtends(next, b[used..], more, lim);
      case Finish(argv, used) =>
        assert (b + more)[used..] == b[used..] + more;
      case Reject(_, _) =>
    }
  }

  lemma {:induction false} PendingIsQuiescent(st: ParserState, b: Bytes, lim: ProtocolLimits)
    ensures var r := Parse(st, b, lim); r.Incomplete? ==> Quiescent(r.st, r.rest, lim)
    decreases |b|
  {
    var s := TakeStep(st, b, lim);
    if s.Advance? {
      PendingIsQuiescent(s.next, b[s.used..], lim);
    }
  }

  // ----- Draining, lifted from one call

  lemma AfterAfter(a: seq<seq<Bytes>>, b: seq<seq<Bytes>>, s: Stream)
    ensures After(a, After(b, s)) == After(a + b, s)
    ensures After([], s) == s
  {
    assert a + (b + s.argvs) == (a + b) + s.argvs;
    assert [] + s.argvs == s.argvs;
  }

  lemma {:induction false} DrainQuiescent(st: ParserState, b: Bytes, lim: ProtocolLimits)
    ensures var d := Drain(st, b, lim); d.tail.Pending? ==> Quiescent(d.tail.st, d.tail.rest, lim)
    decreases |b|
  {
    PendingIsQuiescent(st, b, lim);
    var r := Parse(st, b, lim);
    if r.Complete? {
      DrainQuiescent(Start, r.rest, lim);
    }
  }

  /**
   Resuming is exact: draining a prefix and then what it left, with the rest of the stream
   appended, gives precisely what draining everything at once gives.
   */
  lemma {:induction false} DrainResumes(st: ParserState, b: Bytes, more: Bytes, lim: ProtocolLimits)
    requires Drain(st, b, lim).tail.Pending?
    ensures var d := Drain(st, b, lim);
      Drain(st, b + more, lim) == After(d.argvs, Drain(d.tail.st, d.tail.rest + more, lim))
    decreases |b|
  {
    hide Parse, FullInlineLine;
    ParseExtends(st, b, more, lim);
    match Parse(st, b, lim) {
      case Incomplete(st', rest) =>
        AfterAfter([], [], Drain(st', rest + more, lim));
      case Complete(argv, rest) =>
        DrainResumes(Start, rest, more, lim);
        var d := Drain(Start, rest, lim);
        AfterAfter([argv], d.argvs, Drain(d.tail.st, d.tail.rest + more, lim));
      case Error(_, _) =>
    }
  }

  /** Bad cuts of the whole stream are bad cuts of what is left after a prefix. */
  lemma {:induction false} BadCutResumes(st: ParserState, b: Bytes, more: Bytes, k: int, lim: ProtocolLimits)
    requires Drain(st, b, lim).tail.Pending? && k >= |b|
    ensures var d := Drain(st, b, lim);
      BadCut(st, b + more, k, lim) <==> BadCut(d.tail.st, d.tail.rest + more, k - (|b| - |d.tail.rest|), lim)
    decreases |b|
  {
    hide Parse, FullInlineLine;
    ParseExtends(st, b, more, lim);
    match Parse(st, b, lim) {
      case Incomplete(st', rest) =>
        BadCutSameParse(st, b, more, st', rest, k, lim);
      case Complete(argv, rest) =>
        BadCutResumes(Start, rest, more, k - (|b| - |rest|), lim);
        assert |b + more| - |rest + more| == |b| - |rest|;
        if FullInlineLine(st, b + more, lim) && k == lim.maxInlineLen + 1 {
          CompleteConsumesLine(st, b, more, lim);
        }
      case Error(_, _) =>
    }
  }

  /** A full inline line that completes has been consumed to its `\n`. */
  lemma CompleteConsumesLine(st: ParserState, b: Bytes, more: Bytes, lim: ProtocolLimits)
    requires Parse(st, b, lim).Complete? && FullInlineLine(st, b + more, lim)
    ensures |b| >= lim.maxInlineLen + 2
  {
    LaterIndex(b, more, LF);
    assert b != [];
    assert (b + more)[0] == b[0];
  }

  /** When the prefix left the parser waiting, only the state and the bytes it kept count. */
  lemma {:induction false} BadCutSameParse(st: ParserState, b: Bytes, more: Bytes, st': ParserState, rest: Bytes,
                                           k: int, lim: ProtocolLimits)
    requires Parse(st, b, lim) == Incomplete(st', rest) && k >= |b|
    ensures BadCut(st, b + more, k, lim) <==> BadCut(st', rest + more, k - (|b| - |rest|), lim)
  {
    hide Parse;
    ParseExtends(st, b, more, lim);
    var whole := Parse(st, b + more, lim);
    assert whole == Parse(st', rest + more, lim);
    if st' == Start {
      WaitingAtStart(st, b, lim);
    } else if whole.Complete? {
      assert |b + more| - |whole.rest| - (|b| - |rest|) == |rest + more| - |whole.rest|;
      if FullInlineLine(st, b + more, lim) {
        AdvanceLeavesStar(st, b, lim);
      }
    }
  }

  /** A call that ends waiting in the Start state consumed nothing. */
  lemma {:induction false} WaitingAtStart(st: ParserState, b: Bytes, lim: ProtocolLimits)
    ensures var r := Parse(st, b, lim); r.Incomplete? && r.st == Start ==> st == Start && r.rest == b
    decreases |b|
  {
    var s := TakeStep(st, b, lim);
    if s.Advance? {
      assert s.next != Start;
      WaitingAtStart(s.next, b[s.used..], lim);
    }
  }

  lemma AdvanceLeavesStar(st: ParserState, b: Bytes, lim: ProtocolLimits)
    requires Parse(st, b, lim).Incomplete? && Parse(st, b, lim).st != Start && st == Start
    ensures b != [] && b[0] == STAR
  {}

  /** A bad cut makes the prefix fail. */
  lemma {:induction false} BadCutFails(st: ParserState, b: Bytes, k: int, lim: ProtocolLimits)
    requires 0 <= k <= |b| && BadCut(st, b, k, lim)
    ensures Drain(st, b[..k], lim).tail.Failed?
    decreases |b|
  {
    hide Parse, FullInlineLine;
    var rest := Parse(st, b, lim).rest;
    var used := |b| - |rest|;
    if FullInlineLine(st, b, lim) && k == lim.maxInlineLen + 1 {
      FullLineCutFails(st, b, lim);
    } else {
      BadCutInRange(Start, rest, k - used, lim);
      PrefixStillCompletes(st, b, k, lim);
      BadCutFails(Start, rest, k - used, lim);
    }
  }

  lemma {:induction false} BadCutInRange(st: ParserState, b: Bytes, k: int, lim: ProtocolLimits)
    requires BadCut(st, b, k, lim)
    ensures 0 < k < |b|
    decreases |b|
  {
    hide Parse;
    var rest := Parse(st, b, lim).rest;
    if !(FullInlineLine(st, b, lim) && k == lim.maxInlineLen + 1) {
      BadCutInRange(Start, rest, k - (|b| - |rest|), lim);
    }
  }

  /** Cutting after the end of the first command leaves that command whole. */
  lemma {:induction false} PrefixStillCompletes(st: ParserState, b: Bytes, k: int, lim: ProtocolLimits)
    requires Parse(st, b, lim).Complete?
    requires |b| - |Parse(st, b, lim).rest| <= k <= |b|
    ensures var r := Parse(st, b, lim);
      Parse(st, b[..k], lim) == Complete(r.argv, r.rest[..k - (|b| - |r.rest|)])
    decreases |b|
  {
    hide TakeStep;
    StepWithin(st, b, k, lim);
    var s := TakeStep(st, b, lim);
    assert b[..k][s.used..] == b[s.used..][..k - s.used];
    if s.Advance? {
      PrefixStillCompletes(s.next, b[s.used..], k - s.used, lim);
    }
  }

  lemma CrlfWithin(b: Bytes, k: nat)
    requires k <= |b| && 0 <= IndexOfCrlf(b) && IndexOfCrlf(b) + 2 <= k
    ensures IndexOfCrlf(b[..k]) == IndexOfCrlf(b)
  {
    assert b[..k] + b[k..] == b;
    assert CrlfAt(b[..k], IndexOfCrlf(b));
    LaterCrlf(b[..k], b[k..]);
  }

  lemma IndexWithin(b: Bytes, c: Octet, k: nat)
    requires k <= |b| && 0 <= IndexOf(b, c) < k
    ensures IndexOf(b[..k], c) == IndexOf(b, c)
  {
    assert b[..k] + b[k..] == b;
    assert b[..k][IndexOf(b, c)] == c;
    LaterIndex(b[..k], b[k..], c);
  }

  /** A token is recognised as soon as all its bytes are there. */
  lemma StepWithin(st: ParserState, b: Bytes, k: nat, lim: ProtocolLimits)
    requires k <= |b|
    ensures var s := TakeStep(st, b, lim);
      (s.Advance? || s.Finish?) && s.used <= k ==> TakeStep(st, b[..k], lim) == s
  {
    hide Words, ParseInt, IndexOf, IndexOfCrlf;
    var s := TakeStep(st, b, lim);
    if (s.Advance? || s.Finish?) && s.used <= k {
      assert b[..k][0] == b[0];
      if st.ArgData? {
        assert b[..k][..st.len] == b[..st.len];
      } else if st.Start? && b[0] != STAR {
        var nl := IndexOf(b, LF);
        IndexWithin(b, LF, k);
        assert b[..k][..nl] == b[..nl] && (nl > 0 ==> b[..k][..nl - 1] == b[..nl - 1]);
      } else {
        var crlf := IndexOfCrlf(b);
        CrlfWithin(b, k);
        assert b[..k][1..crlf] == b[1..crlf];
      }
    }
  }

  // ----- A prefix that fails

  /** Unless it was cut badly, a stream whose prefix fails fails in the same place. */
  lemma {:induction false} FailureStays(st: ParserState, b: Bytes, more: Bytes, lim: ProtocolLimits)
    requires Drain(st, b, lim).tail.Failed? && !BadCut(st, b + more, |b|, lim)
    ensures Agree(Drain(st, b, lim), Drain(st, b + more, lim))
    ensures forall k :: k > |b| ==> !BadCut(st, b + more, k, lim)
    decreases |b|
  {
    hide Parse, FullInlineLine;
    ParseExtends(st, b, more, lim);
    var r := Parse(st, b, lim);
    if r.Complete? {
      var used := |b| - |r.rest|;
      assert |b + more| - |r.rest + more| == used;
      FailureStays(Start, r.rest, more, lim);
      forall k | k > |b| ensures !BadCut(st, b + more, k, lim) {
        assert !BadCut(Start, r.rest + more, k - used, lim);
        if FullInlineLine(st, b + more, lim) {
          CompleteConsumesLine(st, b, more, lim);
        }
      }
    }
  }

  /** A bad cut loses at least the full inline line it went through. */
  lemma {:induction false} BadCutLoses(st: ParserState, b: Bytes, more: Bytes, lim: ProtocolLimits)
    requires Drain(st, b, lim).tail.Failed? && BadCut(st, b + more, |b|, lim)
    ensures |Drain(st, b, lim).argvs| < |Drain(st, b + more, lim).argvs|
    decreases |b|
  {
    hide Parse, FullInlineLine;
    ParseExtends(st, b, more, lim);
    var r := Parse(st, b, lim);
    if r.Complete? {
      assert |b + more| - |r.rest + more| == |b| - |r.rest|;
      if FullInlineLine(st, b + more, lim) {
        CompleteConsumesLine(st, b, more, lim);
      }
      BadCutLoses(Start, r.rest, more, lim);
    }
  }

  // ----- Any number of chunks

  /** Some boundary between two chunks is a bad cut of the stream. */
  ghost predicate CutBadly(st: ParserState, held: Bytes, chunks: seq<Bytes>, lim: ProtocolLimits) {
    exists j :: 1 <= j <= |chunks| && BadCut(st, held + Flatten(chunks), |held| + |Flatten(chunks[..j])|, lim)
  }

  lemma AgreeAfter(argvs: seq<seq<Bytes>>, a: Stream, b: Stream)
    ensures Agree(After(argvs, a), After(argvs, b)) <==> Agree(a, b)
  {
    assert (argvs + a.argvs)[|argvs|..] == a.argvs;
    assert (argvs + b.argvs)[|argvs|..] == b.argvs;
  }

  lemma BoundaryAfterFirst(chunks: seq<Bytes>, j: nat)
    requires 1 <= j <= |chunks|
    ensures Flatten(chunks[..j]) == chunks[0] + Flatten(chunks[1..][..j - 1])
  {
    assert chunks[..j][1..] == chunks[1..][..j - 1];
  }

  /** After a chunk that left the parser waiting, the bad boundaries are those still to come. */
  lemma {:induction false} CutBadlyResumes(st: ParserState, held: Bytes, chunks: seq<Bytes>, lim: ProtocolLimits)
    requires chunks != [] && Drain(st, held + chunks[0], lim).tail.Pending?
    ensures var d := Drain(st, held + chunks[0], lim);
      CutBadly(st, held, chunks, lim) <==> CutBadly(d.tail.st, d.tail.rest, chunks[1..], lim)
  {
    hide Drain, BadCut;
    var b, more := held + chunks[0], Flatten(chunks[1..]);
    var d := Drain(st, b, lim);
    assert held + Flatten(chunks) == b + more;
    forall j | 1 <= j <= |chunks|
      ensures BadCut(st, b + more, |held| + |Flatten(chunks[..j])|, lim) <==>
                j > 1 && BadCut(d.tail.st, d.tail.rest + more, |d.tail.rest| + |Flatten(chunks[1..][..j - 1])|, lim)
    {
      BoundaryAfterFirst(chunks, j);
      var k := |b| + |Flatten(chunks[1..][..j - 1])|;
      BadCutResumes(st, b, more, k, lim);
      if j == 1 {
        assert (b + more)[..k] == b;
        if BadCut(st, b + more, k, lim) {
          BadCutFails(st, b + more, k, lim);
        }
      }
    }
    if CutBadly(d.tail.st, d.tail.rest, chunks[1..], lim) {
      var j :| 1 <= j <= |chunks[1..]| &&
               BadCut(d.tail.st, d.tail.rest + more, |d.tail.rest| + |Flatten(chunks[1..][..j])|, lim);
      assert BadCut(st, b + more, |held| + |Flatten(chunks[..j + 1])|, lim);
    }
  }

  /** Once a chunk has failed, only its own end can have been a bad cut. */
  lemma {:induction false} CutBadlyAtFailure(st: ParserState, held: Bytes, chunks: seq<Bytes>, lim: ProtocolLimits)
    requires chunks != [] && Drain(st, held + chunks[0], lim).tail.Failed?
    ensures CutBadly(st, held, chunks, lim) <==>
              BadCut(st, held + chunks[0] + Flatten(chunks[1..]), |held + chunks[0]|, lim)
  {
    hide Drain, BadCut;
    var b, more := held + chunks[0], Flatten(chunks[1..]);
    assert held + Flatten(chunks) == b + more;
    BoundaryAfterFirst(chunks, 1);
    if CutBadly(st, held, chunks, lim) && !BadCut(st, b + more, |b|, lim) {
      var j :| 1 <= j <= |chunks| && BadCut(st, held + Flatten(chunks), |held| + |Flatten(chunks[..j])|, lim);
      BoundaryAfterFirst(chunks, j);
      FailureStays(st, b, more, lim);
      assert false;
    }
  }

  lemma MoreArgvsDisagree(a: Stream, b: Stream)
    requires |a.argvs| < |b.argvs|
    ensures !Agree(a, b)
  {}

  lemma NoChunks(st: ParserState, held: Bytes, lim: ProtocolLimits)
    requires Quiescent(st, held, lim)
    ensures Agree(Feed(st, held, [], lim), Drain(st, held + Flatten([]), lim)) && !CutBadly(st, held, [], lim)
  {
    var nothing: seq<Bytes> := [];
    assert held + Flatten(nothing) == held;
    assert Parse(st, held, lim) == Incomplete(st, held);
  }

  /**
   Chunking independence. However a stream is cut into reads, the parser delivers the same
   argument vectors in the same order and reaches the same verdict, state and leftover as if
   it had arrived at once -- if and only if no cut separates the `\r` from the `\n` of an
   inline line of exactly `maxInlineLen` bytes.
   */
  lemma {:induction false} ChunkingIndependence(st: ParserState, held: Bytes, chunks: seq<Bytes>, lim: ProtocolLimits)
    requires Quiescent(st, held, lim)
    ensures Agree(Feed(st, held, chunks, lim), Drain(st, held + Flatten(chunks), lim)) <==>
              !CutBadly(st, held, chunks, lim)
    decreases |chunks|
  {
    hide Drain, BadCut, CutBadly, Quiescent, Agree;
    if chunks == [] {
      NoChunks(st, held, lim);
    } else {
      var b, more := held + chunks[0], Flatten(chunks[1..]);
      var d := Drain(st, b, lim);
      assert held + Flatten(chunks) == b + more;
      if d.tail.Pending? {
        DrainQuiescent(st, b, lim);
        DrainResumes(st, b, more, lim);
        CutBadlyResumes(st, held, chunks, lim);
        ChunkingIndependence(d.tail.st, d.tail.rest, chunks[1..], lim);
        AgreeAfter(d.argvs, Feed(d.tail.st, d.tail.rest, chunks[1..], lim), Drain(d.tail.st, d.tail.rest + more, lim));
      } else {
        CutBadlyAtFailure(st, held, chunks, lim);
        if BadCut(st, b + more, |b|, lim) {
          BadCutLoses(st, b, more, lim);
          MoreArgvsDisagree(d, Drain(st, b + more, lim));
        } else {
          FailureStays(st, b, more, lim);
        }
      }
    }
  }

  /** The exception is real: with a limit of one byte, `a\r` then `\n` fails where `a\r\n` is a command. */
  lemma CutChangesVerdict()
    ensures var lim := ProtocolLimits(1, 1, 1);
      && Feed(Start, [], [[97, CR], [LF]], lim).tail == Failed(TooBigInline)
      && Feed(Start, [], [[97, CR, LF]], lim) == Stream([[[97]]], Pending(Start, []))
  {
    var lim := ProtocolLimits(1, 1, 1);
    var cut, whole: Bytes := [97, CR], [97, CR, LF];
    assert [] + cut == cut && [] + whole == whole;
    assert Drain(Start, cut, lim).tail == Failed(TooBigInline) by {
      assert IndexOf(cut, LF) == -1;
      assert Parse(Start, cut, lim) == Error(TooBigInline, cut[0..]);
    }
    OneLetterLine(lim);
    assert Feed(Start, [], [], lim) == Stream([], Pending(Start, []));
    assert [[[97]]] + [] == [[[97]]];
  }

  lemma OneLetterLine(lim: ProtocolLimits)
    requires lim.maxInlineLen == 1
    ensures Drain(Start, [97, CR, LF], lim) == Stream([[[97]]], Pending(Start, []))
  {
    var whole: Bytes := [97, CR, LF];

    assert whole[2] == LF;
    var one: Bytes := [97];
    assert whole[..1] == one && one[1..] == [];
    assert Bare(one) == Prepend(one, Bare([])) == Word(one, []);
    assert Words(one) == Cons(one, Words([]));
    assert InlineStep(whole, lim) == Finish([[97]], 3);
    assert Parse(Start, whole, lim) == Complete([[97]], []);
    assert Drain(Start, [], lim) == Stream([], Pending(Start, []));
    assert [[[97]]] + [] == [[[97]]];
  }
}

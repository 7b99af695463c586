/**
 When the wording of a protocol error depends on how the stream was cut: exactly when a boundary
 falls inside the header or the full inline line in which the stream fails.
 */
module Wording {
  import opened Octets
  import opened IntCodec
  import opened Inline
  import opened Parser
  import opened Chunking

  /** A `*` or `$` header is due. */
  predicate AtHeader(st: ParserState, b: Bytes) {
    st.ArgLen? || (st == Start && b != [] && b[0] == STAR)
  }

  /** A cut at `k` leaves more than a header may have, but not yet the line end of this one. */
  predicate HeaderCut(st: ParserState, b: Bytes, k: int) {
    AtHeader(st, b) && MAX_HEADER < k <= IndexOfCrlf(b) + 1
  }

  /** Cutting at `k` changes which error is reported for the token that `b` starts with. */
  predicate TokenCut(st: ParserState, b: Bytes, k: int, lim: ProtocolLimits) {
    HeaderCut(st, b, k) || (FullInlineLine(st, b, lim) && k == lim.maxInlineLen + 1)
  }

  /** The stream fails, and position `k` is such a cut of the token in which it fails. */
  predicate WordingCut(st: ParserState, b: Bytes, k: int, lim: ProtocolLimits)
    decreases |b|
  {
    match TakeStep(st, b, lim)
    case Wait => false
    case Advance(next, used) => WordingCut(next, b[used..], k - used, lim)
    case Finish(_, used) => WordingCut(Start, b[used..], k - used, lim)
    case Reject(_, _) => TokenCut(st, b, k, lim)
  }

  // ----- One token

  lemma HeaderWording(st: ParserState, b: Bytes, more: Bytes, lim: ProtocolLimits)
    requires AtHeader(st, b)
    requires TakeStep(st, b, lim).Reject? && TakeStep(st, b + more, lim).Reject?
    ensures TakeStep(st, b, lim).error == TakeStep(st, b + more, lim).error <==> !HeaderCut(st, b + more, |b|)
    ensures !HeaderCut(st, b + more, |b|) ==> forall k :: k > |b| ==> !HeaderCut(st, b + more, k)
  {
    var crlf := IndexOfCrlf(b);
    LaterCrlf(b, more);
    if crlf > 0 {
      assert (b + more)[1..crlf] == b[1..crlf];
    }
  }

  lemma InlineWording(b: Bytes, more: Bytes, lim: ProtocolLimits)
    requires b != [] && b[0] != STAR
    requires InlineStep(b, lim).Reject? && InlineStep(b + more, lim).Reject?
    ensures InlineStep(b, lim).error == InlineStep(b + more, lim).error <==>
              !(FullInlineLine(Start, b + more, lim) && |b| == lim.maxInlineLen + 1)
  {
    hide Words, IndexOf;
    LaterIndex(b, more, LF);
    if IndexOf(b, LF) >= 0 {
      InlineStepStable(b, more, lim);
    } else {
      var nl := IndexOf(b + more, LF);
      assert InlineStep(b, lim).error == TooBigInline && |b| > lim.maxInlineLen;
      if nl >= 0 {
        assert nl >= |b|;
        assert FullInlineLine(Start, b + more, lim) <==> (b + more)[nl - 1] == CR && nl == lim.maxInlineLen + 1;
      }
    }
  }

  /** Two rejections of one token, with fewer and with more bytes: the same error, or the cut is to blame. */
  lemma TokenWording(st: ParserState, b: Bytes, more: Bytes, lim: ProtocolLimits)
    requires TakeStep(st, b, lim).Reject? && TakeStep(st, b + more, lim).Reject?
    ensures TakeStep(st, b, lim).error == TakeStep(st, b + more, lim).error <==> !TokenCut(st, b + more, |b|, lim)
    ensures !TokenCut(st, b + more, |b|, lim) ==> forall k :: k > |b| ==> !TokenCut(st, b + more, k, lim)
  {
    hide Words, IndexOf, IndexOfCrlf, ParseInt;
    assert b != [] ==> (b + more)[0] == b[0];
    if AtHeader(st, b) {
      HeaderWording(st, b, more, lim);
    } else if st.ArgData? {
      PayloadStepStable(st.remaining, st.args, st.len, b, more);
    } else {
      InlineWording(b, more, lim);
      LaterIndex(b, more, LF);
      assert IndexOf(b, LF) >= 0 ==> IndexOf(b + more, LF) < |b|;
    }
  }

  /** A token cut this way is rejected. */
  lemma TokenCutRejects(st: ParserState, b: Bytes, k: int, lim: ProtocolLimits)
    requires TokenCut(st, b, k, lim)
    ensures 0 < k <= |b| && TakeStep(st, b[..k], lim).Reject?
  {
    assert k <= |b|;
    assert b[..k][0] == b[0];
    if HeaderCut(st, b, k) {
      assert forall i :: CrlfAt(b[..k], i) ==> CrlfAt(b, i);
    } else {
      assert IndexOf(b[..k], LF) < 0;
    }
  }

  // ----- The whole stream, token by token

  lemma DrainToken(st: ParserState, b: Bytes, lim: ProtocolLimits)
    ensures var s, d := TakeStep(st, b, lim), Drain(st, b, lim);
      && (s.Wait? ==> d == Stream([], Pending(st, b)))
      && (s.Advance? ==> d == Drain(s.next, b[s.used..], lim))
      && (s.Finish? ==> d == After([s.argv], Drain(Start, b[s.used..], lim)))
      && (s.Reject? ==> d == Stream([], Failed(s.error)))
  {
    hide TakeStep;
  }

  lemma BadCutToken(st: ParserState, b: Bytes, k: int, lim: ProtocolLimits)
    ensures var s := TakeStep(st, b, lim);
      && (s.Advance? ==> (BadCut(st, b, k, lim) <==> BadCut(s.next, b[s.used..], k - s.used, lim)))
      && (s.Finish? ==> (BadCut(Start, b[s.used..], k - s.used, lim) ==> BadCut(st, b, k, lim)))
      && (s.Finish? && FullInlineLine(st, b, lim) && k == lim.maxInlineLen + 1 ==> BadCut(st, b, k, lim))
  {
    hide TakeStep, FullInlineLine, BadCut;
    var s := TakeStep(st, b, lim);
    if s.Advance? {
      AdvanceIsNotInline(st, b, lim);
      NotInline(s.next, b[s.used..], lim);
      BadCutUnfolds(st, b, k, lim);
      BadCutUnfolds(s.next, b[s.used..], k - s.used, lim);
    } else if s.Finish? {
      BadCutUnfolds(st, b, k, lim);
    }
  }

  lemma BadCutUnfolds(st: ParserState, b: Bytes, k: int, lim: ProtocolLimits)
    ensures var r := Parse(st, b, lim);
      BadCut(st, b, k, lim) <==>
        r.Complete? && ((FullInlineLine(st, b, lim) && k == lim.maxInlineLen + 1)
                        || BadCut(Start, r.rest, k - (|b| - |r.rest|), lim))
  {
    hide Parse, FullInlineLine;
  }

  lemma AdvanceIsNotInline(st: ParserState, b: Bytes, lim: ProtocolLimits)
    requires TakeStep(st, b, lim).Advance?
    ensures !FullInlineLine(st, b, lim)
  {
    hide Words, IndexOf, ParseInt;
  }

  lemma NotInline(st: ParserState, b: Bytes, lim: ProtocolLimits)
    requires st != Start
    ensures !FullInlineLine(st, b, lim)
  {}

  /** What a failing prefix reports is what the stream reports, unless the prefix ends in such a cut. */
  lemma {:induction false} FailureWording(st: ParserState, b: Bytes, more: Bytes, lim: ProtocolLimits)
    requires Drain(st, b, lim).tail.Failed? && !BadCut(st, b + more, |b|, lim)
    ensures Drain(st, b, lim) == Drain(st, b + more, lim) <==> !WordingCut(st, b + more, |b|, lim)
    ensures !WordingCut(st, b + more, |b|, lim) ==> forall k :: k > |b| ==> !WordingCut(st, b + more, k, lim)
    decreases |b|
  {
    hide TakeStep, Drain, BadCut, TokenCut, FullInlineLine;
    var s := TakeStep(st, b, lim);
    DrainToken(st, b, lim);
    DrainToken(st, b + more, lim);
    StepStable(st, b, more, lim);
    BadCutToken(st, b + more, |b|, lim);
    if s.Advance? || s.Finish? {
      var next := if s.Advance? then s.next else Start;
      assert (b + more)[s.used..] == b[s.used..] + more;
      FailureWording(next, b[s.used..], more, lim);
      forall k | k > |b| && !WordingCut(st, b + more, |b|, lim) ensures !WordingCut(st, b + more, k, lim) {
        assert !WordingCut(next, b[s.used..] + more, k - s.used, lim);
      }
      if s.Finish? {
        SameAfter([s.argv], Drain(Start, b[s.used..], lim), Drain(Start, b[s.used..] + more, lim));
      }
    } else if TakeStep(st, b + more, lim).Reject? {
      TokenWording(st, b, more, lim);
    }
  }

  lemma SameAfter(argvs: seq<seq<Bytes>>, a: Stream, b: Stream)
    ensures After(argvs, a) == After(argvs, b) <==> a == b
  {
    assert (argvs + a.argvs)[|argvs|..] == a.argvs;
    assert (argvs + b.argvs)[|argvs|..] == b.argvs;
  }

  lemma {:induction false} WordingCutIsInside(st: ParserState, b: Bytes, k: int, lim: ProtocolLimits)
    requires WordingCut(st, b, k, lim)
    ensures 0 < k <= |b|
    decreases |b|
  {
    hide TakeStep, TokenCut;
    match TakeStep(st, b, lim) {
      case Wait =>
      case Advance(next, used) => WordingCutIsInside(next, b[used..], k - used, lim);
      case Finish(_, used) => WordingCutIsInside(Start, b[used..], k - used, lim);
      case Reject(_, _) => TokenCutRejects(st, b, k, lim);
    }
  }

  /** A prefix that ends in such a cut fails. */
  lemma {:induction false} WordingCutFails(st: ParserState, b: Bytes, k: int, lim: ProtocolLimits)
    requires 0 <= k <= |b| && WordingCut(st, b, k, lim)
    ensures Drain(st, b[..k], lim).tail.Failed?
    decreases |b|
  {
    hide TakeStep, Drain, TokenCut;
    var s := TakeStep(st, b, lim);
    DrainToken(st, b[..k], lim);
    if s.Advance? || s.Finish? {
      var next := if s.Advance? then s.next else Start;
      WordingCutIsInside(next, b[s.used..], k - s.used, lim);
      StepWithin(st, b, k, lim);
      assert b[..k][s.used..] == b[s.used..][..k - s.used];
      WordingCutFails(next, b[s.used..], k - s.used, lim);
    } else if s.Reject? {
      TokenCutRejects(st, b, k, lim);
    }
  }

  /** After a prefix that left the parser waiting, such cuts are those of what is left. */
  lemma {:induction false} WordingCutResumes(st: ParserState, b: Bytes, more: Bytes, k: int, lim: ProtocolLimits)
    requires Drain(st, b, lim).tail.Pending?
    ensures var d := Drain(st, b, lim);
      WordingCut(st, b + more, k, lim) <==> WordingCut(d.tail.st, d.tail.rest + more, k - (|b| - |d.tail.rest|), lim)
    decreases |b|
  {
    hide TakeStep, Drain, TokenCut;
    var s := TakeStep(st, b, lim);
    DrainToken(st, b, lim);
    StepStable(st, b, more, lim);
    if s.Advance? || s.Finish? {
      assert (b + more)[s.used..] == b[s.used..] + more;
      WordingCutResumes(if s.Advance? then s.next else Start, b[s.used..], more, k - s.used, lim);
    }
  }

  // ----- Any number of chunks

  /** Some boundary between two chunks is such a cut of the stream. */
  ghost predicate CutInWord(st: ParserState, held: Bytes, chunks: seq<Bytes>, lim: ProtocolLimits) {
    exists j :: 1 <= j <= |chunks| && WordingCut(st, held + Flatten(chunks), |held| + |Flatten(chunks[..j])|, lim)
  }

  lemma {:induction false} CutInWordResumes(st: ParserState, held: Bytes, chunks: seq<Bytes>, lim: ProtocolLimits)
    requires chunks != [] && Drain(st, held + chunks[0], lim).tail.Pending?
    ensures var d := Drain(st, held + chunks[0], lim);
      CutInWord(st, held, chunks, lim) <==> CutInWord(d.tail.st, d.tail.rest, chunks[1..], lim)
  {
    hide Drain, WordingCut;
    var b, more := held + chunks[0], Flatten(chunks[1..]);
    var d := Drain(st, b, lim);
    assert held + Flatten(chunks) == b + more;
    forall j | 1 <= j <= |chunks|
      ensures WordingCut(st, b + more, |held| + |Flatten(chunks[..j])|, lim) <==>
                j > 1 && WordingCut(d.tail.st, d.tail.rest + more, |d.tail.rest| + |Flatten(chunks[1..][..j - 1])|, lim)
    {
      BoundaryAfterFirst(chunks, j);
      var k := |b| + |Flatten(chunks[1..][..j - 1])|;
      WordingCutResumes(st, b, more, k, lim);
      if j == 1 {
        assert (b + more)[..k] == b;
        if WordingCut(st, b + more, k, lim) {
          WordingCutFails(st, b + more, k, lim);
        }
      }
    }
    if CutInWord(d.tail.st, d.tail.rest, chunks[1..], lim) {
      var j :| 1 <= j <= |chunks[1..]| &&
               WordingCut(d.tail.st, d.tail.rest + more, |d.tail.rest| + |Flatten(chunks[1..][..j])|, lim);
      assert WordingCut(st, b + more, |held| + |Flatten(chunks[..j + 1])|, lim);
    }
  }

  lemma {:induction false} CutInWordAtFailure(st: ParserState, held: Bytes, chunks: seq<Bytes>, lim: ProtocolLimits)
    requires chunks != [] && Drain(st, held + chunks[0], lim).tail.Failed?
    requires !BadCut(st, held + chunks[0] + Flatten(chunks[1..]), |held + chunks[0]|, lim)
    ensures CutInWord(st, held, chunks, lim) <==>
              WordingCut(st, held + chunks[0] + Flatten(chunks[1..]), |held + chunks[0]|, lim)
  {
    hide Drain, BadCut, WordingCut;
    var b, more := held + chunks[0], Flatten(chunks[1..]);
    assert held + Flatten(chunks) == b + more;
    BoundaryAfterFirst(chunks, 1);
    if CutInWord(st, held, chunks, lim) && !WordingCut(st, b + more, |b|, lim) {
      var j :| 1 <= j <= |chunks| && WordingCut(st, held + Flatten(chunks), |held| + |Flatten(chunks[..j])|, lim);
      BoundaryAfterFirst(chunks, j);
      FailureWording(st, b, more, lim);
      assert false;
    }
  }

  /**
   Cutting a stream into reads changes nothing at all, the wording of an error included, if and only
   if no boundary is a bad cut and none falls inside the overlong header, or between `\r` and `\n` of
   the full inline line, in which the stream fails.
   */
  lemma {:induction false} WordingIndependence(st: ParserState, held: Bytes, chunks: seq<Bytes>, lim: ProtocolLimits)
    requires Quiescent(st, held, lim)
    ensures Feed(st, held, chunks, lim) == Drain(st, held + Flatten(chunks), lim) <==>
              !CutBadly(st, held, chunks, lim) && !CutInWord(st, held, chunks, lim)
    decreases |chunks|
  {
    hide Drain, BadCut, CutBadly, CutInWord, Quiescent, WordingCut;
    if chunks == [] {
      NothingFed(st, held, lim);
    } else {
      var b, more := held + chunks[0], Flatten(chunks[1..]);
      var d := Drain(st, b, lim);
      assert held + Flatten(chunks) == b + more;
      if d.tail.Pending? {
        DrainQuiescent(st, b, lim);
        DrainResumes(st, b, more, lim);
        CutBadlyResumes(st, held, chunks, lim);
        CutInWordResumes(st, held, chunks, lim);
        WordingIndependence(d.tail.st, d.tail.rest, chunks[1..], lim);
        SameAfter(d.argvs, Feed(d.tail.st, d.tail.rest, chunks[1..], lim), Drain(d.tail.st, d.tail.rest + more, lim));
      } else {
        CutBadlyAtFailure(st, held, chunks, lim);
        if BadCut(st, b + more, |b|, lim) {
          BadCutLoses(st, b, more, lim);
        } else {
          CutInWordAtFailure(st, held, chunks, lim);
          FailureWording(st, b, more, lim);
        }
      }
    }
  }

  lemma NothingFed(st: ParserState, held: Bytes, lim: ProtocolLimits)
    requires Quiescent(st, held, lim)
    ensures Feed(st, held, [], lim) == Drain(st, held + Flatten([]), lim)
    ensures !CutBadly(st, held, [], lim) && !CutInWord(st, held, [], lim)
  {
    hide BadCut, WordingCut;
    var nothing: seq<Bytes> := [];
    assert held + Flatten(nothing) == held;
    DrainToken(st, held, lim);
  }

  /** The wording does depend on the cut: 65 stars are too long a header, with a line end they are an invalid count. */
  lemma CutChangesWording(lim: ProtocolLimits)
    ensures var header: Bytes := seq(65, _ => STAR);
      && Feed(Start, [], [header, CRLF], lim) == Stream([], Failed(TooBigMultibulkCount))
      && Feed(Start, [], [header + CRLF], lim) == Stream([], Failed(InvalidMultibulkLength))
  {
    var header: Bytes := seq(65, _ => STAR);
    assert [] + header == header && [] + (header + CRLF) == header + CRLF;
    assert IndexOfCrlf(header) < 0;
    CrlfAfter(header);
    assert |(header + CRLF)[1..65]| == 64;
    assert TakeStep(Start, header, lim) == Reject(TooBigMultibulkCount, 0);
    assert TakeStep(Start, header + CRLF, lim) == Reject(InvalidMultibulkLength, 0);
    DrainToken(Start, header, lim);
    DrainToken(Start, header + CRLF, lim);
  }
}

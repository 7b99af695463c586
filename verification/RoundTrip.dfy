/** Requests written with the RESP2 encoders come back out of the parser unchanged. */
module RoundTrip {
  import opened Octets
  import opened IntCodec
  import opened Inline
  import opened Parser
  import opened Chunking
  import Writer
  import Replies

  function Bulks(args: seq<Bytes>): Bytes {
    if args == [] then [] else Writer.BulkString(args[0]) + Bulks(args[1..])
  }

  /** A command as an array of bulk strings. */
  function Request(argv: seq<Bytes>): Bytes {
    Writer.ArrayHeader(|argv|) + Bulks(argv)
  }

  function Requests(cmds: seq<seq<Bytes>>): Bytes {
    if cmds == [] then [] else Request(cmds[0]) + Requests(cmds[1..])
  }

  predicate Fits(argv: seq<Bytes>, lim: ProtocolLimits) {
    && 1 <= |argv| <= lim.maxMultibulkArgs
    && forall i :: 0 <= i < |argv| ==> |argv[i]| <= lim.maxBulkLen
  }

  /** One bulk argument: the header, then the payload taken by length. */
  lemma ParseBulk(remaining: int, done: seq<Bytes>, a: Bytes, rest: Bytes, lim: ProtocolLimits)
    requires |a| <= lim.maxBulkLen
    ensures Parse(ArgLen(remaining, done), Writer.BulkString(a) + rest, lim) ==
              if remaining == 1 then Complete(done + [a], rest)
              else Parse(ArgLen(remaining - 1, done + [a]), rest, lim)
  {
    hide IndexOfCrlf, Writer.IntLine, ParseInt, FormatInt;
    var b := Writer.BulkString(a) + rest;
    var payload := a + CRLF + rest;
    Assoc5([DOLLAR], Writer.IntLine(|a|), a, CRLF, rest);
    Assoc3([DOLLAR], Writer.IntLine(|a|), payload);
    assert b == [DOLLAR] + Writer.IntLine(|a|) + payload;
    Replies.DecodeNumber(DOLLAR, |a|, payload);
    assert TakeStep(ArgLen(remaining, done), b, lim) == Advance(ArgData(remaining, done, |a|), IndexOfCrlf(b) + 2);
    assert Parse(ArgLen(remaining, done), b, lim) == Parse(ArgData(remaining, done, |a|), payload, lim);
    assert payload[..|a|] == a && payload[|a|] == CR && payload[|a| + 1] == LF && payload[|a| + 2..] == rest;
  }

  lemma {:induction false} ParseBulks(done: seq<Bytes>, args: seq<Bytes>, rest: Bytes, lim: ProtocolLimits)
    requires args != [] && forall i :: 0 <= i < |args| ==> |args[i]| <= lim.maxBulkLen
    ensures Parse(ArgLen(|args|, done), Bulks(args) + rest, lim) == Complete(done + args, rest)
    decreases |args|
  {
    hide Parse, Writer.BulkString;
    var tail := Bulks(args[1..]) + rest;
    Assoc3(Writer.BulkString(args[0]), Bulks(args[1..]), rest);
    ParseBulk(|args|, done, args[0], tail, lim);
    if |args| == 1 {
      assert tail == rest && done + [args[0]] == done + args;
    } else {
      ParseBulks(done + [args[0]], args[1..], rest, lim);
      assert done + [args[0]] + args[1..] == done + args;
    }
  }

  /** Parsing inverts encoding for arguments holding any bytes, and takes nothing beyond the request. */
  lemma ParseRequest(argv: seq<Bytes>, rest: Bytes, lim: ProtocolLimits)
    requires Fits(argv, lim)
    ensures Parse(Start, Request(argv) + rest, lim) == Complete(argv, rest)
  {
    var b := Request(argv) + rest;
    hide IndexOfCrlf, Writer.IntLine, ParseInt, FormatInt, Bulks;
    var tail := Bulks(argv) + rest;
    Assoc3([STAR] + Writer.IntLine(|argv|), Bulks(argv), rest);
    assert b == [STAR] + Writer.IntLine(|argv|) + tail;
    Replies.DecodeNumber(STAR, |argv|, tail);
    assert TakeStep(Start, b, lim) == Advance(ArgLen(|argv|, []), IndexOfCrlf(b) + 2);
    assert Parse(Start, b, lim) == Parse(ArgLen(|argv|, []), tail, lim);
    ParseBulks([], argv, rest, lim);
    assert [] + argv == argv;
  }

  lemma {:induction false} DrainRequests(cmds: seq<seq<Bytes>>, k: int, lim: ProtocolLimits)
    requires forall i :: 0 <= i < |cmds| ==> Fits(cmds[i], lim)
    ensures Drain(Start, Requests(cmds), lim) == Stream(cmds, Pending(Start, []))
    ensures !BadCut(Start, Requests(cmds), k, lim)
    decreases |cmds|
  {
    hide Parse, Request;
    var b := Requests(cmds);
    if cmds == [] {
      EmptyWaits(lim);
    } else {
      var rest := Requests(cmds[1..]);
      ParseRequest(cmds[0], rest, lim);
      RequestStartsWithStar(cmds[0], rest);
      DrainRequests(cmds[1..], k - (|b| - |rest|), lim);
      assert [cmds[0]] + cmds[1..] == cmds;
    }
  }

  lemma RequestStartsWithStar(argv: seq<Bytes>, rest: Bytes)
    ensures Request(argv) != [] && (Request(argv) + rest)[0] == STAR
  {
    hide Writer.IntLine, Bulks;
  }

  lemma EmptyWaits(lim: ProtocolLimits)
    ensures Parse(Start, [], lim) == Incomplete(Start, [])
  {}

  /**
   The round trip over a connection: any list of requests within the limits, delivered in
   chunks of any sizes, yields exactly those argument vectors in order and leaves nothing behind.
   */
  lemma RequestsRoundTrip(cmds: seq<seq<Bytes>>, chunks: seq<Bytes>, lim: ProtocolLimits)
    requires forall i :: 0 <= i < |cmds| ==> Fits(cmds[i], lim)
    requires Flatten(chunks) == Requests(cmds)
    ensures Feed(Start, [], chunks, lim) == Stream(cmds, Pending(Start, []))
  {
    hide Drain, BadCut, Feed, TakeStep, Requests, Fits;
    var nothing: Bytes := [];
    EmptyWaits(lim);
    PendingIsQuiescent(Start, nothing, lim);
    ChunkingIndependence(Start, nothing, chunks, lim);
    assert nothing + Flatten(chunks) == Requests(cmds);
    DrainRequests(cmds, 0, lim);
    forall j | 1 <= j <= |chunks|
      ensures !BadCut(Start, nothing + Flatten(chunks), |nothing| + |Flatten(chunks[..j])|, lim)
    {
      DrainRequests(cmds, |Flatten(chunks[..j])|, lim);
    }
    assert !CutBadly(Start, nothing, chunks, lim);
  }

  /**
   Quoting every argument on one inline line, ended by `\n` or by `\r\n`, is read as the same
   command as its multibulk encoding.
   */
  lemma InlineAgreesWithMultibulk(argv: seq<Bytes>, crBeforeNewline: bool, rest: Bytes, lim: ProtocolLimits)
    requires Fits(argv, lim) && |QuotedLine(argv)| <= lim.maxInlineLen
    ensures var ending := if crBeforeNewline then CRLF else [LF];
      && Parse(Start, QuotedLine(argv) + ending + rest, lim) == Complete(argv, rest)
      && Parse(Start, Request(argv) + rest, lim) == Complete(argv, rest)
  {
    var line := QuotedLine(argv);
    var ending := if crBeforeNewline then CRLF else [LF];
    ParseRequest(argv, rest, lim);
    WordsOfQuotedLine(argv);
    QuotedLineHasNoNewline(argv);
    ParseLine(line, argv, ending, rest, lim);
  }

  /** A line of balanced words within the limit is a command whichever way it ends. */
  lemma ParseLine(line: Bytes, words: seq<Bytes>, ending: Bytes, rest: Bytes, lim: ProtocolLimits)
    requires line != [] && |line| <= lim.maxInlineLen && Words(line) == Some(words)
    requires LF !in line && line[0] != STAR && line[|line| - 1] != CR
    requires ending == [LF] || ending == CRLF
    ensures Parse(Start, line + ending + rest, lim) == Complete(words, rest)
  {
    hide Words;
    var b := line + ending + rest;
    var nl := |line| + |ending| - 1;
    assert b[nl] == LF;
    forall i | 0 <= i < nl ensures b[i] != LF {
      if i < |line| { assert b[i] == line[i] && line[i] in line; }
    }
    assert IndexOf(b, LF) == nl;
    assert b[..|line|] == line && b[nl + 1..] == rest;
    assert b[0] == line[0] && b[|line| - 1] == line[|line| - 1];
    assert InlineStep(b, lim) == Finish(words, nl + 1);
    assert TakeStep(Start, b, lim) == InlineStep(b, lim);
  }
}

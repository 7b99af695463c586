/**
 The requests the parser accepts, written down as a syntax, and what it answers to everything else:
 each malformed header, frame and line with its own error.
 */
module Syntax {
  import opened Octets
  import opened IntCodec
  import opened Inline
  import opened Parser
  import Replies

  // ----- Multibulk requests

  /** An argument as sent: its length in digits, and its bytes. */
  datatype Arg = Arg(size: Bytes, data: Bytes)

  predicate GoodArg(a: Arg, lim: ProtocolLimits) {
    ParseInt(a.size) == Some(|a.data|) && |a.data| <= lim.maxBulkLen
  }

  predicate GoodArgs(args: seq<Arg>, lim: ProtocolLimits) {
    forall i :: 0 <= i < |args| ==> GoodArg(args[i], lim)
  }

  function SpellArg(a: Arg): Bytes {
    [36] + a.size + CRLF + (a.data + CRLF)
  }

  function SpellArgs(args: seq<Arg>): Bytes {
    if args == [] then [] else SpellArg(args[0]) + SpellArgs(args[1..])
  }

  function DataOf(args: seq<Arg>): (d: seq<Bytes>)
    ensures |d| == |args|
  {
    if args == [] then [] else [args[0].data] + DataOf(args[1..])
  }

  /** A number and a line end after a marker. */
  function Header(marker: Octet, number: Bytes, rest: Bytes): Bytes {
    [marker] + number + CRLF + rest
  }

  lemma NumberHasNoCrlf(s: Bytes)
    requires ParseInt(s).Some?
    ensures IndexOfCrlf(s) < 0
  {
    hide IndexOfCrlf;
    forall i | 0 <= i < |s| ensures s[i] != CR {
      if s[0] == MINUS {
        assert i > 0 ==> s[i] == s[1..][i - 1] && IsDigit(s[1..][i - 1]);
      }
    }
  }

  /** A line is cut at its first line end. */
  lemma HeaderIsCut(b: Bytes)
    requires IndexOfCrlf(b) > 0
    ensures var k := IndexOfCrlf(b);
      k + 2 <= |b| && b == Header(b[0], b[1..k], b[k + 2..]) && IndexOfCrlf(b[1..k]) < 0
  {
    hide IndexOfCrlf;
    var k := IndexOfCrlf(b);
    FourParts(b, k);
    var text := b[1..k];
    assert forall i :: CrlfAt(text, i) ==> CrlfAt(b, i + 1);
  }

  lemma FourParts(b: Bytes, k: nat)
    requires 0 < k && CrlfAt(b, k)
    ensures b == [b[0]] + b[1..k] + CRLF + b[k + 2..]
  {
    assert b[..1] == [b[0]] && b[k..k + 2] == CRLF;
    assert b == b[..1] + b[1..k] + b[k..k + 2] + b[k + 2..];
  }

  lemma CountLine(count: Bytes, rest: Bytes, lim: ProtocolLimits)
    requires IndexOfCrlf(count) < 0
    ensures var b := Header(42, count, rest);
      Parse(Start, b, lim) ==
        match ParseInt(count)
        case None => Error(InvalidMultibulkLength, b)
        case Some(n) =>
          if n > lim.maxMultibulkArgs then Error(InvalidMultibulkLength, b)
          else if n <= 0 then Complete([], rest)
          else Parse(ArgLen(n, []), rest, lim)
  {
    hide IndexOfCrlf, ParseInt;
    var b := Header(42, count, rest);
    Replies.LineEnd(42, count, rest);
    assert b[0] == 42 && b[0..] == b;
    assert TakeStep(Start, b, lim) == CountStep(b, lim);
  }

  lemma SizeLine(remaining: int, args: seq<Bytes>, marker: Octet, size: Bytes, rest: Bytes, lim: ProtocolLimits)
    requires IndexOfCrlf(size) < 0 && marker != CR
    ensures var b := Header(marker, size, rest);
      Parse(ArgLen(remaining, args), b, lim) ==
        if marker != 36 then Error(ExpectedDollar(marker), b)
        else match ParseInt(size)
             case None => Error(InvalidBulkLength, b)
             case Some(n) =>
               if n < 0 || n > lim.maxBulkLen then Error(InvalidBulkLength, b)
               else Parse(ArgData(remaining, args, n), rest, lim)
  {
    hide IndexOfCrlf, ParseInt;
    var b := Header(marker, size, rest);
    Replies.LineEnd(marker, size, rest);
    assert b[0] == marker && b[0..] == b;
    assert TakeStep(ArgLen(remaining, args), b, lim) == LengthStep(remaining, args, b, lim);
  }

  /** An empty line where a `$` header is due. */
  lemma EmptySizeLine(remaining: int, args: seq<Bytes>, rest: Bytes, lim: ProtocolLimits)
    ensures Parse(ArgLen(remaining, args), CRLF + rest, lim) == Error(ExpectedDollar(32), CRLF + rest)
  {
    var b := CRLF + rest;
    assert CrlfAt(b, 0);
    assert b[0..] == b;
    assert TakeStep(ArgLen(remaining, args), b, lim) == Reject(ExpectedDollar(32), 0);
  }

  lemma Payload(remaining: int, args: seq<Bytes>, data: Bytes, end: Bytes, rest: Bytes, lim: ProtocolLimits)
    requires |end| == 2
    ensures var b := data + end + rest;
      Parse(ArgData(remaining, args, |data|), b, lim) ==
        if end != CRLF then Error(InvalidBulkLength, b)
        else if remaining == 1 then Complete(args + [data], rest)
        else Parse(ArgLen(remaining - 1, args + [data]), rest, lim)
  {
    var b := data + end + rest;
    var len := |data|;
    assert b[..len] == data && b[len] == end[0] && b[len + 1] == end[1] && b[len + 2..] == rest && b[0..] == b;
    assert end == [end[0], end[1]];
    assert TakeStep(ArgData(remaining, args, len), b, lim) == PayloadStep(remaining, args, len, b);
  }

  /** A header that is too long without a line end. */
  lemma LongHeader(st: ParserState, b: Bytes, lim: ProtocolLimits)
    requires |b| > 64 && IndexOfCrlf(b) < 0 && (st.ArgLen? || (st == Start && b[0] == 42))
    ensures Parse(st, b, lim) == Error(if st == Start then TooBigMultibulkCount else TooBigBulkCount, b)
  {
    hide IndexOfCrlf;
    assert b[0..] == b;
  }

  lemma OneArg(remaining: int, done: seq<Bytes>, a: Arg, rest: Bytes, lim: ProtocolLimits)
    requires GoodArg(a, lim)
    ensures Parse(ArgLen(remaining, done), SpellArg(a) + rest, lim) ==
              if remaining == 1 then Complete(done + [a.data], rest)
              else Parse(ArgLen(remaining - 1, done + [a.data]), rest, lim)
  {
    hide Parse, ParseInt, IndexOfCrlf;
    var tail := a.data + CRLF + rest;
    NumberHasNoCrlf(a.size);
    Assoc3([36] + a.size + CRLF, a.data + CRLF, rest);
    SizeLine(remaining, done, 36, a.size, tail, lim);
    Payload(remaining, done, a.data, CRLF, rest, lim);
  }

  lemma {:induction false} ManyArgs(done: seq<Bytes>, args: seq<Arg>, rest: Bytes, lim: ProtocolLimits)
    requires args != [] && GoodArgs(args, lim)
    ensures Parse(ArgLen(|args|, done), SpellArgs(args) + rest, lim) == Complete(done + DataOf(args), rest)
    decreases |args|
  {
    hide Parse, SpellArg, GoodArg;
    var tail := SpellArgs(args[1..]) + rest;
    Assoc3(SpellArg(args[0]), SpellArgs(args[1..]), rest);
    OneArg(|args|, done, args[0], tail, lim);
    if |args| == 1 {
      assert tail == rest;
      assert DataOf(args) == [args[0].data];
    } else {
      ManyArgs(done + [args[0].data], args[1..], rest, lim);
      Assoc3(done, [args[0].data], DataOf(args[1..]));
    }
  }

  /** A count, and as many arguments as it says; or a count that says none. */
  predicate GoodRequest(count: Bytes, args: seq<Arg>, lim: ProtocolLimits) {
    && ParseInt(count).Some? && ParseInt(count).value <= lim.maxMultibulkArgs
    && (if args == [] then ParseInt(count).value <= 0 else ParseInt(count).value == |args|)
    && GoodArgs(args, lim)
  }

  /** Every request so spelled is that command. */
  lemma RequestIsRead(count: Bytes, args: seq<Arg>, rest: Bytes, lim: ProtocolLimits)
    requires GoodRequest(count, args, lim)
    ensures Parse(Start, Header(42, count, SpellArgs(args) + rest), lim) == Complete(DataOf(args), rest)
  {
    hide Parse, ParseInt, IndexOfCrlf;
    NumberHasNoCrlf(count);
    CountLine(count, SpellArgs(args) + rest, lim);
    if args == [] {
      assert SpellArgs(args) + rest == rest;
    } else {
      ManyArgs([], args, rest, lim);
      assert [] + DataOf(args) == DataOf(args);
    }
  }

  /** Arguments that complete a request are so spelled. */
  lemma {:induction false} ArgsAreSpelled(remaining: int, done: seq<Bytes>, b: Bytes, lim: ProtocolLimits)
    returns (args: seq<Arg>)
    requires remaining >= 1 && Parse(ArgLen(remaining, done), b, lim).Complete?
    ensures var r := Parse(ArgLen(remaining, done), b, lim);
      && |args| == remaining && GoodArgs(args, lim)
      && b == SpellArgs(args) + r.rest && r.argv == done + DataOf(args)
    decreases |b|
  {
    hide ParseInt, IndexOfCrlf, Parse;
    var r := Parse(ArgLen(remaining, done), b, lim);
    var size, data, tail := FirstArg(remaining, done, b, lim);
    var a := Arg(size, data);
    assert b == SpellArg(a) + tail;
    OneArg(remaining, done, a, tail, lim);
    if remaining == 1 {
      args := [a];
      assert SpellArgs(args) == SpellArg(a) && DataOf(args) == [data] by {
        LastArg(a);
      }
    } else {
      var later := ArgsAreSpelled(remaining - 1, done + [data], tail, lim);
      args := [a] + later;
      assert args[1..] == later;
      Assoc3(SpellArg(a), SpellArgs(later), r.rest);
      Assoc3(done, [data], DataOf(later));
    }
  }

  lemma LastArg(a: Arg)
    ensures SpellArgs([a]) == SpellArg(a) && DataOf([a]) == [a.data]
  {
    assert [a][1..] == [];
  }

  lemma FirstArg(remaining: int, done: seq<Bytes>, b: Bytes, lim: ProtocolLimits)
    returns (size: Bytes, data: Bytes, tail: Bytes)
    requires Parse(ArgLen(remaining, done), b, lim).Complete?
    ensures GoodArg(Arg(size, data), lim) && b == SpellArg(Arg(size, data)) + tail && |tail| < |b|
  {
    hide ParseInt, IndexOfCrlf, Header, Parse;
    SizeIsThere(remaining, done, b, lim);
    var k := IndexOfCrlf(b);
    HeaderIsCut(b);
    size := b[1..k];
    var body := b[k + 2..];
    SizeLine(remaining, done, 36, size, body, lim);
    var n := ParseInt(size).value;
    PayloadIsThere(remaining, done, n, body, lim);
    data, tail := body[..n], body[n + 2..];
    Assoc3([36] + size + CRLF, data + CRLF, tail);
    Unfolded(size, data + CRLF + tail);
  }

  lemma Unfolded(size: Bytes, rest: Bytes)
    ensures Header(36, size, rest) == [36] + size + CRLF + rest
  {}

  lemma SizeIsThere(remaining: int, done: seq<Bytes>, b: Bytes, lim: ProtocolLimits)
    requires Parse(ArgLen(remaining, done), b, lim).Complete?
    ensures IndexOfCrlf(b) > 0 && b[0] == 36
  {
    hide ParseInt, IndexOfCrlf;
  }

  lemma PayloadIsThere(remaining: int, done: seq<Bytes>, n: nat, body: Bytes, lim: ProtocolLimits)
    requires Parse(ArgData(remaining, done, n), body, lim).Complete?
    ensures n + 2 <= |body| && body == body[..n] + CRLF + body[n + 2..]
  {
    assert TakeStep(ArgData(remaining, done, n), body, lim) == PayloadStep(remaining, done, n, body);
    assert n + 2 <= |body| && body[n..n + 2] == CRLF;
    assert body == body[..n] + body[n..n + 2] + body[n + 2..];
  }

  /** Every multibulk request that is accepted is so spelled. */
  lemma RequestIsSpelled(b: Bytes, lim: ProtocolLimits) returns (count: Bytes, args: seq<Arg>)
    requires b != [] && b[0] == 42 && Parse(Start, b, lim).Complete?
    ensures var r := Parse(Start, b, lim);
      && GoodRequest(count, args, lim) && DataOf(args) == r.argv
      && b == Header(42, count, SpellArgs(args) + r.rest)
  {
    hide ParseInt, IndexOfCrlf, Parse, Header;
    FirstLine(b, lim);
    var k := IndexOfCrlf(b);
    HeaderIsCut(b);
    count := b[1..k];
    CountLine(count, b[k + 2..], lim);
    if ParseInt(count).value <= 0 {
      args := [];
      assert SpellArgs(args) + b[k + 2..] == b[k + 2..];
    } else {
      args := ArgsAreSpelled(ParseInt(count).value, [], b[k + 2..], lim);
      assert [] + DataOf(args) == DataOf(args);
    }
  }

  lemma FirstLine(b: Bytes, lim: ProtocolLimits)
    requires b != [] && b[0] == 42 && Parse(Start, b, lim).Complete?
    ensures IndexOfCrlf(b) > 0
  {
    hide IndexOfCrlf, ParseInt;
  }

  /** The parser accepts exactly the requests of this syntax. */
  lemma MultibulkIsExact(b: Bytes, argv: seq<Bytes>, rest: Bytes, lim: ProtocolLimits)
    requires b != [] && b[0] == 42
    ensures Parse(Start, b, lim) == Complete(argv, rest) <==>
              exists count, args :: GoodRequest(count, args, lim) && DataOf(args) == argv
                                    && b == Header(42, count, SpellArgs(args) + rest)
  {
    hide Parse, GoodRequest, DataOf, Header, SpellArgs;
    if Parse(Start, b, lim) == Complete(argv, rest) {
      var count, args := RequestIsSpelled(b, lim);
      assert GoodRequest(count, args, lim) && DataOf(args) == argv && b == Header(42, count, SpellArgs(args) + rest);
    }
    forall count, args | GoodRequest(count, args, lim) && DataOf(args) == argv
                         && b == Header(42, count, SpellArgs(args) + rest)
      ensures Parse(Start, b, lim) == Complete(argv, rest)
    {
      RequestIsRead(count, args, rest, lim);
    }
  }

  // ----- Inline requests

  /** The line itself: what comes before the newline and before one `\r` in front of it. */
  function Stripped(raw: Bytes): Bytes {
    if raw != [] && raw[|raw| - 1] == 13 then raw[..|raw| - 1] else raw
  }

  /** A line that has arrived whole is a command, too long, or unbalanced; in the last case it is consumed. */
  lemma LineIsRead(raw: Bytes, rest: Bytes, lim: ProtocolLimits)
    requires LF !in raw && (raw == [] || raw[0] != 42)
    ensures var b := raw + [LF] + rest;
      Parse(Start, b, lim) ==
        if |Stripped(raw)| > lim.maxInlineLen then Error(TooBigInline, b)
        else match Words(Stripped(raw))
             case None => Error(UnbalancedQuotes, rest)
             case Some(words) => Complete(words, rest)
  {
    hide Words;
    var b := raw + [LF] + rest;
    var nl := |raw|;
    assert b[nl] == LF;
    forall i | 0 <= i < nl ensures b[i] != LF {
      assert b[i] == raw[i] && raw[i] in raw;
    }
    assert IndexOf(b, LF) == nl;
    assert b[0..] == b && b[nl + 1..] == rest;
    assert nl > 0 ==> b[nl - 1] == raw[nl - 1] && b[0] == raw[0];
    assert b[..|Stripped(raw)|] == Stripped(raw);
    assert TakeStep(Start, b, lim) == InlineStep(b, lim);
  }

  /** A line without its newline is waited for, or refused once it is too long. */
  lemma LineIsAwaited(raw: Bytes, lim: ProtocolLimits)
    requires LF !in raw && raw != [] && raw[0] != 42
    ensures Parse(Start, raw, lim) ==
              if |raw| > lim.maxInlineLen then Error(TooBigInline, raw) else Incomplete(Start, raw)
  {
    assert IndexOf(raw, LF) < 0;
    assert raw[0..] == raw;
    assert TakeStep(Start, raw, lim) == InlineStep(raw, lim);
  }
}

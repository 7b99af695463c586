/**
 The incremental RESP2 request parser: first its behaviour as a function of the
 state held between calls and the bytes buffered so far, then the object that
 consumes tokens eagerly and resumes in the middle of a command.
 */
module Parser {
  import opened Octets
  import opened IntCodec
  import opened Inline
  import opened Buffers

  const MAX_HEADER: nat := 64

  type Limit = n: int | 0 <= n <= 0x7fff_ffff_ffff_ffff

  datatype ProtocolLimits = ProtocolLimits(maxMultibulkArgs: Limit, maxBulkLen: Limit, maxInlineLen: Limit)

  datatype ProtocolError =
    | TooBigInline
    | UnbalancedQuotes
    | TooBigMultibulkCount
    | InvalidMultibulkLength
    | TooBigBulkCount
    | ExpectedDollar(got: Octet)
    | InvalidBulkLength

  function ErrorText(e: ProtocolError): Bytes {
    Ascii("Protocol error: ") +
    match e
    case TooBigInline => Ascii("too big inline request")
    case UnbalancedQuotes => Ascii("unbalanced quotes in request")
    case TooBigMultibulkCount => Ascii("too big mbulk count string")
    case InvalidMultibulkLength => Ascii("invalid multibulk length")
    case TooBigBulkCount => Ascii("too big bulk count string")
    case ExpectedDollar(got) => Ascii("expected '$', got '") + [got] + Ascii("'")
    case InvalidBulkLength => Ascii("invalid bulk length")
  }

  /** Everything kept between two calls. */
  datatype ParserState =
    | Start
    | ArgLen(remaining: int, args: seq<Bytes>)
    | ArgData(remaining: int, args: seq<Bytes>, len: int)

  /** Never more arguments than announced and allowed, none longer than allowed. */
  predicate ArgsWithin(remaining: int, args: seq<Bytes>, lim: ProtocolLimits) {
    && 1 <= remaining && remaining + |args| <= lim.maxMultibulkArgs
    && forall i :: 0 <= i < |args| ==> |args[i]| <= lim.maxBulkLen
  }

  predicate WellFormed(st: ParserState, lim: ProtocolLimits) {
    match st
    case Start => true
    case ArgLen(remaining, args) => ArgsWithin(remaining, args, lim)
    case ArgData(remaining, args, len) => ArgsWithin(remaining, args, lim) && 0 <= len <= lim.maxBulkLen
  }

  // ----- One token

  datatype Step =
    | Wait
    | Advance(next: ParserState, used: nat)
    | Finish(argv: seq<Bytes>, used: nat)
    | Reject(error: ProtocolError, used: nat)

  /** A line ended by `\n`, with an optional `\r` before it. */
  function InlineStep(b: Bytes, lim: ProtocolLimits): Step {
    var nl := IndexOf(b, LF);
    if nl < 0 then
      if |b| > lim.maxInlineLen then Reject(TooBigInline, 0) else Wait
    else
      var len := if nl > 0 && b[nl - 1] == CR then nl - 1 else nl;
      if len > lim.maxInlineLen then Reject(TooBigInline, 0)
      else match Words(b[..len])
           case None => Reject(UnbalancedQuotes, nl + 1)
           case Some(words) => Finish(words, nl + 1)
  }

  /** `*<count>\r\n` */
  function CountStep(b: Bytes, lim: ProtocolLimits): Step
    requires b != []
  {
    var crlf := IndexOfCrlf(b);
    if crlf < 0 then
      if |b| > MAX_HEADER then Reject(TooBigMultibulkCount, 0) else Wait
    else if crlf == 0 then Reject(InvalidMultibulkLength, 0)
    else match ParseInt(b[1..crlf])
         case None => Reject(InvalidMultibulkLength, 0)
         case Some(count) =>
           if count > lim.maxMultibulkArgs then Reject(InvalidMultibulkLength, 0)
           else if count <= 0 then Finish([], crlf + 2)
           else Advance(ArgLen(count, []), crlf + 2)
  }

  /** `$<len>\r\n` */
  function LengthStep(remaining: int, args: seq<Bytes>, b: Bytes, lim: ProtocolLimits): Step {
    var crlf := IndexOfCrlf(b);
    if crlf < 0 then
      if |b| > MAX_HEADER then Reject(TooBigBulkCount, 0) else Wait
    else if crlf == 0 then Reject(ExpectedDollar(32), 0)
    else if b[0] != DOLLAR then Reject(ExpectedDollar(b[0]), 0)
    else match ParseInt(b[1..crlf])
         case None => Reject(InvalidBulkLength, 0)
         case Some(len) =>
           if len < 0 || len > lim.maxBulkLen then Reject(InvalidBulkLength, 0)
           else Advance(ArgData(remaining, args, len), crlf + 2)
  }

  /** `<len>` bytes taken by length, then `\r\n` */
  function PayloadStep(remaining: int, args: seq<Bytes>, len: int, b: Bytes): Step {
    if len < 0 || |b| < len + 2 then Wait
    else if b[len] != CR || b[len + 1] != LF then Reject(InvalidBulkLength, 0)
    else if remaining - 1 == 0 then Finish(args + [b[..len]], len + 2)
    else Advance(ArgLen(remaining - 1, args + [b[..len]]), len + 2)
  }

  function TakeStep(st: ParserState, b: Bytes, lim: ProtocolLimits): (r: Step)
    ensures r.Advance? ==> 2 <= r.used <= |b| && r.next != Start
    ensures r.Finish? ==> 1 <= r.used <= |b|
    ensures r.Reject? ==> r.used <= |b|
    ensures r.Advance? && WellFormed(st, lim) ==> WellFormed(r.next, lim)
  {
    match st
    case Start => if b == [] then Wait else if b[0] != STAR then InlineStep(b, lim) else CountStep(b, lim)
    case ArgLen(remaining, args) => LengthStep(remaining, args, b, lim)
    case ArgData(remaining, args, len) => PayloadStep(remaining, args, len, b)
  }

  // ----- One call of parse

  datatype Outcome =
    | Incomplete(st: ParserState, rest: Bytes)
    | Complete(argv: seq<Bytes>, rest: Bytes)
    | Error(error: ProtocolError, rest: Bytes)

  function Parse(st: ParserState, b: Bytes, lim: ProtocolLimits): (r: Outcome)
    ensures |r.rest| <= |b|
    ensures r.Complete? ==> |r.rest| < |b|
    decreases |b|
  {
    match TakeStep(st, b, lim)
    case Wait => Incomplete(st, b)
    case Advance(next, used) => Parse(next, b[used..], lim)
    case Finish(argv, used) => Complete(argv, b[used..])
    case Reject(error, used) => Error(error, b[used..])
  }

  /** What an Incomplete call leaves behind is bounded by the limits alone. */
  lemma {:induction false} IncompleteIsBounded(st: ParserState, b: Bytes, lim: ProtocolLimits)
    requires WellFormed(st, lim) && Parse(st, b, lim).Incomplete?
    ensures var r := Parse(st, b, lim);
      && WellFormed(r.st, lim)
      && (|r.rest| <= MAX_HEADER || |r.rest| <= lim.maxInlineLen || |r.rest| <= lim.maxBulkLen + 1)
    decreases |b|
  {
    var step := TakeStep(st, b, lim);
    if step.Advance? {
      IncompleteIsBounded(step.next, b[step.used..], lim);
    }
  }

  /** A delivered command respects the limits of the form it came in. */
  predicate WithinLimits(argv: seq<Bytes>, lim: ProtocolLimits) {
    || (|argv| <= lim.maxMultibulkArgs && forall i :: 0 <= i < |argv| ==> |argv[i]| <= lim.maxBulkLen)
    || (|argv| <= lim.maxInlineLen && forall i :: 0 <= i < |argv| ==> |argv[i]| <= lim.maxInlineLen)
  }

  lemma {:induction false} CompleteIsWithinLimits(st: ParserState, b: Bytes, lim: ProtocolLimits)
    requires WellFormed(st, lim) && Parse(st, b, lim).Complete?
    ensures WithinLimits(Parse(st, b, lim).argv, lim)
    decreases |b|
  {
    var step := TakeStep(st, b, lim);
    if step.Advance? {
      CompleteIsWithinLimits(step.next, b[step.used..], lim);
    } else if st.Start? && b[0] != STAR {
      var nl := IndexOf(b, LF);
      var len := if nl > 0 && b[nl - 1] == CR then nl - 1 else nl;
      WordsAreBounded(b[..len]);
    }
  }

  // ----- Searching the buffer

  method MemChr(b: Bytes, from: nat, to: nat, c: Octet) returns (r: int)
    requires from <= to <= |b|
    ensures r == -1 || from <= r < to
    ensures r >= 0 ==> b[r] == c
    ensures forall i :: from <= i < (if r < 0 then to else r) ==> b[i] != c
    ensures from == 0 && to == |b| ==> r == IndexOf(b, c)
  {
    r := from;
    while r < to
      invariant from <= r <= to
      invariant forall i :: from <= i < r ==> b[i] != c
    {
      if b[r] == c {
        return;
      }
      r := r + 1;
    }
    r := -1;
  }

  method FindCrlf(b: Bytes) returns (r: int)
    ensures r == IndexOfCrlf(b)
  {
    var p := 0;
    while p + 1 < |b|
      invariant 0 <= p <= |b|
      invariant forall i :: CrlfAt(b, i) ==> p <= i
    {
      r := MemChr(b, p, |b| - 1, CR);
      if r < 0 {
        return;
      }
      if b[r + 1] == LF {
        assert CrlfAt(b, r);
        return;
      }
      p := r + 1;
    }
    r := -1;
  }

  lemma ArgsGrow(remaining: int, args: seq<Bytes>, a: Bytes, lim: ProtocolLimits)
    requires ArgsWithin(remaining, args, lim) && |a| <= lim.maxBulkLen
    ensures remaining > 1 ==> ArgsWithin(remaining - 1, args + [a], lim)
    ensures remaining >= 1
  {}

  // ----- The parser object

  datatype Phase = InStart | InArgLen | InArgData

  datatype Verdict =
    | Running
    | NeedMore
    | Command(argv: seq<Bytes>)
    | Broken(error: ProtocolError)

  class RespParser {
    const limits: ProtocolLimits
    var phase: Phase
    var argsRemaining: int
    var argLen: int
    var argv: seq<Bytes>

    ghost predicate Valid()
      reads this
    {
      && WellFormed(State(), limits)
      && (phase != InArgData ==> argLen == -1)
      && (phase == InStart ==> argsRemaining == 0 && argv == [])
    }

    ghost function State(): ParserState
      reads this
    {
      match phase
      case InStart => Start
      case InArgLen => ArgLen(argsRemaining, argv)
      case InArgData => ArgData(argsRemaining, argv, argLen)
    }

    constructor (lim: ProtocolLimits)
      ensures Valid() && State() == Start && limits == lim
    {
      limits := lim;
      phase, argsRemaining, argLen, argv := InStart, 0, -1, [];
    }

    method Reset()
      modifies this
      ensures Valid() && State() == Start
    {
      phase, argsRemaining, argLen, argv := InStart, 0, -1, [];
    }

    /** The verdict and the new state and buffer are those of one step. */
    ghost predicate Took(step: Step, v: Verdict, before: ParserState, input: Bytes, rest: Bytes)
      reads this
    {
      match step
      case Wait => v == NeedMore && State() == before && rest == input
      case Advance(next, used) => v == Running && State() == next && used <= |input| && rest == input[used..]
      case Finish(words, used) => v == Command(words) && State() == Start && used <= |input| && rest == input[used..]
      case Reject(error, used) => v == Broken(error) && State() == Start && used <= |input| && rest == input[used..]
    }

    method StepInline(input: Buffer) returns (v: Verdict)
      requires Valid() && input.Valid() && State() == Start
      modifies this, input`readPos, input`writePos
      ensures Valid() && input.Valid()
      ensures Took(InlineStep(old(input.Contents()), limits), v, Start, old(input.Contents()), input.Contents())
    {
      var b := input.Peek();
      ghost var step := InlineStep(b, limits);
      var nl := MemChr(b, 0, |b|, LF);
      if nl < 0 {
        if |b| > limits.maxInlineLen {
          Reset();
          return Broken(TooBigInline);
        }
        return NeedMore;
      }
      var lineLen := nl;
      var total := lineLen + 1;
      if lineLen > 0 && b[lineLen - 1] == CR {
        lineLen := lineLen - 1;
      }
      if lineLen > limits.maxInlineLen {
        Reset();
        return Broken(TooBigInline);
      }
      var parts := SplitInline(b[..lineLen]);
      assert step == if parts.None? then Reject(UnbalancedQuotes, total) else Finish(parts.value, total);
      input.Consume(total);
      assert input.Contents() == b[total..];
      Reset();
      v := if parts.None? then Broken(UnbalancedQuotes) else Command(parts.value);
    }

    method StepCount(input: Buffer) returns (v: Verdict)
      requires Valid() && input.Valid() && State() == Start && input.Contents() != []
      requires input.Contents()[0] == STAR
      modifies this, input`readPos, input`writePos
      ensures Valid() && input.Valid()
      ensures Took(CountStep(old(input.Contents()), limits), v, Start, old(input.Contents()), input.Contents())
    {
      var b := input.Peek();
      var crlf := FindCrlf(b);
      if crlf < 0 {
        if |b| > MAX_HEADER {
          Reset();
          return Broken(TooBigMultibulkCount);
        }
        return NeedMore;
      }
      var count := StringToInt64(b[1..crlf]);
      if count.None? || count.value as int > limits.maxMultibulkArgs {
        Reset();
        return Broken(InvalidMultibulkLength);
      }
      input.Consume(crlf + 2);
      if count.value <= 0 {
        Reset();
        return Command([]);
      }
      argsRemaining := count.value as int;
      argv := [];
      phase := InArgLen;
      v := Running;
    }

    method StepArgLen(input: Buffer) returns (v: Verdict)
      requires Valid() && input.Valid() && phase == InArgLen
      modifies this, input`readPos, input`writePos
      ensures Valid() && input.Valid()
      ensures Took(LengthStep(old(argsRemaining), old(argv), old(input.Contents()), limits), v, old(State()),
                   old(input.Contents()), input.Contents())
    {
      var b := input.Peek();
      var crlf := FindCrlf(b);
      if crlf < 0 {
        if |b| > MAX_HEADER {
          Reset();
          return Broken(TooBigBulkCount);
        }
        return NeedMore;
      }
      if crlf == 0 || b[0] != DOLLAR {
        var got := if crlf == 0 then 32 else b[0];
        Reset();
        return Broken(ExpectedDollar(got));
      }
      var len := StringToInt64(b[1..crlf]);
      if len.None? || len.value < 0 || len.value as int > limits.maxBulkLen {
        Reset();
        return Broken(InvalidBulkLength);
      }
      input.Consume(crlf + 2);
      argLen := len.value as int;
      phase := InArgData;
      v := Running;
    }

    method StepArgData(input: Buffer) returns (v: Verdict)
      requires Valid() && input.Valid() && phase == InArgData
      modifies this, input`readPos, input`writePos
      ensures Valid() && input.Valid()
      ensures Took(PayloadStep(old(argsRemaining), old(argv), old(argLen), old(input.Contents())), v, old(State()),
                   old(input.Contents()), input.Contents())
    {
      var need := argLen + 2;
      if input.Readable() < need {
        return NeedMore;
      }
      var b := input.Peek();
      if b[argLen] != CR || b[argLen + 1] != LF {
        Reset();
        return Broken(InvalidBulkLength);
      }
      ArgsGrow(argsRemaining, argv, b[..argLen], limits);
      hide ArgsWithin;
      argv := argv + [b[..argLen]];
      input.Consume(need);
      argLen := -1;
      argsRemaining := argsRemaining - 1;
      if argsRemaining == 0 {
        var done := argv;
        Reset();
        return Command(done);
      }
      phase := InArgLen;
      v := Running;
    }

    /** One turn of the loop in parse. */
    method OneStep(input: Buffer) returns (v: Verdict)
      requires Valid() && input.Valid()
      modifies this, input`readPos, input`writePos
      ensures Valid() && input.Valid()
      ensures Took(TakeStep(old(State()), old(input.Contents()), limits), v, old(State()),
                   old(input.Contents()), input.Contents())
    {
      match phase {
        case InStart =>
          if input.Readable() == 0 {
            return NeedMore;
          }
          var b := input.Peek();
          if b[0] != STAR {
            v := StepInline(input);
          } else {
            v := StepCount(input);
          }
        case InArgLen =>
          v := StepArgLen(input);
        case InArgData =>
          v := StepArgData(input);
      }
    }

    /** Consumes at most one command from `input`. */
    method ParseOne(input: Buffer) returns (v: Verdict)
      requires Valid() && input.Valid()
      modifies this, input`readPos, input`writePos
      ensures Valid() && input.Valid()
      ensures var r := Parse(old(State()), old(input.Contents()), limits);
        && input.Contents() == r.rest
        && match r
           case Incomplete(st, _) => v == NeedMore && State() == st
           case Complete(words, _) => v == Command(words) && State() == Start
           case Error(error, _) => v == Broken(error) && State() == Start
    {
      v := Running;
      while v == Running
        invariant Valid() && input.Valid()
        invariant v == Running ==>
            Parse(State(), input.Contents(), limits) == Parse(old(State()), old(input.Contents()), limits)
        invariant v != Running ==>
            var r := Parse(old(State()), old(input.Contents()), limits);
            && input.Contents() == r.rest
            && match r
               case Incomplete(st, _) => v == NeedMore && State() == st
               case Complete(words, _) => v == Command(words) && State() == Start
               case Error(error, _) => v == Broken(error) && State() == Start
        decreases v == Running, input.Readable()
      {
        v := OneStep(input);
      }
    }
  }
}

/** Which replies reach the client as exactly one RESP2 element. */
module Framing {
  import opened Octets
  import opened IntCodec
  import opened Keyspace
  import opened Commands
  import opened Refinement
  import opened Replies
  import Parser

  // ----- Line ends in concatenations

  predicate NoCr(b: Bytes) {
    forall i :: 0 <= i < |b| ==> b[i] != CR
  }

  lemma NoCrIsFramed(b: Bytes)
    requires NoCr(b)
    ensures IndexOfCrlf(b) < 0
  {
    hide IndexOfCrlf;
  }

  lemma AsciiNoCr(s: string)
    requires forall i :: 0 <= i < |s| ==> s[i] != '\r'
    ensures NoCr(Ascii(s))
  {}

  /** Two texts that cannot form a line end across their seam. */
  predicate CleanSeam(a: Bytes, b: Bytes) {
    a == [] || b == [] || a[|a| - 1] != CR || b[0] != LF
  }

  lemma CrlfInConcat(a: Bytes, b: Bytes)
    requires CleanSeam(a, b)
    ensures IndexOfCrlf(a + b) < 0 <==> IndexOfCrlf(a) < 0 && IndexOfCrlf(b) < 0
  {
    hide IndexOfCrlf;
    var c := a + b;
    var i, j, k := IndexOfCrlf(a), IndexOfCrlf(b), IndexOfCrlf(c);
    if i >= 0 {
      assert CrlfAt(c, i);
    }
    if j >= 0 {
      assert CrlfAt(c, |a| + j);
    }
    if k >= 0 && k + 1 < |a| {
      assert CrlfAt(a, k);
    }
    if k >= |a| {
      assert CrlfAt(b, k - |a|);
    }
  }

  /** A quoted piece between two fixed texts. */
  lemma CrlfBetween(before: Bytes, piece: Bytes, after: Bytes)
    requires NoCr(before) && NoCr(after)
    requires after != [] && after[0] != LF
    ensures IndexOfCrlf(before + piece + after) < 0 <==> IndexOfCrlf(piece) < 0
  {
    hide IndexOfCrlf;
    NoCrIsFramed(before);
    NoCrIsFramed(after);
    assert CleanSeam(before, piece);
    CrlfInConcat(before, piece);
    CrlfInConcat(before + piece, after);
  }

  // ----- The unknown-command reply

  /** Nothing that is echoed contains a line end. */
  predicate CleanEcho(argv: seq<Bytes>, i: nat)
    decreases |argv| - i
  {
    i >= |argv| || i > ECHOED_ARGS || (IndexOfCrlf(Truncated(argv[i])) < 0 && CleanEcho(argv, i + 1))
  }

  lemma EchoPieces()
    ensures NoCr(Ascii("'")) && NoCr(Ascii("', ")) && Ascii("', ")[0] != LF && Ascii("', ")[2] != CR
    ensures NoCr(Ascii("ERR unknown command '"))
    ensures NoCr(Ascii("', with args beginning with: ")) && Ascii("', with args beginning with: ")[0] != LF
  {
    AsciiNoCr("'");
    AsciiNoCr("', ");
    AsciiNoCr("ERR unknown command '");
    AsciiNoCr("', with args beginning with: ");
    assert "', "[0] == '\'' && "', "[2] == ' ' && "', with args beginning with: "[0] == '\'';
  }

  lemma {:induction false} EchoedArgsFramed(argv: seq<Bytes>, i: nat)
    ensures IndexOfCrlf(EchoedArgs(argv, i)) < 0 <==> CleanEcho(argv, i)
    decreases |argv| - i
  {
    hide IndexOfCrlf, Ascii, Truncated;
    if i >= |argv| || i > ECHOED_ARGS {
      NoCrIsFramed(EchoedArgs(argv, i));
    } else {
      EchoPieces();
      var piece := Ascii("'") + Truncated(argv[i]) + Ascii("', ");
      CrlfBetween(Ascii("'"), Truncated(argv[i]), Ascii("', "));
      EchoedArgsFramed(argv, i + 1);
      assert piece[|piece| - 1] == Ascii("', ")[2];
      CrlfInConcat(piece, EchoedArgs(argv, i + 1));
    }
  }

  /** The reply to an unknown command is one element exactly when its name and echoed arguments contain no line end. */
  lemma UnknownCommandFramed(argv: seq<Bytes>)
    requires argv != []
    ensures IndexOfCrlf(UnknownCommand(argv)) < 0 <==> IndexOfCrlf(argv[0]) < 0 && CleanEcho(argv, 1)
  {
    hide IndexOfCrlf, Ascii, EchoedArgs, CleanEcho;
    var a, b := Ascii("ERR unknown command '"), Ascii("', with args beginning with: ");
    EchoPieces();
    var head := a + argv[0] + b;
    CrlfBetween(a, argv[0], b);
    EchoedArgsFramed(argv, 1);
    assert head[|head| - 1] == b[|b| - 1];
    CrlfInConcat(head, EchoedArgs(argv, 1));
  }

  // ----- The fixed texts

  /** An echoed argument: in quotes, at most 32 bytes of it, and a comma and a blank. */
  function Echo(a: Bytes): Bytes {
    [39] + (if |a| > 32 then a[..32] else a) + [39, 44, 32]
  }

  /** The reply to an unknown command names it in full and echoes its first three arguments. */
  lemma UnknownCommandText(argv: seq<Bytes>)
    requires argv != []
    ensures UnknownCommand(argv) ==
              Ascii("ERR unknown command '") + argv[0] + Ascii("', with args beginning with: ")
              + ((if |argv| > 1 then Echo(argv[1]) else [])
                 + ((if |argv| > 2 then Echo(argv[2]) else []) + (if |argv| > 3 then Echo(argv[3]) else [])))
  {
    var three := if |argv| > 3 then Echo(argv[3]) else [];
    var two := if |argv| > 2 then Echo(argv[2]) else [];
    EchoOne(argv, 3);
    EchoOne(argv, 2);
    EchoOne(argv, 1);
    assert EchoedArgs(argv, 4) == [];
    assert three + [] == three;
    assert EchoedArgs(argv, 3) == three;
    assert EchoedArgs(argv, 2) == two + three;
  }

  lemma EchoOne(argv: seq<Bytes>, i: nat)
    requires 1 <= i <= 3
    ensures EchoedArgs(argv, i) == if i >= |argv| then [] else Echo(argv[i]) + EchoedArgs(argv, i + 1)
  {
    if i < |argv| {
      assert Ascii("'") == [39] && Ascii("', ") == [39, 44, 32];
    }
  }

  lemma NamesAreClean(op: Op)
    ensures NoCr(NameOf(op))
  {
    AsciiNoCr("ping");
    AsciiNoCr("echo");
    AsciiNoCr("quit");
    AsciiNoCr("set");
    AsciiNoCr("get");
    AsciiNoCr("incr");
    AsciiNoCr("decr");
    AsciiNoCr("del");
    AsciiNoCr("exists");
    AsciiNoCr("type");
    AsciiNoCr("expire");
    AsciiNoCr("ttl");
    AsciiNoCr("persist");
    AsciiNoCr("dbsize");
    AsciiNoCr("flushall");
    AsciiNoCr("command");
  }

  lemma WrongArityIsClean(name: Bytes)
    requires NoCr(name)
    ensures IndexOfCrlf(WrongArity(name)) < 0
  {
    hide Ascii, IndexOfCrlf;
    AsciiNoCr("ERR wrong number of arguments for '");
    AsciiNoCr("' command");
    NoCrIsFramed(WrongArity(name));
  }

  lemma ErrorsAreClean()
    ensures IndexOfCrlf(NOT_INTEGER) < 0 && IndexOfCrlf(SYNTAX) < 0 && IndexOfCrlf(BAD_SET_EXPIRE) < 0
    ensures IndexOfCrlf(BAD_EXPIRE) < 0 && IndexOfCrlf(OVERFLOW) < 0
  {
    hide IndexOfCrlf;
    AsciiNoCr("ERR value is not an integer or out of range");
    AsciiNoCr("ERR syntax error");
    AsciiNoCr("ERR invalid expire time in 'set' command");
    AsciiNoCr("ERR invalid expire time in 'expire' command");
    AsciiNoCr("ERR increment or decrement would overflow");
    NoCrIsFramed(NOT_INTEGER);
    NoCrIsFramed(SYNTAX);
    NoCrIsFramed(BAD_SET_EXPIRE);
    NoCrIsFramed(BAD_EXPIRE);
    NoCrIsFramed(OVERFLOW);
  }

  lemma WordsAreClean()
    ensures IndexOfCrlf(Ascii("OK")) < 0 && IndexOfCrlf(Ascii("PONG")) < 0
    ensures IndexOfCrlf(Ascii("none")) < 0 && IndexOfCrlf(Ascii("string")) < 0
  {
    hide IndexOfCrlf;
    AsciiNoCr("OK");
    AsciiNoCr("PONG");
    AsciiNoCr("none");
    AsciiNoCr("string");
    NoCrIsFramed(Ascii("OK"));
    NoCrIsFramed(Ascii("PONG"));
    NoCrIsFramed(Ascii("none"));
    NoCrIsFramed(Ascii("string"));
  }

  lemma {:induction false} OptionErrorsAreClean(argv: seq<Bytes>, i: nat, o: SetOptions)
    ensures var r := ReadSetOptions(argv, i, o);
      r.Refused? ==> r.error == NOT_INTEGER || r.error == BAD_SET_EXPIRE || r.error == SYNTAX
    decreases |argv| - i
  {
    hide ParseInt, Ascii;
    if i < |argv| {
      var opt := ToLower(argv[i]);
      if opt == Ascii("nx") && !o.xx && !o.nx {
        OptionErrorsAreClean(argv, i + 1, o.(nx := true));
      } else if opt == Ascii("xx") && !o.nx && !o.xx {
        OptionErrorsAreClean(argv, i + 1, o.(xx := true));
      } else if (opt == Ascii("ex") || opt == Ascii("px")) && !o.hasTtl && i + 1 < |argv| {
        var n := ParseInt(argv[i + 1]);
        if n.Some? && n.value > 0 {
          var unit := if opt == Ascii("ex") then 1000 else 1;
          OptionErrorsAreClean(argv, i + 2, o.(hasTtl := true, unitMs := unit, amount := n.value));
        }
      }
    }
  }

  // ----- Every command

  lemma StringReplyFramed(op: Op, s: Store, argv: seq<Bytes>, now: int)
    requires Consistent(s) && Dispatchable(argv) && ClockReading(now) && ArityOk(op, |argv|)
    requires op in {OpSet, OpGet, OpIncr, OpDecr}
    ensures Framed(Run(op, s, argv, now).reply)
  {
    hide IndexOfCrlf, ReadSetOptions, TtlToDeadline, ParseInt, FormatInt;
    ErrorsAreClean();
    WordsAreClean();
    OptionErrorsAreClean(argv, 3, NO_OPTIONS);
    if op == OpIncr || op == OpDecr {
      var v := Lookup(s, argv[1], now).1;
      if v.Some? {
        ParsedIsInt64(v.value.data);
      }
    }
  }

  lemma KeyspaceReplyFramed(op: Op, s: Store, argv: seq<Bytes>, now: int)
    requires Consistent(s) && Dispatchable(argv) && ClockReading(now) && ArityOk(op, |argv|)
    requires op in {OpDel, OpExists, OpType, OpExpire, OpTtl, OpPersist}
    ensures Framed(Run(op, s, argv, now).reply)
  {
    hide IndexOfCrlf, TtlToDeadline, ParseInt, Erase, SetExpireAt, Pttl, Persist, DeleteFrom, CountFrom;
    ErrorsAreClean();
    WordsAreClean();
    if op == OpTtl {
      PttlRefines(s, argv[1], now);
    }
  }

  lemma ServerReplyFramed(op: Op, s: Store, argv: seq<Bytes>, now: int)
    requires Consistent(s) && Dispatchable(argv) && ArityOk(op, |argv|)
    requires op in {OpPing, OpEcho, OpQuit, OpDbSize, OpFlushAll, OpCommand}
    ensures Framed(Run(op, s, argv, now).reply)
  {
    hide IndexOfCrlf, Consistent;
    ErrorsAreClean();
    WordsAreClean();
    NamesAreClean(OpPing);
    WrongArityIsClean(Ascii("ping"));
  }

  /**
   Every dispatched command is answered by exactly one well-formed reply; an unknown command is,
   if and only if what it echoes contains no line end.
   */
  lemma DispatchReplyFramed(s: Store, argv: seq<Bytes>, now: int)
    requires Consistent(s) && Dispatchable(argv) && ClockReading(now)
    ensures Framed(Dispatch(s, argv, now).reply) <==>
              Find(argv[0]).Some? || (IndexOfCrlf(argv[0]) < 0 && CleanEcho(argv, 1))
  {
    hide IndexOfCrlf, Consistent, Run, Find, CleanEcho, UnknownCommand, WrongArity, NameOf;
    match Find(argv[0]) {
      case None =>
        UnknownCommandFramed(argv);
      case Some(op) =>
        if !ArityOk(op, |argv|) {
          NamesAreClean(op);
          WrongArityIsClean(NameOf(op));
        } else if op in {OpSet, OpGet, OpIncr, OpDecr} {
          StringReplyFramed(op, s, argv, now);
        } else if op in {OpDel, OpExists, OpType, OpExpire, OpTtl, OpPersist} {
          KeyspaceReplyFramed(op, s, argv, now);
        } else {
          ServerReplyFramed(op, s, argv, now);
        }
    }
  }

  lemma {:induction false} NotInTable(table: seq<Op>, name: Bytes)
    requires !NoCr(name)
    ensures FindIn(table, name) == None
  {
    if table != [] {
      NamesAreClean(table[0]);
      NotInTable(table[1..], name);
    }
  }

  /** The condition is not vacuous: the command name `a\r\nb` is echoed as two lines. */
  lemma EchoedLineEndSplitsReply(s: Store, now: int)
    ensures var argv: seq<Bytes> := [[97, CR, LF, 98]];
      var text := UnknownCommand(argv);
      && Dispatch(s, argv, now).reply == Error(text)
      && Decode(Encode(Error(text))) != Some((Error(text), []))
  {
    hide IndexOfCrlf, Decode;
    var name: Bytes := [97, CR, LF, 98];
    var argv: seq<Bytes> := [name];
    assert ToLower(name)[1] == CR;
    NotInTable(TABLE, ToLower(name));
    assert CrlfAt(name, 1);
    UnknownCommandFramed(argv);
    var text := UnknownCommand(argv);
    ErrorIsFramed(text, []);
    assert Encode(Error(text)) + [] == Encode(Error(text));
  }

  // ----- The protocol-error reply

  function ProtocolErrorReply(e: Parser.ProtocolError): Reply {
    Error(Ascii("ERR ") + Parser.ErrorText(e))
  }

  /** Also when the offending byte it quotes is itself `\r` or `\n`. */
  lemma ProtocolErrorFramed(e: Parser.ProtocolError)
    ensures Framed(ProtocolErrorReply(e))
  {
    hide IndexOfCrlf;
    ProtocolTextsAreClean();
    var a := Ascii("ERR ") + Ascii("Protocol error: ");
    assert NoCr(a);
    if e.ExpectedDollar? {
      var b := Ascii("expected '$', got '");
      assert [e.got][0] == e.got;
      OneByteIsFramed(e.got);
      CrlfBetween(a + b, [e.got], Ascii("'"));
      assert Ascii("ERR ") + (Ascii("Protocol error: ") + (b + [e.got] + Ascii("'"))) == a + b + [e.got] + Ascii("'");
    } else {
      NoCrIsFramed(Ascii("ERR ") + Parser.ErrorText(e));
    }
  }

  lemma OneByteIsFramed(c: Octet)
    ensures IndexOfCrlf([c]) < 0
  {}

  lemma ProtocolTextsAreClean()
    ensures NoCr(Ascii("ERR ")) && NoCr(Ascii("Protocol error: ")) && NoCr(Ascii("expected '$', got '"))
    ensures NoCr(Ascii("'")) && Ascii("'")[0] != LF
    ensures NoCr(Ascii("too big inline request")) && NoCr(Ascii("unbalanced quotes in request"))
    ensures NoCr(Ascii("too big mbulk count string")) && NoCr(Ascii("invalid multibulk length"))
    ensures NoCr(Ascii("too big bulk count string")) && NoCr(Ascii("invalid bulk length"))
  {
    AsciiNoCr("ERR ");
    AsciiNoCr("Protocol error: ");
    AsciiNoCr("expected '$', got '");
    AsciiNoCr("'");
    assert "'"[0] == '\'';
    AsciiNoCr("too big inline request");
    AsciiNoCr("unbalanced quotes in request");
    AsciiNoCr("too big mbulk count string");
    AsciiNoCr("invalid multibulk length");
    AsciiNoCr("too big bulk count string");
    AsciiNoCr("invalid bulk length");
  }
}

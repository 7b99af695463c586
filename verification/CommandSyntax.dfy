/** The command table finds every command under any capitalisation, and SET options mean what they say in any order. */
module CommandSyntax {
  import opened Octets
  import opened IntCodec
  import opened Commands

  // ----- Letters

  const UPPER: Bytes := [65, 66, 67, 68, 69, 70, 71, 72, 73, 74, 75, 76, 77, 78, 79, 80, 81, 82, 83, 84, 85, 86, 87, 88,
                         89, 90]
  const LOWER: Bytes := [97, 98, 99, 100, 101, 102, 103, 104, 105, 106, 107, 108, 109, 110, 111, 112, 113, 114, 115,
                         116, 117, 118, 119, 120, 121, 122]

  lemma Alphabet(k: nat)
    requires k < 26
    ensures UPPER[k] == 65 + k && LOWER[k] == 97 + k
  {}

  /** Each of the 26 capitals becomes its small letter, and no other byte changes. */
  lemma LowersTheAlphabet(s: Bytes, i: nat)
    requires i < |s|
    ensures |ToLower(s)| == |s|
    ensures s[i] !in UPPER ==> ToLower(s)[i] == s[i]
    ensures forall k :: 0 <= k < 26 && s[i] == UPPER[k] ==> ToLower(s)[i] == LOWER[k]
  {
    forall k | 0 <= k < 26 ensures UPPER[k] == 65 + k && LOWER[k] == 97 + k {
      Alphabet(k);
    }
    hide UPPER, LOWER;
    if 65 <= s[i] <= 90 {
      assert UPPER[s[i] - 65] == s[i];
    }
  }

  /** `word` is `name`, with some of its small letters written as capitals. */
  predicate Spells(word: Bytes, name: Bytes) {
    |word| == |name| &&
    forall i :: 0 <= i < |name| ==> word[i] == name[i] || (97 <= name[i] <= 122 && word[i] == name[i] - 32)
  }

  predicate SmallLetters(name: Bytes) {
    forall i :: 0 <= i < |name| ==> 97 <= name[i] <= 122
  }

  lemma SpellsExactly(word: Bytes, name: Bytes)
    requires SmallLetters(name)
    ensures ToLower(word) == name <==> Spells(word, name)
  {
    var low := ToLower(word);
    if Spells(word, name) {
      assert forall i :: 0 <= i < |name| ==> low[i] == name[i];
    } else if low == name {
      forall i | 0 <= i < |name| ensures word[i] == name[i] || (97 <= name[i] <= 122 && word[i] == name[i] - 32) {
        assert low[i] == name[i];
      }
    }
  }

  // ----- Names

  /** The names, byte by byte. */
  function NameInBytes(op: Op): Bytes {
    match op
    case OpPing => [112, 105, 110, 103]
    case OpEcho => [101, 99, 104, 111]
    case OpQuit => [113, 117, 105, 116]
    case OpSet => [115, 101, 116]
    case OpGet => [103, 101, 116]
    case OpIncr => [105, 110, 99, 114]
    case OpDecr => [100, 101, 99, 114]
    case OpDel => [100, 101, 108]
    case OpExists => [101, 120, 105, 115, 116, 115]
    case OpType => [116, 121, 112, 101]
    case OpExpire => [101, 120, 112, 105, 114, 101]
    case OpTtl => [116, 116, 108]
    case OpPersist => [112, 101, 114, 115, 105, 115, 116]
    case OpDbSize => [100, 98, 115, 105, 122, 101]
    case OpFlushAll => [102, 108, 117, 115, 104, 97, 108, 108]
    case OpCommand => [99, 111, 109, 109, 97, 110, 100]
  }

  lemma NamesInBytes(op: Op)
    ensures NameOf(op) == NameInBytes(op) && SmallLetters(NameOf(op))
  {
    hide Ascii;
    SmallNames(op);
    match op {
      case OpPing => AsciiIs("ping", [112, 105, 110, 103]);
      case OpEcho => AsciiIs("echo", [101, 99, 104, 111]);
      case OpQuit => AsciiIs("quit", [113, 117, 105, 116]);
      case OpSet => AsciiIs("set", [115, 101, 116]);
      case OpGet => AsciiIs("get", [103, 101, 116]);
      case OpIncr => AsciiIs("incr", [105, 110, 99, 114]);
      case OpDecr => AsciiIs("decr", [100, 101, 99, 114]);
      case OpDel => AsciiIs("del", [100, 101, 108]);
      case OpExists => AsciiIs("exists", [101, 120, 105, 115, 116, 115]);
      case OpType => AsciiIs("type", [116, 121, 112, 101]);
      case OpExpire => AsciiIs("expire", [101, 120, 112, 105, 114, 101]);
      case OpTtl => AsciiIs("ttl", [116, 116, 108]);
      case OpPersist => AsciiIs("persist", [112, 101, 114, 115, 105, 115, 116]);
      case OpDbSize => AsciiIs("dbsize", [100, 98, 115, 105, 122, 101]);
      case OpFlushAll => AsciiIs("flushall", [102, 108, 117, 115, 104, 97, 108, 108]);
      case OpCommand => AsciiIs("command", [99, 111, 109, 109, 97, 110, 100]);
    }
  }

  lemma SmallNames(op: Op)
    ensures SmallLetters(NameInBytes(op))
  {}

  lemma AsciiIs(s: string, b: Bytes)
    requires |s| == |b| && forall i :: 0 <= i < |s| ==> s[i] < 128 as char && s[i] as int == b[i]
    ensures Ascii(s) == b
  {}

  /** How many words each command takes, its name included. */
  lemma ArityInNumbers(op: Op, argc: int)
    requires argc >= 1
    ensures ArityOk(op, argc) <==>
              match op
              case OpPing => true
              case OpEcho => argc == 2
              case OpQuit => argc == 1
              case OpSet => argc >= 3
              case OpGet => argc == 2
              case OpIncr => argc == 2
              case OpDecr => argc == 2
              case OpDel => argc >= 2
              case OpExists => argc >= 2
              case OpType => argc == 2
              case OpExpire => argc == 3
              case OpTtl => argc == 2
              case OpPersist => argc == 2
              case OpDbSize => argc == 1
              case OpFlushAll => true
              case OpCommand => true
  {}

  lemma NamesAreDistinct(a: Op, b: Op)
    requires NameOf(a) == NameOf(b)
    ensures a == b
  {
    hide NameOf;
    NamesInBytes(a);
    NamesInBytes(b);
    // Length, first and third letter tell all names apart.
    var x, y := NameInBytes(a), NameInBytes(b);
    assert |x| == |y| && x[0] == y[0] && x[2] == y[2];
  }

  lemma {:induction false} FindsListed(table: seq<Op>, op: Op)
    requires op in table
    ensures FindIn(table, NameOf(op)) == Some(op)
  {
    hide NameOf;
    if NameOf(table[0]) == NameOf(op) {
      NamesAreDistinct(table[0], op);
    } else {
      FindsListed(table[1..], op);
    }
  }

  lemma TableIsComplete(op: Op)
    ensures op in TABLE && |TABLE| == 16
  {
    assert TABLE[0] == OpPing && TABLE[1] == OpEcho && TABLE[2] == OpQuit && TABLE[3] == OpSet;
    assert TABLE[4] == OpGet && TABLE[5] == OpIncr && TABLE[6] == OpDecr && TABLE[7] == OpDel;
    assert TABLE[8] == OpExists && TABLE[9] == OpType && TABLE[10] == OpExpire && TABLE[11] == OpTtl;
    assert TABLE[12] == OpPersist && TABLE[13] == OpDbSize && TABLE[14] == OpFlushAll && TABLE[15] == OpCommand;
  }

  lemma {:induction false} FoundHasName(table: seq<Op>, name: Bytes)
    ensures FindIn(table, name).Some? ==> NameOf(FindIn(table, name).value) == name
  {
    hide NameOf;
    if table != [] {
      FoundHasName(table[1..], name);
    }
  }

  /** A word names a command exactly when it is that command's name up to the case of ASCII letters. */
  lemma FindIgnoresCase(word: Bytes, op: Op)
    ensures Find(word) == Some(op) <==> ToLower(word) == NameOf(op)
    ensures Find(word) == Some(op) <==> Spells(word, NameOf(op))
  {
    NamesInBytes(op);
    SpellsExactly(word, NameOf(op));
    hide NameOf, ToLower, FindIn;
    if ToLower(word) == NameOf(op) {
      TableIsComplete(op);
      FindsListed(TABLE, op);
    } else {
      FoundHasName(TABLE, ToLower(word));
    }
  }

  // ----- The options of SET

  /** An option as a client may spell it: NX or XX, or EX or PX with a number. */
  datatype SetOption =
    | Condition(word: Bytes, nx: bool)
    | Lifetime(word: Bytes, number: Bytes, seconds: bool)

  const NX: Bytes := [110, 120]
  const XX: Bytes := [120, 120]
  const EX: Bytes := [101, 120]
  const PX: Bytes := [112, 120]

  predicate Spelled(o: SetOption) {
    match o
    case Condition(word, nx) => Spells(word, if nx then NX else XX)
    case Lifetime(word, number, seconds) =>
      && Spells(word, if seconds then EX else PX)
      && ParseInt(number).Some? && ParseInt(number).value > 0
  }

  function Words(o: SetOption): seq<Bytes> {
    match o
    case Condition(word, _) => [word]
    case Lifetime(word, number, _) => [word, number]
  }

  function AllWords(opts: seq<SetOption>): seq<Bytes> {
    if opts == [] then [] else Words(opts[0]) + AllWords(opts[1..])
  }

  function Conditions(opts: seq<SetOption>): nat {
    if opts == [] then 0 else (if opts[0].Condition? then 1 else 0) + Conditions(opts[1..])
  }

  function Lifetimes(opts: seq<SetOption>): nat {
    if opts == [] then 0 else (if opts[0].Lifetime? then 1 else 0) + Lifetimes(opts[1..])
  }

  /** The options hold what the list says, whatever its order, on top of what `o` already held. */
  ghost predicate Means(r: SetOptions, o: SetOptions, opts: seq<SetOption>) {
    && (r.nx <==> o.nx || exists i :: 0 <= i < |opts| && opts[i].Condition? && opts[i].nx)
    && (r.xx <==> o.xx || exists i :: 0 <= i < |opts| && opts[i].Condition? && !opts[i].nx)
    && (forall i :: 0 <= i < |opts| && opts[i].Lifetime? ==>
          r.hasTtl && ParseInt(opts[i].number) == Some(r.amount) && r.unitMs == (if opts[i].seconds then 1000 else 1))
    && (Lifetimes(opts) == 0 ==> r.hasTtl == o.hasTtl && r.amount == o.amount && r.unitMs == o.unitMs)
  }

  lemma OptionWordsDiffer()
    ensures Ascii("nx") != Ascii("xx") && Ascii("nx") != Ascii("ex") && Ascii("nx") != Ascii("px")
    ensures Ascii("xx") != Ascii("ex") && Ascii("xx") != Ascii("px") && Ascii("ex") != Ascii("px")
  {
    assert Ascii("nx")[0] == 110 && Ascii("xx")[0] == 120 && Ascii("ex")[0] == 101 && Ascii("px")[0] == 112;
  }

  lemma OptionWords(word: Bytes)
    ensures ToLower(word) == Ascii("nx") <==> Spells(word, NX)
    ensures ToLower(word) == Ascii("xx") <==> Spells(word, XX)
    ensures ToLower(word) == Ascii("ex") <==> Spells(word, EX)
    ensures ToLower(word) == Ascii("px") <==> Spells(word, PX)
  {
    assert Ascii("nx") == NX && Ascii("xx") == XX && Ascii("ex") == EX && Ascii("px") == PX;
    hide ToLower, Spells;
    SpellsExactly(word, NX);
    SpellsExactly(word, XX);
    SpellsExactly(word, EX);
    SpellsExactly(word, PX);
  }

  /** One option read: what it adds, or the refusal of a second one of its kind. */
  lemma ReadOne(argv: seq<Bytes>, i: nat, o: SetOptions, opt: SetOption)
    requires Spelled(opt) && i + |Words(opt)| <= |argv| && argv[i..i + |Words(opt)|] == Words(opt)
    ensures ReadSetOptions(argv, i, o) ==
              match opt
              case Condition(_, nx) =>
                if o.nx || o.xx then Refused(SYNTAX)
                else ReadSetOptions(argv, i + 1, if nx then o.(nx := true) else o.(xx := true))
              case Lifetime(_, number, seconds) =>
                if o.hasTtl then Refused(SYNTAX)
                else ReadSetOptions(argv, i + 2, o.(hasTtl := true, unitMs := if seconds then 1000 else 1,
                                                    amount := ParseInt(number).value))
  {
    hide ToLower, Ascii, ParseInt, Spells;
    OptionWordsDiffer();
    assert argv[i] == Words(opt)[0];
    OptionWords(argv[i]);
    if opt.Lifetime? {
      assert argv[i + 1] == argv[i..i + 2][1];
    }
  }

  lemma MeansStep(r: SetOptions, o: SetOptions, o': SetOptions, opts: seq<SetOption>)
    requires opts != [] && Means(r, o', opts[1..])
    requires match opts[0]
             case Condition(_, nx) => o' == (if nx then o.(nx := true) else o.(xx := true))
             case Lifetime(_, number, seconds) =>
               && ParseInt(number).Some? && Lifetimes(opts[1..]) == 0
               && o' == o.(hasTtl := true, unitMs := if seconds then 1000 else 1, amount := ParseInt(number).value)
    ensures Means(r, o, opts)
  {
    hide ParseInt;
    assert forall i :: 0 <= i < |opts[1..]| ==> opts[1..][i] == opts[i + 1];
    assert forall i :: 1 <= i < |opts| ==> opts[i] == opts[1..][i - 1];
    if opts[0].Lifetime? {
      NoLifetimes(opts[1..]);
    }
  }

  lemma {:induction false} NoLifetimes(opts: seq<SetOption>)
    requires Lifetimes(opts) == 0
    ensures forall i :: 0 <= i < |opts| ==> !opts[i].Lifetime?
  {
    if opts != [] {
      NoLifetimes(opts[1..]);
      assert forall i :: 1 <= i < |opts| ==> opts[i] == opts[1..][i - 1];
    }
  }

  /**
   SET reads a list of well-spelled options, in any order and capitalisation, as their joint
   meaning if there is at most one condition and at most one lifetime, and refuses it otherwise.
   */
  lemma {:induction false} OptionsInAnyOrder(before: seq<Bytes>, opts: seq<SetOption>, o: SetOptions)
    requires forall i :: 0 <= i < |opts| ==> Spelled(opts[i])
    requires !(o.nx && o.xx)
    ensures var r := ReadSetOptions(before + AllWords(opts), |before|, o);
      var fits := && Conditions(opts) + (if o.nx || o.xx then 1 else 0) <= 1
                  && Lifetimes(opts) + (if o.hasTtl then 1 else 0) <= 1;
      if fits then r.Accepted? && Means(r.opts, o, opts) else r == Refused(SYNTAX)
    decreases |opts|
  {
    hide ToLower, Ascii, ParseInt, ReadSetOptions, Means, Spells;
    var argv := before + AllWords(opts);
    if opts == [] {
      NoOptions(before, o);
    } else {
      var first, n := opts[0], |Words(opts[0])|;
      MiddleSlice(before, Words(first), AllWords(opts[1..]));
      ReadOne(argv, |before|, o, first);
      Assoc3(before, Words(first), AllWords(opts[1..]));
      var clash := if first.Condition? then o.nx || o.xx else o.hasTtl;
      if !clash {
        var o' := match first
                  case Condition(_, nx) => if nx then o.(nx := true) else o.(xx := true)
                  case Lifetime(_, number, seconds) =>
                    o.(hasTtl := true, unitMs := if seconds then 1000 else 1, amount := ParseInt(number).value);
        OptionsInAnyOrder(before + Words(first), opts[1..], o');
        var r := ReadSetOptions(argv, |before|, o);
        if r.Accepted? {
          MeansStep(r.opts, o, o', opts);
        }
      }
    }
  }

  lemma NoOptions(before: seq<Bytes>, o: SetOptions)
    ensures ReadSetOptions(before + AllWords([]), |before|, o) == Accepted(o) && Means(o, o, [])
  {
    var none: seq<SetOption> := [];
    assert before + AllWords(none) == before;
  }

  // ----- Nothing else is an option

  predicate ConditionWord(word: Bytes) {
    Spells(word, NX) || Spells(word, XX)
  }

  predicate LifetimeWord(word: Bytes) {
    Spells(word, EX) || Spells(word, PX)
  }

  /** An option can be read off `rest`, given whether a condition and a lifetime have been read before. */
  predicate Continues(rest: seq<Bytes>, condition: bool, lifetime: bool)
    requires rest != []
  {
    || (ConditionWord(rest[0]) && !condition)
    || (LifetimeWord(rest[0]) && !lifetime && |rest| > 1 && ParseInt(rest[1]).Some? && ParseInt(rest[1]).value > 0)
  }

  /** What is wrong with the first word of `rest`: its number, if it is a new lifetime with one, and else the syntax. */
  function RefusalOf(rest: seq<Bytes>, lifetime: bool): Bytes
    requires rest != []
  {
    if LifetimeWord(rest[0]) && !lifetime && |rest| > 1 then
      if ParseInt(rest[1]).None? then NOT_INTEGER else BAD_SET_EXPIRE
    else SYNTAX
  }

  predicate HasCondition(o: SetOptions) {
    o.nx || o.xx
  }

  /** One turn of the reading, in terms of the words alone. */
  lemma ReadFirst(argv: seq<Bytes>, i: nat, o: SetOptions) returns (opt: SetOption)
    requires i < |argv|
    ensures var rest := argv[i..];
      if Continues(rest, HasCondition(o), o.hasTtl) then
        && Spelled(opt) && |Words(opt)| <= |rest| && rest[..|Words(opt)|] == Words(opt)
        && (if opt.Condition? then !HasCondition(o) else !o.hasTtl)
      else ReadSetOptions(argv, i, o) == Refused(RefusalOf(rest, o.hasTtl))
  {
    hide ToLower, Ascii, ParseInt, Spells;
    OptionWordsDiffer();
    var rest, word := argv[i..], argv[i];
    assert rest[0] == word;
    OptionWords(word);
    opt := Condition(word, Spells(word, NX));
    if LifetimeWord(word) && |rest| > 1 {
      opt := Lifetime(word, rest[1], Spells(word, EX));
      assert rest[1] == argv[i + 1] && rest[..2] == [word, rest[1]];
    } else {
      assert rest[..1] == [word];
    }
  }

  /** The options after one more. */
  function WithOption(o: SetOptions, opt: SetOption): SetOptions
    requires Spelled(opt)
  {
    match opt
    case Condition(_, nx) => if nx then o.(nx := true) else o.(xx := true)
    case Lifetime(_, number, seconds) =>
      o.(hasTtl := true, unitMs := if seconds then 1000 else 1, amount := ParseInt(number).value)
  }

  /** What reading makes of `rest` after `opts`: their meaning if nothing is left, and else the exact refusal. */
  ghost predicate ReadAs(r: ParsedOptions, o: SetOptions, opts: seq<SetOption>, rest: seq<Bytes>) {
    if rest == [] then r.Accepted? && Means(r.opts, o, opts)
    else
      && !Continues(rest, HasCondition(o) || Conditions(opts) > 0, o.hasTtl || Lifetimes(opts) > 0)
      && r == Refused(RefusalOf(rest, o.hasTtl || Lifetimes(opts) > 0))
  }

  /** At most one condition and one lifetime, with those read before. */
  predicate Fits(o: SetOptions, opts: seq<SetOption>) {
    && Conditions(opts) + (if HasCondition(o) then 1 else 0) <= 1
    && Lifetimes(opts) + (if o.hasTtl then 1 else 0) <= 1
  }

  predicate AllSpelled(opts: seq<SetOption>) {
    forall i :: 0 <= i < |opts| ==> Spelled(opts[i])
  }

  lemma OneMoreOption(r: ParsedOptions, o: SetOptions, opt: SetOption, opts: seq<SetOption>, rest: seq<Bytes>)
    requires Spelled(opt) && AllSpelled(opts) && Fits(WithOption(o, opt), opts)
    requires if opt.Condition? then !HasCondition(o) else !o.hasTtl
    requires ReadAs(r, WithOption(o, opt), opts, rest)
    ensures AllSpelled([opt] + opts) && Fits(o, [opt] + opts) && ReadAs(r, o, [opt] + opts, rest)
    ensures AllWords([opt] + opts) == Words(opt) + AllWords(opts)
  {
    hide ParseInt, Spells, Means, Continues, RefusalOf;
    assert ([opt] + opts)[1..] == opts;
    if rest == [] {
      MeansStep(r.opts, o, WithOption(o, opt), [opt] + opts);
    }
  }

  /**
   Reading the options of SET is exact. Whatever the words are, they begin with well-spelled options, at
   most one of each kind; either these are all and are accepted with their joint meaning, or the next
   word cannot go on and is refused: a new EX or PX for its number, anything else for the syntax.
   */
  lemma {:induction false} OptionsAreExact(argv: seq<Bytes>, i: nat, o: SetOptions)
    returns (opts: seq<SetOption>, rest: seq<Bytes>)
    requires i <= |argv|
    ensures argv[i..] == AllWords(opts) + rest && AllSpelled(opts)
    ensures Fits(o, opts)
    ensures ReadAs(ReadSetOptions(argv, i, o), o, opts, rest)
    decreases |argv| - i
  {
    hide ParseInt, Spells, ReadSetOptions, Continues, RefusalOf, Means, Fits, ReadAs, AllWords;
    opts, rest := [], argv[i..];
    NothingRead(rest);
    if i == |argv| {
      NothingLeft(argv, o);
      NoneYet(o);
      StopsHere(ReadSetOptions(argv, i, o), o, rest);
    } else {
      var opt := ReadFirst(argv, i, o);
      if Continues(argv[i..], HasCondition(o), o.hasTtl) {
        var n := |Words(opt)|;
        CutSlice(argv, i, n);
        ReadOne(argv, i, o, opt);
        var later: seq<SetOption>;
        later, rest := OptionsAreExact(argv, i + n, WithOption(o, opt));
        OneMoreOption(ReadSetOptions(argv, i, o), o, opt, later, rest);
        opts := [opt] + later;
        CutSlice(argv, i, n);
        Assoc3(Words(opt), AllWords(later), rest);
      } else {
        NoneYet(o);
        StopsHere(ReadSetOptions(argv, i, o), o, rest);
      }
    }
  }

  lemma CutSlice(argv: seq<Bytes>, i: nat, n: nat)
    requires i + n <= |argv|
    ensures argv[i..i + n] == argv[i..][..n] && argv[i..] == argv[i..i + n] + argv[i + n..]
  {}

  lemma NoneYet(o: SetOptions)
    ensures Fits(o, []) && Conditions([]) == 0 && Lifetimes([]) == 0
  {}

  lemma NothingRead(rest: seq<Bytes>)
    ensures AllWords([]) + rest == rest
  {}

  lemma StopsHere(r: ParsedOptions, o: SetOptions, rest: seq<Bytes>)
    requires if rest == [] then r.Accepted? && Means(r.opts, o, [])
             else !Continues(rest, HasCondition(o), o.hasTtl) && r == Refused(RefusalOf(rest, o.hasTtl))
    ensures ReadAs(r, o, [], rest)
  {
    hide Continues, RefusalOf, Means;
  }

  lemma NothingLeft(argv: seq<Bytes>, o: SetOptions)
    ensures ReadSetOptions(argv, |argv|, o) == Accepted(o) && Means(o, o, [])
  {}
}

/** Inline commands: splitting a line into words with shell-like quoting. */
module Inline {
  import opened Octets

  const SPACE: Octet := 32
  const DQUOTE: Octet := 34
  const SQUOTE: Octet := 39
  const BACKSLASH: Octet := 92
  const LOWER_X: Octet := 120

  predicate IsHex(c: Octet) {
    48 <= c <= 57 || 97 <= c <= 102 || 65 <= c <= 70
  }

  function HexVal(c: Octet): (v: int)
    requires IsHex(c)
    ensures 0 <= v < 16
  {
    if 48 <= c <= 57 then c - 48 else if 97 <= c <= 102 then c - 97 + 10 else c - 65 + 10
  }

  /** isspace in the C locale: blank, tab, newline, vertical tab, form feed, return. */
  predicate IsSpace(c: Octet) {
    c == SPACE || 9 <= c <= 13
  }

  /** The meaning of a backslash escape other than a hexadecimal one. */
  function Unescaped(c: Octet): Octet {
    if c == 110 then LF        // n
    else if c == 114 then CR   // r
    else if c == 116 then 9    // t
    else if c == 98 then 8     // b
    else if c == 97 then 7     // a
    else c
  }

  // ----- The quoting grammar, one function per nonterminal

  datatype WordResult = Unbalanced | Word(text: Bytes, rest: Bytes)

  function Prepend(text: Bytes, w: WordResult): WordResult {
    match w
    case Unbalanced => Unbalanced
    case Word(t, rest) => Word(text + t, rest)
  }

  /** One lexical item inside quotes: an error, the closing quote, or a byte and the bytes it took. */
  datatype Item = Bad | Close | Take(c: Octet, used: nat)

  /** A closing quote ends its word: only white space or the end of the line may follow. */
  function ClosingItem(s: Bytes): Item
    requires s != []
  {
    if |s| > 1 && !IsSpace(s[1]) then Bad else Close
  }

  predicate StartsHexEscape(s: Bytes) {
    |s| > 3 && s[0] == BACKSLASH && s[1] == LOWER_X && IsHex(s[2]) && IsHex(s[3])
  }

  function DoubleItem(s: Bytes): (t: Item)
    ensures s == [] ==> t.Bad?
    ensures t.Take? ==> 0 < t.used <= |s|
  {
    if s == [] then Bad
    else if StartsHexEscape(s) then Take(16 * HexVal(s[2]) + HexVal(s[3]), 4)
    else if s[0] == BACKSLASH && |s| > 1 then Take(Unescaped(s[1]), 2)
    else if s[0] == DQUOTE then ClosingItem(s)
    else Take(s[0], 1)
  }

  function SingleItem(s: Bytes): (t: Item)
    ensures s == [] ==> t.Bad?
    ensures t.Take? ==> 0 < t.used <= |s|
  {
    if s == [] then Bad
    else if s[0] == BACKSLASH && |s| > 1 && s[1] == SQUOTE then Take(SQUOTE, 2)
    else if s[0] == SQUOTE then ClosingItem(s)
    else Take(s[0], 1)
  }

  function DoubleQuoted(s: Bytes): WordResult {
    match DoubleItem(s)
    case Bad => Unbalanced
    case Close => Word([], s[1..])
    case Take(c, used) => Prepend([c], DoubleQuoted(s[used..]))
  }

  function SingleQuoted(s: Bytes): WordResult {
    match SingleItem(s)
    case Bad => Unbalanced
    case Close => Word([], s[1..])
    case Take(c, used) => Prepend([c], SingleQuoted(s[used..]))
  }

  function Bare(s: Bytes): WordResult {
    if s == [] then Word([], [])
    else if IsSpace(s[0]) then Word([], s[1..])
    else if s[0] == DQUOTE then DoubleQuoted(s[1..])
    else if s[0] == SQUOTE then SingleQuoted(s[1..])
    else Prepend([s[0]], Bare(s[1..]))
  }

  lemma QuotedShrinks(s: Bytes)
    ensures DoubleQuoted(s).Word? ==> |DoubleQuoted(s).rest| < |s|
    ensures SingleQuoted(s).Word? ==> |SingleQuoted(s).rest| < |s|
  {}

  lemma BareShrinks(s: Bytes)
    ensures s != [] && Bare(s).Word? ==> |Bare(s).rest| < |s|
  {
    if s != [] {
      QuotedShrinks(s[1..]);
      BareShrinks(s[1..]);
    }
  }

  /** The words of a line, or None when a quote is unterminated or badly terminated. */
  function Words(s: Bytes): Option<seq<Bytes>>
    decreases |s|
  {
    if s == [] then Some([])
    else if IsSpace(s[0]) then Words(s[1..])
    else
      BareShrinks(s);
      match Bare(s)
      case Unbalanced => None
      case Word(w, rest) => Cons(w, Words(rest))
  }

  lemma {:induction false} DoubleQuotedIsBounded(s: Bytes)
    ensures DoubleQuoted(s).Word? ==> |DoubleQuoted(s).text| + |DoubleQuoted(s).rest| <= |s|
  {
    var t := DoubleItem(s);
    if t.Take? {
      DoubleQuotedIsBounded(s[t.used..]);
    }
  }

  lemma {:induction false} SingleQuotedIsBounded(s: Bytes)
    ensures SingleQuoted(s).Word? ==> |SingleQuoted(s).text| + |SingleQuoted(s).rest| <= |s|
  {
    var t := SingleItem(s);
    if t.Take? {
      SingleQuotedIsBounded(s[t.used..]);
    }
  }

  lemma {:induction false} BareIsBounded(s: Bytes)
    ensures Bare(s).Word? ==> |Bare(s).text| + |Bare(s).rest| <= |s|
  {
    if s != [] {
      DoubleQuotedIsBounded(s[1..]);
      SingleQuotedIsBounded(s[1..]);
      BareIsBounded(s[1..]);
    }
  }

  /** A line has no more words, and no longer ones, than it has bytes. */
  lemma {:induction false} WordsAreBounded(s: Bytes)
    ensures Words(s).Some? ==>
              |Words(s).value| <= |s| && forall i :: 0 <= i < |Words(s).value| ==> |Words(s).value[i]| <= |s|
    decreases |s|
  {
    hide Bare;
    if s != [] {
      if IsSpace(s[0]) {
        WordsAreBounded(s[1..]);
      } else {
        BareShrinks(s);
        BareIsBounded(s);
        if Bare(s).Word? {
          WordsAreBounded(Bare(s).rest);
        }
      }
    }
  }

  function Cons(w: Bytes, ws: Option<seq<Bytes>>): Option<seq<Bytes>> {
    if ws.None? then None else Some([w] + ws.value)
  }

  function Concat(done: seq<Bytes>, ws: Option<seq<Bytes>>): Option<seq<Bytes>> {
    if ws.None? then None else Some(done + ws.value)
  }

  // ----- The loop

  /** One turn of the inner loop inside double quotes. */
  method TurnDouble(p: Bytes, i: nat) returns (t: Item)
    requires i <= |p|
    ensures t == DoubleItem(p[i..])
  {
    if i >= |p| {
      t := Bad;
    } else if p[i] == BACKSLASH && i + 3 < |p| && p[i + 1] == LOWER_X && IsHex(p[i + 2]) && IsHex(p[i + 3]) {
      t := Take(16 * HexVal(p[i + 2]) + HexVal(p[i + 3]), 4);
    } else if p[i] == BACKSLASH && i + 1 < |p| {
      t := Take(Unescaped(p[i + 1]), 2);
    } else if p[i] == DQUOTE {
      t := if i + 1 < |p| && !IsSpace(p[i + 1]) then Bad else Close;
    } else {
      t := Take(p[i], 1);
    }
  }

  /** One turn of the inner loop inside single quotes. */
  method TurnSingle(p: Bytes, i: nat) returns (t: Item)
    requires i <= |p|
    ensures t == SingleItem(p[i..])
  {
    if i >= |p| {
      t := Bad;
    } else if p[i] == BACKSLASH && i + 1 < |p| && p[i + 1] == SQUOTE {
      t := Take(SQUOTE, 2);
    } else if p[i] == SQUOTE {
      t := if i + 1 < |p| && !IsSpace(p[i + 1]) then Bad else Close;
    } else {
      t := Take(p[i], 1);
    }
  }

  lemma PrependAssoc(a: Bytes, b: Bytes, w: WordResult)
    ensures Prepend(a, Prepend(b, w)) == Prepend(a + b, w)
    ensures Prepend([], w) == w
  {
    if w.Word? {
      assert a + (b + w.text) == (a + b) + w.text;
    }
  }

  function Continue(inDouble: bool, inSingle: bool, s: Bytes): WordResult {
    if inDouble then DoubleQuoted(s) else if inSingle then SingleQuoted(s) else Bare(s)
  }

  /** The inner loop: the word starting at `start`, and where it ends. */
  method SplitWord(p: Bytes, start: nat) returns (ok: bool, cur: Bytes, i: nat)
    requires start < |p|
    ensures i <= |p|
    ensures Bare(p[start..]) == if ok then Word(cur, p[i..]) else Unbalanced
  {
    hide DoubleItem, SingleItem, IsSpace;
    i, cur := start, [];
    var inDouble, inSingle, done := false, false, false;
    ghost var goal := Bare(p[start..]);
    PrependAssoc([], [], goal);
    while !done
      invariant i <= |p|
      invariant goal == if done then Word(cur, p[i..]) else Prepend(cur, Continue(inDouble, inSingle, p[i..]))
      decreases !done, |p| - i
    {
      if inDouble || inSingle {
        var t;
        if inDouble {
          t := TurnDouble(p, i);
        } else {
          t := TurnSingle(p, i);
        }
        match t {
          case Bad =>
            return false, cur, i;
          case Close =>
            assert p[i..][1..] == p[i + 1..];
            i, done := i + 1, true;
          case Take(c, used) =>
            assert p[i..][used..] == p[i + used..];
            PrependAssoc(cur, [c], Continue(inDouble, inSingle, p[i + used..]));
            cur, i := cur + [c], i + used;
        }
      } else if i >= |p| {
        done := true;
      } else {
        assert p[i..][1..] == p[i + 1..];
        if IsSpace(p[i]) {
          done := true;
        } else if p[i] == DQUOTE {
          inDouble := true;
        } else if p[i] == SQUOTE {
          inSingle := true;
        } else {
          PrependAssoc(cur, [p[i]], Bare(p[i + 1..]));
          cur := cur + [p[i]];
        }
        i := i + 1;
      }
    }
    ok := true;
  }

  method SplitInline(p: Bytes) returns (r: Option<seq<Bytes>>)
    ensures r == Words(p)
  {
    var out: seq<Bytes> := [];
    var i := 0;
    assert p[0..] == p;
    ConcatNone(Words(p));
    while true
      invariant i <= |p|
      invariant Words(p) == Concat(out, Words(p[i..]))
      decreases |p| - i
    {
      while i < |p| && IsSpace(p[i])
        invariant i <= |p|
        invariant Words(p) == Concat(out, Words(p[i..]))
      {
        assert p[i..][1..] == p[i + 1..];
        i := i + 1;
      }
      if i >= |p| {
        assert Words(p[i..]) == Some([]);
        assert out + [] == out;
        return Some(out);
      }
      BareShrinks(p[i..]);
      var ok, cur, next := SplitWord(p, i);
      if !ok {
        return None;
      }
      ConcatCons(out, cur, Words(p[next..]));
      out := out + [cur];
      i := next;
    }
  }

  lemma ConcatNone(ws: Option<seq<Bytes>>)
    ensures Concat([], ws) == ws
  {
    if ws.Some? {
      assert [] + ws.value == ws.value;
    }
  }

  lemma ConcatCons(done: seq<Bytes>, w: Bytes, ws: Option<seq<Bytes>>)
    ensures Concat(done, Cons(w, ws)) == Concat(done + [w], ws)
  {
    if ws.Some? {
      assert done + ([w] + ws.value) == (done + [w]) + ws.value;
    }
  }

  // ----- Quoting every byte

  function HexDigit(v: int): (c: Octet)
    requires 0 <= v < 16
    ensures IsHex(c) && HexVal(c) == v
  {
    if v < 10 then 48 + v else 97 + v - 10
  }

  function Escaped(c: Octet): (e: Bytes)
    ensures |e| == 4
  {
    [BACKSLASH, LOWER_X, HexDigit(c / 16), HexDigit(c % 16)]
  }

  function QuotedBody(a: Bytes): Bytes {
    if a == [] then [] else Escaped(a[0]) + QuotedBody(a[1..])
  }

  function Quoted(a: Bytes): Bytes {
    [DQUOTE] + QuotedBody(a) + [DQUOTE]
  }

  /** Each argument double-quoted with `\xHH` for every byte, blanks between. */
  function QuotedLine(argv: seq<Bytes>): Bytes {
    if argv == [] then []
    else if |argv| == 1 then Quoted(argv[0])
    else Quoted(argv[0]) + [SPACE] + QuotedLine(argv[1..])
  }

  lemma ReadEscaped(c: Octet, rest: Bytes)
    ensures DoubleQuoted(Escaped(c) + rest) == Prepend([c], DoubleQuoted(rest))
  {
    hide HexVal, HexDigit;
    var s := Escaped(c) + rest;
    assert s[..4] == Escaped(c);
    assert s[0] == BACKSLASH && s[1] == LOWER_X && s[2] == HexDigit(c / 16) && s[3] == HexDigit(c % 16);
    assert StartsHexEscape(s);
    assert 16 * (c / 16) + c % 16 == c;
    assert DoubleItem(s) == Take(c, 4);
    assert s[4..] == rest;
  }

  lemma ReadClosing(tail: Bytes)
    requires tail == [] || IsSpace(tail[0])
    ensures DoubleQuoted([DQUOTE] + tail) == Word([], tail)
  {
    var s := [DQUOTE] + tail;
    assert s[0] == DQUOTE && s[1..] == tail;
    assert |s| > 1 ==> s[1] == tail[0];
    assert DoubleItem(s) == Close;
  }

  lemma {:induction false} ReadQuotedBody(a: Bytes, tail: Bytes)
    requires tail == [] || IsSpace(tail[0])
    ensures DoubleQuoted(QuotedBody(a) + ([DQUOTE] + tail)) == Word(a, tail)
  {
    hide DoubleQuoted, Escaped;
    if a == [] {
      assert QuotedBody(a) + ([DQUOTE] + tail) == [DQUOTE] + tail;
      ReadClosing(tail);
    } else {
      var rest := QuotedBody(a[1..]) + ([DQUOTE] + tail);
      Assoc3(Escaped(a[0]), QuotedBody(a[1..]), [DQUOTE] + tail);
      ReadEscaped(a[0], rest);
      ReadQuotedBody(a[1..], tail);
      assert [a[0]] + a[1..] == a;
    }
  }

  lemma {:induction false} ReadQuoted(a: Bytes, tail: Bytes)
    requires tail == [] || IsSpace(tail[0])
    ensures Bare(Quoted(a) + tail) == Word(a, tail)
    ensures Quoted(a) + tail != [] && (Quoted(a) + tail)[0] == DQUOTE
  {
    hide DoubleQuoted, QuotedBody;
    var s := Quoted(a) + tail;
    var inner := QuotedBody(a) + ([DQUOTE] + tail);
    assert s == [DQUOTE] + inner by {
      Assoc4([DQUOTE], QuotedBody(a), [DQUOTE], tail);
      Assoc3(QuotedBody(a), [DQUOTE], tail);
    }
    assert s[0] == DQUOTE && s[1..] == inner;
    assert Bare(s) == DoubleQuoted(inner);
    ReadQuotedBody(a, tail);
  }

  /** A quoted word and what follows it. */
  lemma WordsAfterQuoted(a: Bytes, tail: Bytes)
    requires tail == [] || IsSpace(tail[0])
    ensures Words(Quoted(a) + tail) == Cons(a, Words(tail))
  {
    hide Bare, Quoted;
    var s := Quoted(a) + tail;
    ReadQuoted(a, tail);
    assert s != [] && !IsSpace(s[0]);
    assert Bare(s) == Word(a, tail);
    assert Words(s) == Cons(a, Words(tail));
  }

  lemma WordsAfterSpace(s: Bytes)
    ensures Words([SPACE] + s) == Words(s)
  {
    hide Bare;
    assert ([SPACE] + s)[1..] == s;
  }

  /** Splitting inverts quoting, for arguments holding any bytes whatsoever. */
  lemma {:induction false} WordsOfQuotedLine(argv: seq<Bytes>)
    ensures Words(QuotedLine(argv)) == Some(argv)
  {
    hide Words, Quoted;
    if argv == [] {
      assert Words([]) == Some([]) by {
        NoWords();
      }
    } else {
      WordsOfQuotedLine(argv[1..]);
      var rest := QuotedLine(argv[1..]);
      var tail := if |argv| == 1 then [] else [SPACE] + rest;
      assert QuotedLine(argv) == Quoted(argv[0]) + tail by {
        if |argv| > 1 {
          Assoc3(Quoted(argv[0]), [SPACE], rest);
        }
      }
      WordsAfterQuoted(argv[0], tail);
      if |argv| > 1 {
        WordsAfterSpace(rest);
      }
      assert [argv[0]] + argv[1..] == argv;
    }
  }

  lemma NoWords()
    ensures Words([]) == Some([])
  {}

  lemma {:induction false} QuotedLineHasNoNewline(argv: seq<Bytes>)
    ensures LF !in QuotedLine(argv)
    ensures argv != [] ==> QuotedLine(argv) != [] && QuotedLine(argv)[0] == DQUOTE
    ensures argv != [] ==> QuotedLine(argv)[|QuotedLine(argv)| - 1] == DQUOTE
  {
    if argv != [] {
      QuotedBodyHasNoNewline(argv[0]);
      QuotedLineHasNoNewline(argv[1..]);
    }
  }

  lemma QuotedBodyHasNoNewline(a: Bytes)
    ensures LF !in QuotedBody(a)
  {}
}

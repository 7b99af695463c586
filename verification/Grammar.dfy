/**
 The lines that inline splitting accepts, written down from the other side: how words are spelled and
 laid out. Splitting accepts exactly these lines and gives back exactly the words they spell.
 */
module Grammar {
  import opened Octets
  import opened Inline

  // ----- Spelling

  predicate Blank(c: Octet) {
    c in [9, 10, 11, 12, 13, 32]
  }

  const HEX_BYTES: Bytes :=
    [48, 49, 50, 51, 52, 53, 54, 55, 56, 57, 65, 66, 67, 68, 69, 70, 97, 98, 99, 100, 101, 102]

  /** Two hexadecimal digits at the front. */
  predicate HexPair(s: Bytes) {
    |s| >= 2 && s[0] in HEX_BYTES && s[1] in HEX_BYTES
  }

  /** The digit of value `v`, in upper or lower case. */
  function HexByte(v: int, upper: bool): Octet
    requires 0 <= v < 16
  {
    if v < 10 then HEX_BYTES[v] else if upper then HEX_BYTES[v] else HEX_BYTES[v + 6]
  }

  /** newline, return, tab, backspace and bell by their letters. */
  const ESCAPES: map<Octet, Octet> := map[110 := 10, 114 := 13, 116 := 9, 98 := 8, 97 := 7]

  /** One byte of a quoted body, as written between the quotes. */
  datatype Piece =
    | Plain(c: Octet)
    | Hex(hi: int, lo: int, upperHi: bool, upperLo: bool)
    | Escape(c: Octet)

  predicate IsDigitValue(v: int) {
    0 <= v < 16
  }

  predicate Proper(p: Piece) {
    p.Hex? ==> IsDigitValue(p.hi) && IsDigitValue(p.lo)
  }

  function SpellPiece(p: Piece): (s: Bytes)
    requires Proper(p)
    ensures s != []
  {
    match p
    case Plain(c) => [c]
    case Hex(hi, lo, upperHi, upperLo) => [92, 120, HexByte(hi, upperHi), HexByte(lo, upperLo)]
    case Escape(c) => [92, c]
  }

  function MeanPiece(p: Piece): Octet
    requires Proper(p)
  {
    match p
    case Plain(c) => c
    case Hex(hi, lo, _, _) => 16 * hi + lo
    case Escape(c) => if c in ESCAPES then ESCAPES[c] else c
  }

  predicate AllProper(ps: seq<Piece>) {
    forall i :: 0 <= i < |ps| ==> Proper(ps[i])
  }

  function Spell(ps: seq<Piece>): Bytes
    requires AllProper(ps)
  {
    if ps == [] then [] else SpellPiece(ps[0]) + Spell(ps[1..])
  }

  function Mean(ps: seq<Piece>): Bytes
    requires AllProper(ps)
  {
    if ps == [] then [] else [MeanPiece(ps[0])] + Mean(ps[1..])
  }

  /** Between double quotes: no bare quote or backslash; `\x` not before two hexadecimal digits. */
  predicate GoodInDouble(p: Piece, after: Bytes) {
    match p
    case Plain(c) => c != 34 && c != 92
    case Hex(_, _, _, _) => true
    case Escape(c) => c == 120 ==> !HexPair(after)
  }

  predicate GoodDouble(ps: seq<Piece>) {
    AllProper(ps) && (ps == [] || (GoodInDouble(ps[0], Spell(ps[1..]) + [34]) && GoodDouble(ps[1..])))
  }

  /** Between single quotes: only `\'` is an escape, and a backslash is not the last byte. */
  predicate GoodInSingle(p: Piece, last: bool) {
    match p
    case Plain(c) => c != 39 && (c == 92 ==> !last)
    case Hex(_, _, _, _) => false
    case Escape(c) => c == 39
  }

  predicate GoodSingle(ps: seq<Piece>) {
    ps == [] || (GoodInSingle(ps[0], |ps| == 1) && GoodSingle(ps[1..]))
  }

  lemma DoubleIsProper(ps: seq<Piece>)
    requires GoodDouble(ps)
    ensures AllProper(ps)
  {}

  lemma {:induction false} SingleIsProper(ps: seq<Piece>)
    requires GoodSingle(ps)
    ensures AllProper(ps)
    decreases |ps|
  {
    if ps != [] {
      SingleIsProper(ps[1..]);
      assert forall i :: 1 <= i < |ps| ==> ps[i] == ps[1..][i - 1];
    }
  }

  datatype Quote = Open | Double(ps: seq<Piece>) | Single(ps: seq<Piece>)

  /** A word as written: bare bytes, then possibly a quoted part that ends it. */
  datatype Token = Token(bare: Bytes, quote: Quote)

  predicate AllBare(s: Bytes) {
    forall i :: 0 <= i < |s| ==> !Blank(s[i]) && s[i] != 34 && s[i] != 39
  }

  predicate GoodQuote(q: Quote) {
    match q
    case Open => true
    case Double(ps) => GoodDouble(ps)
    case Single(ps) => GoodSingle(ps)
  }

  predicate GoodToken(t: Token) {
    AllBare(t.bare) && GoodQuote(t.quote) && (t.quote.Open? ==> t.bare != [])
  }

  function SpellQuote(q: Quote): Bytes
    requires GoodQuote(q)
  {
    match q
    case Open => []
    case Double(ps) => [34] + (Spell(ps) + [34])
    case Single(ps) =>
      SingleIsProper(ps);
      [39] + (Spell(ps) + [39])
  }

  function MeanQuote(q: Quote): Bytes
    requires GoodQuote(q)
  {
    match q
    case Open => []
    case Double(ps) => Mean(ps)
    case Single(ps) =>
      SingleIsProper(ps);
      Mean(ps)
  }

  function SpellToken(t: Token): Bytes
    requires GoodQuote(t.quote)
  {
    t.bare + SpellQuote(t.quote)
  }

  function MeanToken(t: Token): Bytes
    requires GoodQuote(t.quote)
  {
    t.bare + MeanQuote(t.quote)
  }

  predicate AllBlank(s: Bytes) {
    forall i :: 0 <= i < |s| ==> Blank(s[i])
  }

  /** White space around the words, and at least one byte of it between two words. */
  predicate GoodLine(tokens: seq<Token>, gaps: seq<Bytes>) {
    |gaps| == |tokens| + 1 && AllBlank(gaps[0]) &&
    (tokens == [] ||
     (GoodToken(tokens[0]) && GoodLine(tokens[1..], gaps[1..]) && (|tokens| > 1 ==> gaps[1] != [])))
  }

  function Line(tokens: seq<Token>, gaps: seq<Bytes>): Bytes
    requires GoodLine(tokens, gaps)
    decreases |tokens|
  {
    if tokens == [] then gaps[0] else gaps[0] + (SpellToken(tokens[0]) + Line(tokens[1..], gaps[1..]))
  }

  function MeanAll(tokens: seq<Token>, gaps: seq<Bytes>): seq<Bytes>
    requires GoodLine(tokens, gaps)
    decreases |tokens|
  {
    if tokens == [] then [] else [MeanToken(tokens[0])] + MeanAll(tokens[1..], gaps[1..])
  }

  // ----- Bytes

  lemma BlankIsSpace(c: Octet)
    ensures Blank(c) <==> IsSpace(c)
  {}

  lemma HexBytes(c: Octet)
    ensures c in HEX_BYTES <==> IsHex(c)
  {
    if IsHex(c) {
      var i := if c <= 57 then c - 48 else if c <= 70 then c - 55 else c - 81;
      assert HEX_BYTES[i] == c;
    }
  }

  lemma HexByteValue(v: int, upper: bool)
    requires IsDigitValue(v)
    ensures IsHex(HexByte(v, upper)) && HexVal(HexByte(v, upper)) == v
  {}

  lemma ByteOfHexValue(c: Octet)
    requires IsHex(c)
    ensures IsDigitValue(HexVal(c)) && HexByte(HexVal(c), c < 97) == c
  {}

  lemma EscapeMeaning(c: Octet)
    ensures Unescaped(c) == MeanPiece(Escape(c))
  {}

  // ----- Reading what was spelled

  predicate EndsWord(tail: Bytes) {
    tail == [] || Blank(tail[0])
  }

  lemma ClosesWord(quote: Octet, tail: Bytes)
    requires EndsWord(tail)
    ensures var s := [quote] + tail; ClosingItem(s) == Close && s[0] == quote && s[1..] == tail
  {
    if tail != [] {
      BlankIsSpace(tail[0]);
      assert ([quote] + tail)[1] == tail[0];
    }
  }

  /** The first piece of a double-quoted body is taken as its meaning. */
  lemma DoubleTakes(ps: seq<Piece>, tail: Bytes)
    requires GoodDouble(ps) && ps != []
    ensures var after := Spell(ps[1..]) + ([34] + tail);
      DoubleItem(SpellPiece(ps[0]) + after) == Take(MeanPiece(ps[0]), |SpellPiece(ps[0])|)
  {
    var p, rest := ps[0], Spell(ps[1..]) + [34];
    var after := Spell(ps[1..]) + ([34] + tail);
    assert after == rest + tail;
    var s := SpellPiece(p) + after;
    match p {
      case Plain(c) =>
        assert s[0] == c;
      case Hex(hi, lo, upperHi, upperLo) =>
        assert s[0] == 92 && s[1] == 120 && s[2] == HexByte(hi, upperHi) && s[3] == HexByte(lo, upperLo);
        HexByteValue(hi, upperHi);
        HexByteValue(lo, upperLo);
      case Escape(c) =>
        assert s[0] == 92 && s[1] == c;
        EscapeMeaning(c);
        if StartsHexEscape(s) {
          assert s[2] == after[0] && s[3] == after[1];
          NotHexPair(rest, tail);
          assert false;
        }
    }
  }

  /** A quote is no hexadecimal digit. */
  lemma NotHexPair(rest: Bytes, tail: Bytes)
    requires rest != [] && rest[|rest| - 1] == 34 && |rest + tail| >= 2
    requires IsHex((rest + tail)[0]) && IsHex((rest + tail)[1])
    ensures HexPair(rest)
  {
    assert (rest + tail)[0] == rest[0];
    assert |rest| >= 2;
    assert (rest + tail)[1] == rest[1];
    HexBytes(rest[0]);
    HexBytes(rest[1]);
  }

  lemma {:induction false} ReadDouble(ps: seq<Piece>, tail: Bytes)
    requires GoodDouble(ps) && EndsWord(tail)
    ensures DoubleQuoted(Spell(ps) + ([34] + tail)) == Word(Mean(ps), tail)
    decreases |ps|
  {
    hide DoubleItem, SpellPiece, MeanPiece, ClosingItem, EndsWord, Blank;
    var s := Spell(ps) + ([34] + tail);
    if ps == [] {
      assert s == [34] + tail;
      ClosesWord(34, tail);
      assert DoubleItem(s) == Close by {
        QuoteItem(s);
      }
    } else {
      var after := Spell(ps[1..]) + ([34] + tail);
      assert s == SpellPiece(ps[0]) + after;
      DoubleTakes(ps, tail);
      assert s[|SpellPiece(ps[0])|..] == after;
      ReadDouble(ps[1..], tail);
    }
  }

  lemma QuoteItem(s: Bytes)
    requires s != []
    ensures s[0] == 34 ==> DoubleItem(s) == ClosingItem(s)
    ensures s[0] == 39 ==> SingleItem(s) == ClosingItem(s)
  {}

  lemma SingleTakes(ps: seq<Piece>, tail: Bytes)
    requires GoodSingle(ps) && ps != [] && AllProper(ps[1..])
    ensures Proper(ps[0])
    ensures var after := Spell(ps[1..]) + ([39] + tail);
      SingleItem(SpellPiece(ps[0]) + after) == Take(MeanPiece(ps[0]), |SpellPiece(ps[0])|)
  {
    var p := ps[0];
    var after := Spell(ps[1..]) + ([39] + tail);
    var s := SpellPiece(p) + after;
    match p {
      case Plain(c) =>
        assert s[0] == c && s[1] == after[0];
        if c == 92 {
          var next := ps[1..][0];
          assert ps[1..] != [] && after[0] == SpellPiece(next)[0];
          assert GoodSingle(ps[1..]);
          assert after[0] != 39;
        }
      case Escape(c) =>
        assert s[0] == 92 && s[1] == 39;
      case Hex(_, _, _, _) =>
    }
  }

  lemma {:induction false} ReadSingle(ps: seq<Piece>, tail: Bytes)
    requires GoodSingle(ps) && AllProper(ps) && EndsWord(tail)
    ensures SingleQuoted(Spell(ps) + ([39] + tail)) == Word(Mean(ps), tail)
    decreases |ps|
  {
    hide SingleItem, SpellPiece, MeanPiece, ClosingItem, EndsWord, Blank;
    var s := Spell(ps) + ([39] + tail);
    if ps == [] {
      assert s == [39] + tail;
      ClosesWord(39, tail);
      assert SingleItem(s) == Close by {
        QuoteItem(s);
      }
    } else {
      var after := Spell(ps[1..]) + ([39] + tail);
      assert s == SpellPiece(ps[0]) + after;
      SingleTakes(ps, tail);
      assert s[|SpellPiece(ps[0])|..] == after;
      ReadSingle(ps[1..], tail);
    }
  }

  /** What `Bare` leaves of the tail of a token: a bare word takes the byte of white space that ends it. */
  function Left(q: Quote, tail: Bytes): Bytes {
    if q.Open? && tail != [] then tail[1..] else tail
  }

  lemma ReadQuote(q: Quote, tail: Bytes)
    requires GoodQuote(q) && EndsWord(tail)
    ensures Bare(SpellQuote(q) + tail) == Word(MeanQuote(q), Left(q, tail))
  {
    hide Bare, Spell, Mean, GoodDouble, GoodSingle;
    match q {
      case Open =>
        assert SpellQuote(q) + tail == tail;
        BareEnds(tail);
      case Double(ps) =>
        DoubleIsProper(ps);
        ReadDouble(ps, tail);
        Enclosed(34, Spell(ps), tail);
        BareOpens(34, Spell(ps) + ([34] + tail));
      case Single(ps) =>
        SingleIsProper(ps);
        ReadSingle(ps, tail);
        Enclosed(39, Spell(ps), tail);
        BareOpens(39, Spell(ps) + ([39] + tail));
    }
  }

  lemma Enclosed(quote: Octet, body: Bytes, tail: Bytes)
    ensures [quote] + (body + [quote]) + tail == [quote] + (body + ([quote] + tail))
  {}

  lemma BareEnds(tail: Bytes)
    requires EndsWord(tail)
    ensures Bare(tail) == Word([], if tail != [] then tail[1..] else tail)
  {
    if tail != [] {
      BlankIsSpace(tail[0]);
    }
  }

  lemma BareOpens(quote: Octet, s: Bytes)
    requires quote == 34 || quote == 39
    ensures Bare([quote] + s) == if quote == 34 then DoubleQuoted(s) else SingleQuoted(s)
  {
    hide DoubleQuoted, SingleQuoted;
    assert ([quote] + s)[0] == quote && ([quote] + s)[1..] == s;
  }

  lemma {:induction false} ReadBare(bare: Bytes, q: Quote, tail: Bytes)
    requires AllBare(bare) && GoodQuote(q) && EndsWord(tail)
    ensures Bare(bare + (SpellQuote(q) + tail)) == Word(bare + MeanQuote(q), Left(q, tail))
    decreases |bare|
  {
    hide SpellQuote, MeanQuote, GoodQuote, EndsWord;
    var s := bare + (SpellQuote(q) + tail);
    if bare == [] {
      assert s == SpellQuote(q) + tail;
      ReadQuote(q, tail);
      assert [] + MeanQuote(q) == MeanQuote(q);
    } else {
      assert s[0] == bare[0] && s[1..] == bare[1..] + (SpellQuote(q) + tail);
      BlankIsSpace(s[0]);
      ReadBare(bare[1..], q, tail);
      assert [bare[0]] + (bare[1..] + MeanQuote(q)) == bare + MeanQuote(q);
    }
  }

  /** A token starts with a byte that is no white space. */
  lemma TokenStarts(t: Token)
    requires GoodToken(t)
    ensures SpellToken(t) != [] && !Blank(SpellToken(t)[0])
  {}

  lemma ReadToken(t: Token, tail: Bytes)
    requires GoodToken(t) && EndsWord(tail)
    ensures Words(SpellToken(t) + tail) == Cons(MeanToken(t), Words(tail))
  {
    hide Bare, SpellQuote, MeanQuote, GoodQuote;
    var s := SpellToken(t) + tail;
    TokenStarts(t);
    assert s[0] == SpellToken(t)[0];
    BlankIsSpace(s[0]);
    assert s == t.bare + (SpellQuote(t.quote) + tail);
    ReadBare(t.bare, t.quote, tail);
    if tail != [] {
      BlankIsSpace(tail[0]);
    }
    assert Words(Left(t.quote, tail)) == Words(tail);
  }

  lemma {:induction false} SkipBlanks(gap: Bytes, s: Bytes)
    requires AllBlank(gap)
    ensures Words(gap + s) == Words(s)
    decreases |gap|
  {
    hide Bare;
    if gap == [] {
      assert gap + s == s;
    } else {
      BlankIsSpace(gap[0]);
      assert (gap + s)[0] == gap[0] && (gap + s)[1..] == gap[1..] + s;
      SkipBlanks(gap[1..], s);
    }
  }

  /** What follows a word of a line ends it. */
  lemma LineEndsWord(tokens: seq<Token>, gaps: seq<Bytes>)
    requires GoodLine(tokens, gaps) && (tokens != [] ==> gaps[0] != [])
    ensures EndsWord(Line(tokens, gaps))
  {}

  /** Every line laid out this way is accepted and means its words. */
  lemma {:induction false} WordsOfLine(tokens: seq<Token>, gaps: seq<Bytes>)
    requires GoodLine(tokens, gaps)
    ensures Words(Line(tokens, gaps)) == Some(MeanAll(tokens, gaps))
    decreases |tokens|
  {
    hide Words, SpellToken, MeanToken, GoodQuote, EndsWord;
    if tokens == [] {
      assert gaps[0] + [] == gaps[0];
      SkipBlanks(gaps[0], []);
      assert Words([]) == Some([]) by {
        NoWords();
      }
    } else {
      var tail := Line(tokens[1..], gaps[1..]);
      LineEndsWord(tokens[1..], gaps[1..]);
      ReadToken(tokens[0], tail);
      WordsOfLine(tokens[1..], gaps[1..]);
      SkipBlanks(gaps[0], SpellToken(tokens[0]) + tail);
    }
  }

  // ----- Nothing else is accepted

  lemma {:induction false} DoubleIsSpelled(s: Bytes) returns (ps: seq<Piece>)
    requires DoubleQuoted(s).Word?
    ensures var w := DoubleQuoted(s);
      && GoodDouble(ps) && EndsWord(w.rest)
      && s == Spell(ps) + ([34] + w.rest) && w.text == Mean(ps)
    decreases |s|
  {
    hide DoubleItem, SpellPiece, MeanPiece, GoodDouble, EndsWord;
    var item := DoubleItem(s);
    if item.Close? {
      ps := [];
      ClosedDouble(s);
      assert Spell(ps) + ([34] + s[1..]) == s;
    } else {
      assert item.Take?;
      var later := DoubleIsSpelled(s[item.used..]);
      DoubleIsProper(later);
      var p := DoublePiece(s, later, DoubleQuoted(s[item.used..]).rest);
      ps := [p] + later;
      DoubleIsProper(ps);
      assert ps[1..] == later;
      assert s == s[..item.used] + s[item.used..];
      Assoc3(SpellPiece(p), Spell(later), [34] + DoubleQuoted(s).rest);
    }
  }

  lemma ClosedDouble(s: Bytes)
    requires DoubleItem(s).Close?
    ensures s != [] && s == [34] + s[1..] && EndsWord(s[1..]) && GoodDouble([])
  {
    if |s| > 1 {
      BlankIsSpace(s[1]);
    }
  }

  lemma DoublePiece(s: Bytes, later: seq<Piece>, rest: Bytes) returns (p: Piece)
    requires DoubleItem(s).Take? && GoodDouble(later)
    requires s[DoubleItem(s).used..] == Spell(later) + ([34] + rest)
    ensures Proper(p) && SpellPiece(p) == s[..DoubleItem(s).used] && MeanPiece(p) == DoubleItem(s).c
    ensures GoodDouble([p] + later)
  {
    DoubleIsProper(later);
    hide Spell, GoodDouble;
    if StartsHexEscape(s) {
      p := Hex(HexVal(s[2]), HexVal(s[3]), s[2] < 97, s[3] < 97);
      HexPiece(s);
    } else if s[0] == 92 {
      p := Escape(s[1]);
      EscapeMeaning(s[1]);
      if s[1] == 120 {
        NoHexAfter(s, later, rest);
      }
      assert s[..2] == [92, s[1]];
    } else {
      p := Plain(s[0]);
      assert s[..1] == [s[0]];
    }
    OneMoreDouble(p, later);
  }

  lemma HexPiece(s: Bytes)
    requires StartsHexEscape(s)
    ensures var p := Hex(HexVal(s[2]), HexVal(s[3]), s[2] < 97, s[3] < 97);
      && Proper(p) && SpellPiece(p) == s[..4] && DoubleItem(s) == Take(MeanPiece(p), 4)
  {
    ByteOfHexValue(s[2]);
    ByteOfHexValue(s[3]);
    assert s[..4] == [s[0], s[1], s[2], s[3]];
  }

  lemma NoHexAfter(s: Bytes, later: seq<Piece>, rest: Bytes)
    requires |s| > 1 && s[0] == 92 && s[1] == 120 && !StartsHexEscape(s)
    requires AllProper(later) && s[2..] == Spell(later) + ([34] + rest)
    ensures !HexPair(Spell(later) + [34])
  {
    var body := Spell(later) + [34];
    assert s[2..] == body + rest;
    if HexPair(body) {
      assert s[2] == body[0] && s[3] == body[1];
      HexBytes(s[2]);
      HexBytes(s[3]);
      assert false;
    }
  }

  lemma OneMoreDouble(p: Piece, later: seq<Piece>)
    requires Proper(p) && GoodDouble(later) && GoodInDouble(p, Spell(later) + [34])
    ensures GoodDouble([p] + later)
  {
    hide Spell, GoodInDouble;
    assert ([p] + later)[1..] == later;
  }

  lemma {:induction false} SingleIsSpelled(s: Bytes) returns (ps: seq<Piece>)
    requires SingleQuoted(s).Word?
    ensures var w := SingleQuoted(s);
      && GoodSingle(ps) && AllProper(ps) && EndsWord(w.rest)
      && s == Spell(ps) + ([39] + w.rest) && w.text == Mean(ps)
    decreases |s|
  {
    hide SingleItem, SpellPiece, MeanPiece, GoodInSingle, EndsWord;
    var item := SingleItem(s);
    if item.Close? {
      ps := [];
      ClosedSingle(s);
      assert Spell(ps) + ([39] + s[1..]) == s;
    } else {
      assert item.Take?;
      var later := SingleIsSpelled(s[item.used..]);
      var p := SinglePiece(s, later, SingleQuoted(s[item.used..]).rest);
      ps := [p] + later;
      assert ps[1..] == later;
      assert s == s[..item.used] + s[item.used..];
      Assoc3(SpellPiece(p), Spell(later), [39] + SingleQuoted(s).rest);
    }
  }

  lemma ClosedSingle(s: Bytes)
    requires SingleItem(s).Close?
    ensures s != [] && s == [39] + s[1..] && EndsWord(s[1..])
  {
    if |s| > 1 {
      BlankIsSpace(s[1]);
    }
  }

  lemma SinglePiece(s: Bytes, later: seq<Piece>, rest: Bytes) returns (p: Piece)
    requires SingleItem(s).Take? && AllProper(later)
    requires s[SingleItem(s).used..] == Spell(later) + ([39] + rest)
    ensures Proper(p) && SpellPiece(p) == s[..SingleItem(s).used] && MeanPiece(p) == SingleItem(s).c
    ensures GoodInSingle(p, later == [])
  {
    var used := SingleItem(s).used;
    if used == 2 {
      p := Escape(39);
      assert s[..2] == [92, 39];
    } else {
      p := Plain(s[0]);
      assert s[..1] == [s[0]];
      if later == [] {
        assert s[1] == s[1..][0] == 39;
      }
    }
  }

  lemma {:induction false} BareIsSpelled(s: Bytes) returns (t: Token, tail: Bytes)
    requires Bare(s).Word?
    ensures var w := Bare(s);
      && AllBare(t.bare) && GoodQuote(t.quote) && EndsWord(tail)
      && s == SpellToken(t) + tail && w.text == MeanToken(t) && w.rest == Left(t.quote, tail)
    decreases |s|
  {
    hide DoubleQuoted, SingleQuoted, Spell, Mean, GoodDouble, GoodSingle, SpellQuote, MeanQuote, EndsWord;
    if s == [] || IsSpace(s[0]) {
      t, tail := Token([], Open), s;
      NoToken(s);
    } else if s[0] == 34 {
      var ps := DoubleIsSpelled(s[1..]);
      t, tail := Token([], Double(ps)), DoubleQuoted(s[1..]).rest;
      assert s == [34] + s[1..];
      OnlyQuote(t.quote, s, tail);
    } else if s[0] == 39 {
      var ps := SingleIsSpelled(s[1..]);
      t, tail := Token([], Single(ps)), SingleQuoted(s[1..]).rest;
      assert s == [39] + s[1..];
      OnlyQuote(t.quote, s, tail);
    } else {
      var later: Token;
      later, tail := BareIsSpelled(s[1..]);
      BlankIsSpace(s[0]);
      t := Token([s[0]] + later.bare, later.quote);
      assert s == [s[0]] + s[1..];
      Assoc3([s[0]], later.bare, SpellQuote(later.quote));
      Assoc3([s[0]], SpellToken(later), tail);
      Assoc3([s[0]], later.bare, MeanQuote(later.quote));
    }
  }

  lemma NoToken(s: Bytes)
    requires s == [] || IsSpace(s[0])
    ensures var t := Token([], Open);
      && SpellToken(t) + s == s && MeanToken(t) == [] && EndsWord(s)
  {
    if s != [] {
      BlankIsSpace(s[0]);
    }
  }

  lemma OnlyQuote(q: Quote, s: Bytes, tail: Bytes)
    requires GoodQuote(q) && !q.Open?
    requires q.Double? ==> s == [34] + (Spell(q.ps) + ([34] + tail))
    requires q.Single? ==> AllProper(q.ps) && s == [39] + (Spell(q.ps) + ([39] + tail))
    ensures var t := Token([], q);
      && SpellToken(t) + tail == s && MeanToken(t) == MeanQuote(q)
      && MeanQuote(q) == (SingleOrDoubleIsProper(q); Mean(q.ps))
  {
    hide Spell, Mean, GoodDouble, GoodSingle;
    SingleOrDoubleIsProper(q);
    Enclosed(if q.Double? then 34 else 39, Spell(q.ps), tail);
    assert [] + SpellQuote(q) == SpellQuote(q) && [] + MeanQuote(q) == MeanQuote(q);
  }

  lemma SingleOrDoubleIsProper(q: Quote)
    requires GoodQuote(q) && !q.Open?
    ensures AllProper(q.ps)
  {
    if q.Double? {
      DoubleIsProper(q.ps);
    } else {
      SingleIsProper(q.ps);
    }
  }

  /** Every line that splitting accepts is laid out this way, and its words are what it means. */
  lemma {:induction false} LineOfWords(s: Bytes) returns (tokens: seq<Token>, gaps: seq<Bytes>)
    requires Words(s).Some?
    ensures GoodLine(tokens, gaps) && Line(tokens, gaps) == s && Words(s) == Some(MeanAll(tokens, gaps))
    decreases |s|
  {
    hide Bare, SpellToken, MeanToken;
    if s == [] {
      tokens, gaps := [], [[]];
    } else if IsSpace(s[0]) {
      BlankIsSpace(s[0]);
      var later: seq<Bytes>;
      tokens, later := LineOfWords(s[1..]);
      gaps := [[s[0]] + later[0]] + later[1..];
      assert s == [s[0]] + s[1..];
      WiderGap(tokens, later, s[0]);
    } else {
      var t, tail := BareIsSpelled(s);
      BlankIsSpace(s[0]);
      TokenIsGood(t, tail, s);
      ReadToken(t, tail);
      var tokens', gaps' := LineOfWords(tail);
      GapNeeded(tokens', gaps');
      tokens, gaps := [t] + tokens', [[]] + gaps';
      assert tokens[1..] == tokens' && gaps[1..] == gaps';
      assert [] + (SpellToken(t) + tail) == s;
    }
  }

  lemma WiderGap(tokens: seq<Token>, gaps: seq<Bytes>, c: Octet)
    requires GoodLine(tokens, gaps) && Blank(c)
    ensures var wider := [[c] + gaps[0]] + gaps[1..];
      && GoodLine(tokens, wider)
      && Line(tokens, wider) == [c] + Line(tokens, gaps)
      && MeanAll(tokens, wider) == MeanAll(tokens, gaps)
  {
    hide SpellToken, MeanToken, GoodQuote;
    var wider := [[c] + gaps[0]] + gaps[1..];
    assert wider[1..] == gaps[1..];
    if tokens != [] {
      Assoc3([c], gaps[0], SpellToken(tokens[0]) + Line(tokens[1..], gaps[1..]));
    }
  }

  lemma TokenIsGood(t: Token, tail: Bytes, s: Bytes)
    requires AllBare(t.bare) && GoodQuote(t.quote) && EndsWord(tail)
    requires s != [] && !Blank(s[0]) && s == SpellToken(t) + tail
    ensures GoodToken(t) && |tail| < |s|
  {
    if t.quote.Open? && t.bare == [] {
      NothingSpelled(t, tail);
      assert false;
    }
    TokenStarts(t);
  }

  lemma NothingSpelled(t: Token, tail: Bytes)
    requires t.quote.Open? && t.bare == []
    ensures SpellToken(t) + tail == tail
  {}

  lemma GapNeeded(tokens: seq<Token>, gaps: seq<Bytes>)
    requires GoodLine(tokens, gaps) && EndsWord(Line(tokens, gaps))
    ensures tokens != [] ==> gaps[0] != []
  {
    hide GoodQuote, SpellToken;
    if tokens != [] && gaps[0] == [] {
      LineStarts(tokens, gaps);
      assert false;
    }
  }

  lemma LineStarts(tokens: seq<Token>, gaps: seq<Bytes>)
    requires GoodLine(tokens, gaps) && tokens != [] && gaps[0] == []
    ensures Line(tokens, gaps) != [] && !Blank(Line(tokens, gaps)[0])
  {
    hide GoodQuote, SpellToken;
    TokenStarts(tokens[0]);
    assert Line(tokens, gaps) == SpellToken(tokens[0]) + Line(tokens[1..], gaps[1..]);
  }

  /** Splitting accepts exactly the lines so laid out, and means exactly what they spell. */
  lemma SplittingIsExact(s: Bytes, words: seq<Bytes>)
    ensures Words(s) == Some(words) <==>
              exists tokens, gaps :: GoodLine(tokens, gaps) && Line(tokens, gaps) == s && MeanAll(tokens, gaps) == words
  {
    hide Words, GoodLine, Line, MeanAll;
    if Words(s) == Some(words) {
      var tokens, gaps := LineOfWords(s);
      assert GoodLine(tokens, gaps) && Line(tokens, gaps) == s && MeanAll(tokens, gaps) == words;
    }
    forall tokens, gaps | GoodLine(tokens, gaps) && Line(tokens, gaps) == s && MeanAll(tokens, gaps) == words
      ensures Words(s) == Some(words)
    {
      WordsOfLine(tokens, gaps);
    }
  }
}

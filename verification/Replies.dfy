/** Replies as values, and the reading of them that a RESP2 client performs. */
module Replies {
  import opened Octets
  import opened IntCodec
  import opened Writer

  datatype Reply =
    | Simple(text: Bytes)
    | Error(text: Bytes)
    | Integer(n: int)
    | Bulk(data: Bytes)
    | NullBulk
    | EmptyArray

  function Encode(r: Reply): (b: Bytes)
    ensures b != []
  {
    match r
    case Simple(text) => SimpleLine(text)
    case Error(text) => ErrorLine(text)
    case Integer(n) => IntegerLine(n)
    case Bulk(data) => BulkString(data)
    case NullBulk => NULL_BULK
    case EmptyArray => ArrayHeader(0)
  }

  function EncodeAll(rs: seq<Reply>): Bytes {
    if rs == [] then [] else Encode(rs[0]) + EncodeAll(rs[1..])
  }

  lemma {:induction false} EncodeAllAppend(a: seq<Reply>, b: seq<Reply>)
    ensures EncodeAll(a + b) == EncodeAll(a) + EncodeAll(b)
  {
    if a == [] {
      assert a + b == b;
    } else {
      assert (a + b)[1..] == a[1..] + b;
      EncodeAllAppend(a[1..], b);
    }
  }

  lemma EncodeAllOne(rs: seq<Reply>, r: Reply)
    ensures EncodeAll(rs + [r]) == EncodeAll(rs) + Encode(r)
  {
    EncodeAllAppend(rs, [r]);
    assert EncodeAll([r]) == Encode(r) + EncodeAll([]);
  }

  /** What the wire format can carry: line texts without a line end, 64-bit integers and lengths. */
  predicate Framed(r: Reply) {
    match r
    case Simple(text) => IndexOfCrlf(text) < 0
    case Error(text) => IndexOfCrlf(text) < 0
    case Integer(n) => IsInt64(n)
    case Bulk(data) => |data| <= INT64_MAX
    case NullBulk => true
    case EmptyArray => true
  }

  // ----- Reading replies

  /** The first reply of a byte stream and what follows it. */
  function Decode(b: Bytes): (r: Option<(Reply, Bytes)>)
    ensures r.Some? ==> |r.value.1| < |b|
  {
    var crlf := IndexOfCrlf(b);
    if crlf < 1 then None
    else
      var line, rest := b[1..crlf], b[crlf + 2..];
      if b[0] == PLUS then Some((Simple(line), rest))
      else if b[0] == MINUS then Some((Error(line), rest))
      else match ParseInt(line)
           case None => None
           case Some(n) =>
             if b[0] == COLON then Some((Integer(n), rest))
             else if b[0] == STAR && n == 0 then Some((EmptyArray, rest))
             else if b[0] != DOLLAR then None
             else if n == -1 then Some((NullBulk, rest))
             else if n < 0 || |rest| < n + 2 || rest[n..n + 2] != CRLF then None
             else Some((Bulk(rest[..n]), rest[n + 2..]))
  }

  function DecodeAll(b: Bytes): Option<seq<Reply>>
    decreases |b|
  {
    if b == [] then Some([])
    else match Decode(b)
         case None => None
         case Some((r, rest)) =>
           match DecodeAll(rest)
           case None => None
           case Some(rs) => Some([r] + rs)
  }

  lemma LineParts(marker: Octet, text: Bytes, rest: Bytes)
    ensures var b := [marker] + text + CRLF + rest;
      |b| >= |text| + 3 && b[1..1 + |text|] == text && b[|text| + 3..] == rest
  {
    var head := [marker] + text;
    assert head[1..] == text;
    assert (head + CRLF + rest)[..1 + |text|] == head;
  }

  /** A line without an inner line end is cut exactly where it was ended. */
  lemma LineEnd(marker: Octet, text: Bytes, rest: Bytes)
    requires marker != CR && IndexOfCrlf(text) < 0
    ensures var b := [marker] + text + CRLF + rest;
      IndexOfCrlf(b) == 1 + |text| && b[1..1 + |text|] == text && b[|text| + 3..] == rest
  {
    hide IndexOfCrlf;
    LineParts(marker, text, rest);
    CrlfAfter(text);
    CrlfBehind(marker, text + CRLF);
    Assoc3([marker], text, CRLF);
    var line := [marker] + text + CRLF;
    assert IndexOfCrlf(line) == 1 + |text|;
    LaterCrlf(line, rest);
  }

  /** A line with one is cut there. */
  lemma LineCut(marker: Octet, text: Bytes, rest: Bytes)
    requires marker != CR && IndexOfCrlf(text) >= 0
    ensures IndexOfCrlf([marker] + text + CRLF + rest) == 1 + IndexOfCrlf(text)
  {
    hide IndexOfCrlf;
    LaterCrlf(text, CRLF);
    CrlfBehind(marker, text + CRLF);
    Assoc3([marker], text, CRLF);
    LaterCrlf([marker] + text + CRLF, rest);
  }

  lemma NumberLine(n: int)
    requires IsInt64(n)
    ensures IndexOfCrlf(FormatInt(n)) < 0 && ParseInt(FormatInt(n)) == Some(n)
  {
    hide ParseInt, FormatInt, IndexOfCrlf;
    FormatIsPrintable(n);
    ParseFormat(n);
  }

  lemma DecodeBulk(data: Bytes, rest: Bytes)
    requires |data| <= INT64_MAX
    ensures Decode(BulkString(data) + rest) == Some((Bulk(data), rest))
  {
    hide IndexOfCrlf, IntLine, ParseInt;
    var tail := data + CRLF + rest;
    Assoc5([DOLLAR], IntLine(|data|), data, CRLF, rest);
    Assoc3([DOLLAR], IntLine(|data|), tail);
    assert BulkString(data) + rest == [DOLLAR] + IntLine(|data|) + tail;
    DecodeNumber(DOLLAR, |data|, tail);
    assert tail[..|data|] == data && tail[|data|..|data| + 2] == CRLF && tail[|data| + 2..] == rest;
  }

  lemma DecodeNumber(marker: Octet, n: int, rest: Bytes)
    requires marker != CR && IsInt64(n)
    ensures var b := [marker] + IntLine(n) + rest;
      && IndexOfCrlf(b) == 1 + |FormatInt(n)|
      && b[1..IndexOfCrlf(b)] == FormatInt(n)
      && ParseInt(FormatInt(n)) == Some(n)
      && b[IndexOfCrlf(b) + 2..] == rest
  {
    hide IndexOfCrlf, FormatInt, ParseInt;
    Assoc4([marker], FormatInt(n), CRLF, rest);
    assert [marker] + IntLine(n) == [marker] + FormatInt(n) + CRLF;
    NumberLine(n);
    LineEnd(marker, FormatInt(n), rest);
  }

  lemma DecodeLine(marker: Octet, text: Bytes, rest: Bytes)
    requires (marker == PLUS || marker == MINUS) && IndexOfCrlf(text) < 0
    ensures Decode([marker] + text + CRLF + rest) ==
              Some((if marker == PLUS then Simple(text) else Error(text), rest))
  {
    hide IndexOfCrlf, ParseInt;
    LineEnd(marker, text, rest);
  }

  lemma NullBulkIsMinusOne()
    ensures NULL_BULK == [DOLLAR] + IntLine(-1)
  {
    assert Digits(1) == Digits(0) + [49];
    assert FormatInt(-1) == [45, 49];
  }

  /** A client reads back exactly the reply that was written. */
  lemma DecodeEncode(r: Reply, rest: Bytes)
    requires Framed(r)
    ensures Decode(Encode(r) + rest) == Some((r, rest))
  {
    hide IndexOfCrlf, ParseInt, IntLine;
    match r {
      case Simple(text) => DecodeLine(PLUS, text, rest);
      case Error(text) => DecodeLine(MINUS, text, rest);
      case Integer(n) => DecodeNumber(COLON, n, rest);
      case Bulk(data) => DecodeBulk(data, rest);
      case NullBulk =>
        NullBulkIsMinusOne();
        DecodeNumber(DOLLAR, -1, rest);
      case EmptyArray => DecodeNumber(STAR, 0, rest);
    }
  }

  /** An error text reaches the client as one reply exactly when it contains no line end. */
  lemma ErrorIsFramed(text: Bytes, rest: Bytes)
    ensures Decode(ErrorLine(text) + rest) == Some((Error(text), rest)) <==> IndexOfCrlf(text) < 0
  {
    hide IndexOfCrlf;
    var b := ErrorLine(text) + rest;
    if IndexOfCrlf(text) >= 0 {
      LineCut(MINUS, text, rest);
      assert Decode(b).Some? ==> |b[1..IndexOfCrlf(b)]| < |text|;
    } else {
      LineEnd(MINUS, text, rest);
    }
  }

  /** A pipeline of replies is read back as that very list of replies. */
  lemma {:induction false} DecodeAllEncodeAll(rs: seq<Reply>)
    requires forall i :: 0 <= i < |rs| ==> Framed(rs[i])
    ensures DecodeAll(EncodeAll(rs)) == Some(rs)
  {
    if rs != [] {
      DecodeEncode(rs[0], EncodeAll(rs[1..]));
      DecodeAllEncodeAll(rs[1..]);
      assert [rs[0]] + rs[1..] == rs;
    }
  }
}

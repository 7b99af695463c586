/** Bytes as they travel on the wire, and the integer ranges of the C++ types. */
module Octets {

  type Octet = b: int | 0 <= b < 256
  type Bytes = seq<Octet>

  datatype Option<+T> = None | Some(value: T)

  const CR: Octet := 13
  const LF: Octet := 10
  const CRLF: Bytes := [13, 10]
  const MINUS: Octet := 45
  const STAR: Octet := 42
  const DOLLAR: Octet := 36

  const INT64_MIN: int := -0x8000_0000_0000_0000
  const INT64_MAX: int := 0x7fff_ffff_ffff_ffff
  const UINT64_MAX: int := 0xffff_ffff_ffff_ffff

  newtype uint64 = n: int | 0 <= n < 0x1_0000_0000_0000_0000
  newtype int64 = n: int | -0x8000_0000_0000_0000 <= n < 0x8000_0000_0000_0000

  predicate IsInt64(n: int) {
    INT64_MIN <= n <= INT64_MAX
  }

  /** The bytes of an ASCII literal; a character outside ASCII stands for '?'. */
  function Ascii(s: string): (r: Bytes)
    ensures |r| == |s|
    ensures forall i :: 0 <= i < |s| && s[i] < 128 as char ==> r[i] == s[i] as int
  {
    seq(|s|, i requires 0 <= i < |s| => if s[i] < 128 as char then s[i] as int else 63)
  }

  lemma Assoc3<T>(a: seq<T>, b: seq<T>, c: seq<T>)
    ensures a + b + c == a + (b + c)
  {}

  lemma Assoc4<T>(a: seq<T>, b: seq<T>, c: seq<T>, d: seq<T>)
    ensures a + b + c + d == a + (b + c + d)
    ensures a + b + c + d == a + b + (c + d)
  {}

  lemma Assoc5<T>(a: seq<T>, b: seq<T>, c: seq<T>, d: seq<T>, e: seq<T>)
    ensures a + b + c + d + e == a + (b + c + d + e)
    ensures a + b + c + d + e == a + b + (c + d + e)
  {}

  lemma MiddleSlice<T>(a: seq<T>, b: seq<T>, c: seq<T>)
    ensures (a + (b + c))[|a|..|a| + |b|] == b
  {
    var s := a + (b + c);
    assert forall i :: 0 <= i < |b| ==> s[|a| + i] == (b + c)[i] == b[i];
  }

  function Flatten<T>(parts: seq<seq<T>>): seq<T> {
    if parts == [] then [] else parts[0] + Flatten(parts[1..])
  }

  lemma {:induction false} FlattenAppend<T>(a: seq<seq<T>>, b: seq<seq<T>>)
    ensures Flatten(a + b) == Flatten(a) + Flatten(b)
  {
    if a == [] {
      assert a + b == b;
    } else {
      assert (a + b)[1..] == a[1..] + b;
      FlattenAppend(a[1..], b);
    }
  }

  predicate CrlfAt(b: Bytes, i: int) {
    0 <= i && i + 1 < |b| && b[i] == CR && b[i + 1] == LF
  }

  /** The position of the first `\r\n`, or -1 (find_crlf). */
  function IndexOfCrlf(b: Bytes): (r: int)
    ensures -1 <= r
    ensures r >= 0 ==> CrlfAt(b, r)
    ensures forall i :: CrlfAt(b, i) ==> 0 <= r <= i
  {
    if |b| < 2 then -1
    else if CrlfAt(b, 0) then 0
    else
      var t := IndexOfCrlf(b[1..]);
      assert t >= 0 ==> CrlfAt(b, t + 1);
      assert forall i :: CrlfAt(b, i) ==> CrlfAt(b[1..], i - 1);
      if t < 0 then -1 else t + 1
  }

  /** The position of the first `c`, or -1 (memchr). */
  function IndexOf(b: Bytes, c: Octet): (r: int)
    ensures -1 <= r < |b|
    ensures r >= 0 ==> b[r] == c
    ensures forall i :: 0 <= i < (if r < 0 then |b| else r) ==> b[i] != c
  {
    if b == [] then -1
    else if b[0] == c then 0
    else
      var t := IndexOf(b[1..], c);
      assert forall i :: 1 <= i < |b| ==> b[i] == b[1..][i - 1];
      if t < 0 then -1 else t + 1
  }

  // ----- More bytes do not change what has been found

  lemma LaterCrlf(b: Bytes, more: Bytes)
    ensures IndexOfCrlf(b) >= 0 ==> IndexOfCrlf(b + more) == IndexOfCrlf(b)
    ensures IndexOfCrlf(b) < 0 && IndexOfCrlf(b + more) >= 0 ==> IndexOfCrlf(b + more) >= |b| - 1
  {
    var i, j := IndexOfCrlf(b), IndexOfCrlf(b + more);
    assert i >= 0 ==> CrlfAt(b + more, i);
    assert 0 <= j < |b| - 1 ==> CrlfAt(b, j);
  }

  lemma LaterIndex(b: Bytes, more: Bytes, c: Octet)
    ensures IndexOf(b, c) >= 0 ==> IndexOf(b + more, c) == IndexOf(b, c)
    ensures IndexOf(b, c) < 0 && IndexOf(b + more, c) >= 0 ==> IndexOf(b + more, c) >= |b|
  {
    var i := IndexOf(b, c);
    assert i >= 0 ==> (b + more)[i] == c;
    assert forall k :: 0 <= k < |b| ==> (b + more)[k] == b[k];
  }

  /** Up to the first line end of a text that has none, and a line end. */
  lemma CrlfAfter(text: Bytes)
    requires IndexOfCrlf(text) < 0
    ensures IndexOfCrlf(text + CRLF) == |text|
  {
    var b := text + CRLF;
    LaterCrlf(text, CRLF);
    assert CrlfAt(b, |text|) && !CrlfAt(b, |text| - 1);
  }

  lemma CrlfBehind(marker: Octet, b: Bytes)
    requires marker != CR
    ensures IndexOfCrlf([marker] + b) == if IndexOfCrlf(b) < 0 then -1 else 1 + IndexOfCrlf(b)
  {
    assert ([marker] + b)[1..] == b;
  }
}

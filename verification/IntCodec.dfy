/**
 The hand-written decimal formatter of the reply writer and the strict decimal
 parser shared by the protocol and the commands, both over 64-bit integers.
 */
module IntCodec {
  import opened Octets

  predicate IsDigit(c: Octet) {
    48 <= c <= 57
  }

  predicate AllDigits(s: Bytes) {
    forall i :: 0 <= i < |s| ==> IsDigit(s[i])
  }

  // ----- What a string of digits means

  function DigitsValue(s: Bytes): nat
    requires AllDigits(s)
  {
    if s == [] then 0
    else
      assert IsDigit(s[|s| - 1]);
      10 * DigitsValue(s[..|s| - 1]) + (s[|s| - 1] - 48)
  }

  /** An optional minus, then one or more digits, at most twenty bytes in all. */
  predicate IsIntLiteral(s: Bytes) {
    && 1 <= |s| <= 20
    && if s[0] == MINUS then 2 <= |s| && AllDigits(s[1..]) else AllDigits(s)
  }

  function LiteralValue(s: Bytes): int
    requires IsIntLiteral(s)
  {
    if s[0] == MINUS then 0 - DigitsValue(s[1..]) else DigitsValue(s)
  }

  function ParseInt(s: Bytes): Option<int> {
    if IsIntLiteral(s) && IsInt64(LiteralValue(s)) then Some(LiteralValue(s)) else None
  }

  /** Reading one more digit never lowers the value. */
  lemma {:induction false} DigitsValueGrows(s: Bytes, k: nat)
    requires AllDigits(s) && k <= |s|
    ensures DigitsValue(s[..k]) <= DigitsValue(s)
    decreases |s|
  {
    if k < |s| {
      assert s[..|s| - 1][..k] == s[..k];
      DigitsValueGrows(s[..|s| - 1], k);
    } else {
      assert s[..k] == s;
    }
  }

  /** The guard of the loop is exactly the overflow of its next step. */
  lemma GuardIsOverflow(v: uint64, d: uint64)
    requires d <= 9
    ensures v > (0xffff_ffff_ffff_ffff - d) / 10 <==> 10 * (v as int) + d as int > UINT64_MAX
  {}

  lemma OneMoreDigit(s: Bytes, k: nat)
    requires k < |s| && AllDigits(s[..k]) && IsDigit(s[k])
    ensures AllDigits(s[..k + 1]) && DigitsValue(s[..k + 1]) == 10 * DigitsValue(s[..k]) + (s[k] - 48)
  {
    assert s[..k + 1][..k] == s[..k];
  }

  method StringToInt64(s: Bytes) returns (r: Option<int64>)
    ensures r.Some? == ParseInt(s).Some?
    ensures r.Some? ==> r.value as int == ParseInt(s).value
  {
    if |s| == 0 || |s| > 20 {
      return None;
    }
    var negative := false;
    var i := 0;
    if s[0] == MINUS {
      negative := true;
      i := 1;
      if |s| == 1 {
        return None;
      }
    }
    ghost var digits := if negative then s[1..] else s;
    ghost var skip := i;
    var v: uint64 := 0;
    while i < |s|
      invariant skip <= i <= |s|
      invariant AllDigits(digits[..i - skip])
      invariant v as int == DigitsValue(digits[..i - skip])
    {
      assert s[i] == digits[i - skip];
      if s[i] < 48 || s[i] > 57 {
        return None;
      }
      var d := (s[i] - 48) as uint64;
      OneMoreDigit(digits, i - skip);
      GuardIsOverflow(v, d);
      if v > (0xffff_ffff_ffff_ffff - d) / 10 {
        if AllDigits(digits) {
          DigitsValueGrows(digits, i + 1 - skip);
        }
        return None;
      }
      v := v * 10 + d;
      i := i + 1;
    }
    assert digits[..i - skip] == digits;
    var limit: uint64 := if negative then 0x8000_0000_0000_0000 else 0x7fff_ffff_ffff_ffff;
    if v > limit {
      return None;
    }
    if negative {
      r := Some(if v == 0x8000_0000_0000_0000 then -0x8000_0000_0000_0000 else -(v as int64));
    } else {
      r := Some(v as int64);
    }
  }

  // ----- The decimal notation of a number

  function Digits(n: nat): (s: Bytes)
    ensures AllDigits(s)
  {
    if n == 0 then [] else Digits(n / 10) + [48 + n % 10]
  }

  function Decimal(n: nat): Bytes {
    if n == 0 then [48] else Digits(n)
  }

  function FormatInt(n: int): Bytes {
    if n < 0 then [MINUS] + Decimal(-n) else Decimal(n)
  }

  function Pow10(k: nat): nat {
    if k == 0 then 1 else 10 * Pow10(k - 1)
  }

  lemma {:induction false} DigitsLength(n: nat, k: nat)
    requires n < Pow10(k)
    ensures |Digits(n)| <= k
  {
    if n > 0 {
      DigitsLength(n / 10, k - 1);
    }
  }

  lemma Int64Length(n: nat)
    requires n <= 0x8000_0000_0000_0000
    ensures |Decimal(n)| <= 19
  {
    assert Pow10(10) == 100_0000_0000;
    assert Pow10(19) == 1000_0000_0000_0000_0000;
    DigitsLength(n, 19);
  }

  lemma {:induction false} DigitsDenote(n: nat)
    ensures DigitsValue(Digits(n)) == n
  {
    if n > 0 {
      var s := Digits(n);
      assert s[..|s| - 1] == Digits(n / 10);
      DigitsDenote(n / 10);
    }
  }

  lemma DecimalDenotes(n: nat)
    ensures AllDigits(Decimal(n)) && Decimal(n) != [] && DigitsValue(Decimal(n)) == n
  {
    DigitsDenote(n);
    if n == 0 {
      assert Decimal(n)[..0] == [];
      assert DigitsValue(Decimal(n)) == 10 * DigitsValue([]) + 0;
    } else {
      assert Decimal(n) == Digits(n);
    }
  }

  /** Parsing inverts formatting for every 64-bit integer, INT64_MIN included. */
  lemma ParseFormat(n: int)
    requires IsInt64(n)
    ensures ParseInt(FormatInt(n)) == Some(n)
    ensures 1 <= |FormatInt(n)| <= 20
  {
    hide Decimal, DigitsValue;
    var m := if n < 0 then -n else n;
    Int64Length(m);
    DecimalDenotes(m);
    var d := Decimal(m);
    assert IsDigit(d[0]);
    if n < 0 {
      assert FormatInt(n)[1..] == d;
    }
  }

  lemma {:induction false} NoLeadingZero(n: nat)
    requires n > 0
    ensures Digits(n) != [] && Digits(n)[0] != 48
    decreases n
  {
    if n >= 10 {
      NoLeadingZero(n / 10);
    }
  }

  /** No number is printed with leading zeros, and zero as the one digit it is. */
  lemma FormatIsCanonical(n: int)
    ensures FormatInt(n) != [] && (n == 0 ==> FormatInt(n) == [48])
    ensures n > 0 ==> FormatInt(n)[0] != 48
    ensures n < 0 ==> |FormatInt(n)| > 1 && FormatInt(n)[0] == 45 && FormatInt(n)[1] != 48
  {
    if n != 0 {
      NoLeadingZero(if n < 0 then -n else n);
    }
  }

  /** Nothing but a sign and digits is ever printed. */
  lemma FormatIsPrintable(n: int)
    ensures forall i :: 0 <= i < |FormatInt(n)| ==> FormatInt(n)[i] == MINUS || IsDigit(FormatInt(n)[i])
  {
    var d := Decimal(if n < 0 then -n else n);
    assert AllDigits(d);
  }

  // ----- The formatter

  function Reversed(s: Bytes): (r: Bytes)
    ensures |r| == |s|
    ensures forall i :: 0 <= i < |s| ==> r[i] == s[|s| - 1 - i]
  {
    if s == [] then [] else [s[|s| - 1]] + Reversed(s[..|s| - 1])
  }

  /** `~static_cast<uint64_t>(n) + 1` on 64-bit words. */
  function NegatedWord(n: int64): (v: int)
    requires n < 0
    ensures v == -(n as int)
  {
    var word := n as int + 0x1_0000_0000_0000_0000;
    (UINT64_MAX - word + 1) % 0x1_0000_0000_0000_0000
  }

  /** The first loop: the digits of `word`, least significant first, into `tmp`. */
  method WriteDigits(word: uint64, tmp: array<Octet>) returns (count: nat)
    requires tmp.Length == 20 && word <= 0x8000_0000_0000_0000
    modifies tmp
    ensures count <= 19
    ensures Reversed(tmp[..count]) == Digits(word as int)
  {
    hide Digits, Reversed;
    Int64Length(word as int);
    SplitNone(word as int);
    var v := word;
    count := 0;
    assert tmp[..0] == [];
    while v > 0
      invariant 0 <= count <= 19
      invariant Digits(word as int) == Digits(v as int) + Reversed(tmp[..count])
      decreases v
    {
      var digit := 48 + (v % 10) as int;
      SplitDigit(v as int, tmp[..count]);
      ghost var before := tmp[..count];
      tmp[count] := digit;
      assert tmp[..count + 1] == before + [digit];
      count := count + 1;
      v := v / 10;
    }
    assert Digits(0) + Reversed(tmp[..count]) == Reversed(tmp[..count]);
  }

  lemma SplitNone(n: nat)
    ensures Digits(n) == Digits(n) + Reversed([]) && Digits(0) == [] && |Digits(n)| <= |Decimal(n)|
  {}

  lemma SplitDigit(n: nat, done: Bytes)
    requires n > 0
    ensures Digits(n) + Reversed(done) == Digits(n / 10) + Reversed(done + [48 + n % 10])
    ensures |Digits(n / 10)| + 1 == |Digits(n)|
  {
    var d: Octet := 48 + n % 10;
    assert (done + [d])[..|done|] == done;
    assert Reversed(done + [d]) == [d] + Reversed(done);
    Assoc3(Digits(n / 10), [d], Reversed(done));
  }

  /** The second loop: the collected digits, most significant first, into `buf` from `at` on. */
  method WriteReversed(tmp: array<Octet>, count: nat, buf: array<Octet>, at: nat)
    requires tmp != buf && count <= tmp.Length && at + count <= buf.Length
    modifies buf
    ensures buf[..at] == old(buf[..at])
    ensures buf[at..at + count] == Reversed(tmp[..count])
  {
    var left, o := count, at;
    while left > 0
      invariant 0 <= left <= count && o == at + count - left
      invariant buf[..at] == old(buf[..at])
      invariant forall i :: at <= i < o ==> buf[i] == tmp[count - 1 - (i - at)]
    {
      left := left - 1;
      buf[o] := tmp[left];
      o := o + 1;
    }
  }

  method WriteInt(n: int64, buf: array<Octet>) returns (len: nat)
    requires buf.Length == 24
    modifies buf
    ensures len <= 20
    ensures buf[..len] == FormatInt(n as int)
  {
    if n == 0 {
      buf[0] := 48;
      return 1;
    }
    var negative := n < 0;
    var v: uint64 := if negative then NegatedWord(n) as uint64 else n as uint64;
    var tmp := new Octet[20];
    var count := WriteDigits(v, tmp);
    var out := 0;
    if negative {
      buf[out] := MINUS;
      out := out + 1;
    }
    WriteReversed(tmp, count, buf, out);
    len := out + count;
    assert buf[..len] == buf[..out] + buf[out..len];
  }
}

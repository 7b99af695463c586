/** The reply encoders: each appends one RESP2 element to a buffer. */
module Writer {
  import opened Octets
  import opened IntCodec
  import opened Buffers

  const PLUS: Octet := 43
  const COLON: Octet := 58

  // ----- The encodings

  function IntLine(n: int): Bytes {
    FormatInt(n) + CRLF
  }

  function SimpleLine(text: Bytes): Bytes {
    [PLUS] + text + CRLF
  }

  function ErrorLine(text: Bytes): Bytes {
    [MINUS] + text + CRLF
  }

  function IntegerLine(n: int): Bytes {
    [COLON] + IntLine(n)
  }

  function BulkString(s: Bytes): Bytes {
    [DOLLAR] + IntLine(|s|) + s + CRLF
  }

  function ArrayHeader(n: int): Bytes {
    [STAR] + IntLine(n)
  }

  const NULL_BULK: Bytes := [36, 45, 49, 13, 10]

  // ----- The encoders

  /** The buffer stays a valid queue on storage that is its own. */
  twostate predicate Kept(out: Buffer)
    reads out
  {
    out.Valid() && (out.data == old(out.data) || fresh(out.data))
  }

  method AppendIntCrlf(out: Buffer, n: int64)
    requires out.Valid()
    modifies out, out.data
    ensures Kept(out)
    ensures out.Contents() == old(out.Contents()) + IntLine(n as int)
  {
    var buf := new Octet[24];
    var len := WriteInt(n, buf);
    ghost var digits := buf[..len];
    buf[len] := CR;
    buf[len + 1] := LF;
    assert buf[..len + 2] == digits + CRLF;
    out.Append(buf[..len + 2]);
  }

  /** simple and error: a marker, a text and a line end, reserved in one go. */
  method AppendLine(out: Buffer, marker: Octet, text: Bytes)
    requires out.Valid()
    modifies out, out.data
    ensures Kept(out)
    ensures out.Contents() == old(out.Contents()) + ([marker] + text + CRLF)
  {
    ghost var start := out.Contents();
    out.EnsureWritable(|text| + 3);
    out.Append([marker]);
    out.Append(text);
    out.Append(CRLF);
    Assoc4(start, [marker], text, CRLF);
  }

  method Simple(out: Buffer, text: Bytes)
    requires out.Valid()
    modifies out, out.data
    ensures Kept(out)
    ensures out.Contents() == old(out.Contents()) + SimpleLine(text)
  {
    AppendLine(out, PLUS, text);
  }

  method Error(out: Buffer, text: Bytes)
    requires out.Valid()
    modifies out, out.data
    ensures Kept(out)
    ensures out.Contents() == old(out.Contents()) + ErrorLine(text)
  {
    AppendLine(out, MINUS, text);
  }

  method Integer(out: Buffer, n: int64)
    requires out.Valid()
    modifies out, out.data
    ensures Kept(out)
    ensures out.Contents() == old(out.Contents()) + IntegerLine(n as int)
  {
    ghost var start := out.Contents();
    out.Append([COLON]);
    AppendIntCrlf(out, n);
    Assoc3(start, [COLON], IntLine(n as int));
  }

  method Bulk(out: Buffer, s: Bytes)
    requires out.Valid() && |s| <= INT64_MAX
    modifies out, out.data
    ensures Kept(out)
    ensures out.Contents() == old(out.Contents()) + BulkString(s)
  {
    hide IntLine;
    ghost var start := out.Contents();
    out.EnsureWritable(|s| + 32);
    out.Append([DOLLAR]);
    AppendIntCrlf(out, |s| as int64);
    out.Append(s);
    out.Append(CRLF);
    Assoc5(start, [DOLLAR], IntLine(|s|), s, CRLF);
  }

  method NullBulk(out: Buffer)
    requires out.Valid()
    modifies out, out.data
    ensures Kept(out)
    ensures out.Contents() == old(out.Contents()) + NULL_BULK
  {
    out.Append(NULL_BULK);
  }

  method Array(out: Buffer, n: int64)
    requires out.Valid()
    modifies out, out.data
    ensures Kept(out)
    ensures out.Contents() == old(out.Contents()) + ArrayHeader(n as int)
  {
    ghost var start := out.Contents();
    out.Append([STAR]);
    AppendIntCrlf(out, n);
    Assoc3(start, [STAR], IntLine(n as int));
  }
}

/**
 * The shape of the replies the server writes: a status line, one
 * `Content-Length` header field, an empty line, then the body (the message
 * format of section 2.1 of RFC 9112, with the field of section 8.6 of
 * RFC 9110). `Read` takes such a reply apart again.
 */
module Message {
  import opened Wrappers
  import opened Strings
  import opened Utf8
  import Decimal

  const CrLf := "\r\n"
  const ContentLengthField := "Content-Length: "
  /** The bytes of `"\r\n\r\n"`: the end of the last header line and the empty line. */
  const HeaderEnd: seq<byte> := [13, 10, 13, 10]

  /** What a reader learns from a reply. */
  datatype Reply = Reply(statusLine: string, contentLength: nat, body: seq<byte>)

  /** Status line and header field of a reply whose body is `n` bytes long. */
  function Head(status: string, n: nat): string {
    status + CrLf + ContentLengthField + Decimal.Show(n)
  }

  /**
   * Reads the head of a reply: the status line up to the first `CR LF`,
   * then the `Content-Length` field with its digits.
   */
  function ReadHead(head: string): Option<(string, nat)> {
    var eol := Find(head, CrLf);
    if eol.None? then None
    else
      var field := head[eol.value + 2..];
      if !(ContentLengthField <= field) then None
      else
        var n := Decimal.Parse(field[|ContentLengthField|..]);
        if n.None? then None
        else Some((head[..eol.value], n.value))
  }

  /**
   * Splits a reply at its first `CR LF CR LF`: the head before it, read as
   * octets, and the body after it.
   */
  function Read(wire: seq<byte>): Option<Reply> {
    var end := Find(wire, HeaderEnd);
    if end.None? then None
    else
      var head := ReadHead(OctetText(wire[..end.value]));
      if head.None? then None
      else Some(Reply(head.value.0, head.value.1, wire[end.value + 4..]))
  }

  lemma AsciiAppend(a: string, b: string)
    requires IsAscii(a) && IsAscii(b)
    ensures IsAscii(a + b)
  {
    assert forall i :: |a| <= i < |a + b| ==> (a + b)[i] == b[i - |a|];
  }

  lemma DigitsAreAscii(s: string)
    requires Decimal.AllDigits(s)
    ensures IsAscii(s)
  {
  }

  /** The head of a reply is ASCII when its status line is. */
  lemma HeadIsAscii(status: string, n: nat)
    requires IsAscii(status)
    ensures IsAscii(Head(status, n))
  {
    DigitsAreAscii(Decimal.Show(n));
    AsciiAppend(status, CrLf);
    AsciiAppend(status + CrLf, ContentLengthField);
    AsciiAppend(status + CrLf + ContentLengthField, Decimal.Show(n));
  }

  /** The only carriage return in a head is the one ending a status line free of them, and a `C` follows two places on. */
  lemma HeadCarriageReturn(status: string, n: nat, j: nat)
    requires '\r' !in status
    requires j < |Head(status, n)| && Head(status, n)[j] == '\r'
    ensures j == |status|
    ensures j + 2 < |Head(status, n)| && Head(status, n)[j + 2] == 'C'
  {
    var h := Head(status, n);
    var digits := Decimal.Show(n);
    var k := |status| + |CrLf| + |ContentLengthField|;
    assert h == status + (CrLf + ContentLengthField) + digits;
    if |status| <= j < k {
      assert h[j] == (CrLf + ContentLengthField)[j - |status|];
    }
  }

  /** In the bytes of a head followed by `CR LF CR LF`, that separator is the first one. */
  lemma FindHeaderEnd(status: string, n: nat, rest: seq<byte>)
    requires IsAscii(status) && '\r' !in status
    ensures Find(Encode(Head(status, n)) + HeaderEnd + rest, HeaderEnd) == Some(|Head(status, n)|)
  {
    var h := Head(status, n);
    HeadIsAscii(status, n);
    EncodeAscii(h);
    var bytes := Encode(h);
    var wire := bytes + HeaderEnd + rest;
    assert wire[|h|..|h| + 4] == HeaderEnd;
    forall j: nat | j < |h|
      ensures !OccursAt(wire, HeaderEnd, j)
    {
      assert wire[j] == bytes[j];
      if h[j] == '\r' {
        HeadCarriageReturn(status, n, j);
        assert wire[j + 2] == bytes[j + 2];
        MismatchAtOffset(wire, HeaderEnd, j, 2);
      } else {
        MismatchAt(wire, HeaderEnd, j);
      }
    }
    FindIsFirst(wire, HeaderEnd, |h|);
  }

  /** The first line break of a head ends the status line. */
  lemma FindStatusEnd(status: string, n: nat)
    requires '\r' !in status
    ensures Find(Head(status, n), CrLf) == Some(|status|)
  {
    var h := Head(status, n);
    assert h == status + (CrLf + ContentLengthField + Decimal.Show(n));
    assert h[|status|..|status| + 2] == CrLf;
    forall j: nat | j < |status|
      ensures !OccursAt(h, CrLf, j)
    {
      assert h[j] == status[j];
      MismatchAt(h, CrLf, j);
    }
    FindIsFirst(h, CrLf, |status|);
  }

  /** The head `Head` writes reads back as its status line and length. */
  lemma ReadHeadOfHead(status: string, n: nat)
    requires '\r' !in status
    ensures ReadHead(Head(status, n)) == Some((status, n))
  {
    var h := Head(status, n);
    FindStatusEnd(status, n);
    assert h == status + CrLf + (ContentLengthField + Decimal.Show(n));
    assert h[|status| + 2..] == ContentLengthField + Decimal.Show(n);
    assert (ContentLengthField + Decimal.Show(n))[|ContentLengthField|..] == Decimal.Show(n);
    Decimal.ParseShow(n);
    assert h[..|status|] == status;
  }

  /** The converse: a head that reads back as a status line and length is the head `Head` writes for them. */
  lemma HeadOfReadHead(head: string, status: string, n: nat)
    requires ReadHead(head) == Some((status, n))
    ensures head == Head(status, n)
  {
    var eol := Find(head, CrLf).value;
    HeadOfParts(head, eol, n);
  }

  /**
   * Reading back a reply written as head, `CR LF CR LF`, body gives its
   * status line, the advertised length and exactly the body.
   */
  lemma ReadFramed(status: string, n: nat, body: seq<byte>)
    requires IsAscii(status) && '\r' !in status
    ensures Read(Encode(Head(status, n)) + HeaderEnd + body) == Some(Reply(status, n, body))
  {
    var h := Head(status, n);
    var wire := Encode(h) + HeaderEnd + body;
    FindHeaderEnd(status, n, body);
    HeadIsAscii(status, n);
    EncodeAscii(h);
    assert wire[..|h|] == Encode(h);
    OctetTextOfAscii(h);
    ReadHeadOfHead(status, n);
    assert wire[|h| + 4..] == body;
  }

  /** A head whose status line, `CR LF`, field name and digits are known is the head `Head` writes. */
  lemma HeadOfParts(head: string, eol: nat, n: nat)
    requires eol + 2 <= |head| && OccursAt(head, CrLf, eol)
    requires ContentLengthField <= head[eol + 2..]
    requires Decimal.Parse(head[eol + 2..][|ContentLengthField|..]) == Some(n)
    ensures head == Head(head[..eol], n)
  {
    var field := head[eol + 2..];
    var digits := field[|ContentLengthField|..];
    Decimal.ShowValueOf(digits);
    assert field == ContentLengthField + digits;
    assert head == head[..eol] + head[eol..eol + 2] + field;
  }

  /**
   * The converse of `ReadFramed`: a reply that reads back with an ASCII
   * status line is byte for byte the head for that status and length,
   * `CR LF CR LF`, then the body. The reader accepts no other spelling of
   * the same reply, such as a length with a leading zero.
   */
  lemma ReadExact(wire: seq<byte>, status: string, n: nat, body: seq<byte>)
    requires IsAscii(status)
    requires Read(wire) == Some(Reply(status, n, body))
    ensures wire == Encode(Head(status, n)) + HeaderEnd + body
  {
    var end := Find(wire, HeaderEnd).value;
    var head := OctetText(wire[..end]);
    HeadOfReadHead(head, status, n);
    HeadIsAscii(status, n);
    OctetTextIsAscii(wire[..end], head);
    SplitAt(wire, HeaderEnd, end);
  }
}

/**
 * UTF-8 encoding of Unicode scalar values (RFC 3629, section 3). Rust's
 * `String` holds its text in this form: `len()` counts these bytes and
 * `as_bytes()` exposes them.
 */
module Utf8 {
  import opened Wrappers

  newtype byte = x: int | 0 <= x < 256

  predicate IsAsciiChar(c: char) {
    (c as int) < 0x80
  }

  predicate IsAscii(s: string) {
    forall i :: 0 <= i < |s| ==> IsAsciiChar(s[i])
  }

  /** The number of bytes section 3 of RFC 3629 gives a code point, by its range. */
  function Width(c: char): nat {
    var v := c as int;
    if v < 0x80 then 1 else if v < 0x800 then 2 else if v < 0x1_0000 then 3 else 4
  }

  /** A continuation byte: `10xxxxxx`. */
  predicate IsContinuation(b: byte) {
    0x80 <= b <= 0xBF
  }

  /**
   * The bytes of `c` as the table in section 3 of RFC 3629 lays them out:
   * a single byte equal to the code point for ASCII; otherwise a lead byte
   * whose marker gives the length, followed by continuation bytes.
   */
  function EncodeChar(c: char): (r: seq<byte>)
    ensures |r| == Width(c)
    ensures |r| == 1 <==> IsAsciiChar(c)
    ensures IsAsciiChar(c) ==> r[0] as int == c as int
    ensures |r| == 2 ==> 0xC2 <= r[0] <= 0xDF
    ensures |r| == 3 ==> 0xE0 <= r[0] <= 0xEF
    ensures |r| == 4 ==> 0xF0 <= r[0] <= 0xF4
    ensures forall i :: 1 <= i < |r| ==> IsContinuation(r[i])
  {
    var v := c as int;
    if v < 0x80 then [v as byte]
    else if v < 0x800 then [(0xC0 + v / 0x40) as byte, (0x80 + v % 0x40) as byte]
    else if v < 0x1_0000 then
      [(0xE0 + v / 0x1000) as byte, (0x80 + v / 0x40 % 0x40) as byte, (0x80 + v % 0x40) as byte]
    else
      [(0xF0 + v / 0x4_0000) as byte, (0x80 + v / 0x1000 % 0x40) as byte,
       (0x80 + v / 0x40 % 0x40) as byte, (0x80 + v % 0x40) as byte]
  }

  /**
   * Decodes one encoded character, validating it as section 4 of RFC 3629
   * requires: the lead byte's marker must match the length, every other
   * byte must be a continuation byte, and overlong forms, surrogates and
   * values above U+10FFFF are rejected.
   */
  function DecodeChar(b: seq<byte>): Option<char> {
    if |b| == 1 then
      if b[0] < 0x80 then Some(b[0] as int as char) else None
    else if |b| == 2 then
      if 0xC2 <= b[0] <= 0xDF && IsContinuation(b[1])
      then Some(((b[0] as int - 0xC0) * 0x40 + (b[1] as int - 0x80)) as char)
      else None
    else if |b| == 3 then
      if 0xE0 <= b[0] <= 0xEF && IsContinuation(b[1]) && IsContinuation(b[2]) then
        var v := (b[0] as int - 0xE0) * 0x1000 + (b[1] as int - 0x80) * 0x40 + (b[2] as int - 0x80);
        if 0x800 <= v && !(0xD800 <= v <= 0xDFFF) then Some(v as char) else None
      else None
    else if |b| == 4 then
      if 0xF0 <= b[0] <= 0xF4 && IsContinuation(b[1]) && IsContinuation(b[2]) && IsContinuation(b[3]) then
        var v := (b[0] as int - 0xF0) * 0x4_0000 + (b[1] as int - 0x80) * 0x1000
                 + (b[2] as int - 0x80) * 0x40 + (b[3] as int - 0x80);
        if 0x1_0000 <= v <= 0x10_FFFF then Some(v as char) else None
      else None
    else None
  }

  /** Every character's bytes decode back to it. */
  lemma DecodeEncodeChar(c: char)
    ensures DecodeChar(EncodeChar(c)) == Some(c)
  {
    var v := c as int;
    if v >= 0x80 {
      assert v == v / 0x40 * 0x40 + v % 0x40;
      if v >= 0x800 {
        assert v / 0x40 == v / 0x1000 * 0x40 + v / 0x40 % 0x40;
        if v >= 0x1_0000 {
          assert v / 0x1000 == v / 0x4_0000 * 0x40 + v / 0x1000 % 0x40;
        }
      }
    }
  }

  /** Dividing `q * d + r` by one of the encoding's scales `d` gives back `q` with remainder `r`. */
  lemma DivModOf(q: int, d: int, r: int)
    requires d == 0x40 || d == 0x1000 || d == 0x4_0000
    requires q >= 0 && 0 <= r < d
    ensures (q * d + r) / d == q && (q * d + r) % d == r
  {
    if d == 0x40 {
      assert q * d + r == q * 0x40 + r;
    } else if d == 0x1000 {
      assert q * d + r == q * 0x1000 + r;
    } else {
      assert q * d + r == q * 0x4_0000 + r;
    }
  }

  /** A valid two-byte form is the encoding of what it decodes to. */
  lemma EncodeDecodeTwo(b: seq<byte>)
    requires |b| == 2 && DecodeChar(b).Some?
    ensures EncodeChar(DecodeChar(b).value) == b
  {
    DivModOf(b[0] as int - 0xC0, 0x40, b[1] as int - 0x80);
  }

  /** A valid three-byte form is the encoding of what it decodes to. */
  lemma EncodeDecodeThree(b: seq<byte>)
    requires |b| == 3 && DecodeChar(b).Some?
    ensures EncodeChar(DecodeChar(b).value) == b
  {
    var v := DecodeChar(b).value as int;
    var hi := b[0] as int - 0xE0;
    var mid := b[1] as int - 0x80;
    var lo := b[2] as int - 0x80;
    assert v == (hi * 0x40 + mid) * 0x40 + lo;
    DivModOf(hi * 0x40 + mid, 0x40, lo);
    DivModOf(hi, 0x40, mid);
    assert v == hi * 0x1000 + (mid * 0x40 + lo);
    DivModOf(hi, 0x1000, mid * 0x40 + lo);
  }

  /** A valid four-byte form is the encoding of what it decodes to. */
  lemma EncodeDecodeFour(b: seq<byte>)
    requires |b| == 4 && DecodeChar(b).Some?
    ensures EncodeChar(DecodeChar(b).value) == b
  {
    var v := DecodeChar(b).value as int;
    var top := b[0] as int - 0xF0;
    var hi := b[1] as int - 0x80;
    var mid := b[2] as int - 0x80;
    var lo := b[3] as int - 0x80;
    assert v == ((top * 0x40 + hi) * 0x40 + mid) * 0x40 + lo;
    DivModOf((top * 0x40 + hi) * 0x40 + mid, 0x40, lo);
    DivModOf(top * 0x40 + hi, 0x40, mid);
    assert v == (top * 0x40 + hi) * 0x1000 + (mid * 0x40 + lo);
    DivModOf(top * 0x40 + hi, 0x1000, mid * 0x40 + lo);
    DivModOf(top, 0x40, hi);
    assert v == top * 0x4_0000 + (hi * 0x1000 + mid * 0x40 + lo);
    DivModOf(top, 0x4_0000, hi * 0x1000 + mid * 0x40 + lo);
  }

  /** Only a character's own bytes decode to it: the encoding is the one valid form. */
  lemma EncodeDecodeChar(b: seq<byte>)
    requires DecodeChar(b).Some?
    ensures EncodeChar(DecodeChar(b).value) == b
  {
    if |b| == 2 {
      EncodeDecodeTwo(b);
    } else if |b| == 3 {
      EncodeDecodeThree(b);
    } else if |b| == 4 {
      EncodeDecodeFour(b);
    }
  }


  /** The bytes of a string: the encodings of its characters, in order. */
  function Encode(s: string): (r: seq<byte>)
    ensures |s| <= |r| <= 4 * |s|
    ensures |r| == |s| <==> IsAscii(s)
    decreases |s|
  {
    if |s| == 0 then []
    else
      assert IsAscii(s) <==> IsAsciiChar(s[0]) && IsAscii(s[1..]) by {
        assert forall i :: 0 < i < |s| ==> s[i] == s[1..][i - 1];
      }
      EncodeChar(s[0]) + Encode(s[1..])
  }

  /** The byte length RFC 3629 gives a string: the sum of its characters' widths. */
  function ByteLength(s: string): nat
    decreases |s|
  {
    if |s| == 0 then 0 else Width(s[0]) + ByteLength(s[1..])
  }

  /** The encoding is exactly as long as the widths of the characters add up to. */
  lemma {:induction false} EncodeLength(s: string)
    ensures |Encode(s)| == ByteLength(s)
    decreases |s|
  {
    if |s| > 0 {
      EncodeLength(s[1..]);
    }
  }

  /** The number of bytes a lead byte announces; 0 for a byte that cannot start a character. */
  function LeadWidth(b: byte): nat {
    if b < 0x80 then 1
    else if 0xC2 <= b <= 0xDF then 2
    else if 0xE0 <= b <= 0xEF then 3
    else if 0xF0 <= b <= 0xF4 then 4
    else 0
  }

  /**
   * Decodes a whole byte sequence, character by character as each lead
   * byte announces; any ill-formed or truncated character rejects it.
   */
  function Decode(b: seq<byte>): Option<string>
    decreases |b|
  {
    if |b| == 0 then Some([])
    else
      var w := LeadWidth(b[0]);
      if w == 0 || w > |b| then None
      else
        var c := DecodeChar(b[..w]);
        var rest := Decode(b[w..]);
        if c.None? || rest.None? then None
        else Some([c.value] + rest.value)
  }

  /** Decoding the bytes of a string gives the string back. */
  lemma {:induction false} DecodeEncode(s: string)
    ensures Decode(Encode(s)) == Some(s)
    decreases |s|
  {
    if |s| > 0 {
      var head := EncodeChar(s[0]);
      var b := Encode(s);
      assert b == head + Encode(s[1..]);
      assert LeadWidth(b[0]) == |head|;
      assert b[..|head|] == head;
      assert b[|head|..] == Encode(s[1..]);
      DecodeEncodeChar(s[0]);
      DecodeEncode(s[1..]);
      assert [s[0]] + s[1..] == s;
    }
  }

  /** `é` (U+00E9) takes two bytes, so a page holding only it is two bytes long. */
  lemma AccentedLength()
    ensures Encode("\U{E9}") == [0xC3, 0xA9]
  {
    assert "\U{E9}"[1..] == [];
  }

  /** Encoding distributes over concatenation. */
  lemma {:induction false} EncodeAppend(a: string, b: string)
    ensures Encode(a + b) == Encode(a) + Encode(b)
    decreases |a|
  {
    if |a| == 0 {
      assert a + b == b;
    } else {
      assert (a + b)[0] == a[0];
      assert (a + b)[1..] == a[1..] + b;
      EncodeAppend(a[1..], b);
    }
  }

  /** An ASCII string is encoded byte for character. */
  lemma {:induction false} EncodeAscii(s: string)
    requires IsAscii(s)
    ensures |Encode(s)| == |s|
    ensures forall i :: 0 <= i < |s| ==> Encode(s)[i] as int == s[i] as int
    decreases |s|
  {
    if |s| > 0 {
      EncodeAscii(s[1..]);
    }
  }

  /** Reads each byte as the character with that code (ISO 8859-1). */
  function OctetText(b: seq<byte>): (r: string)
    ensures |r| == |b|
    ensures forall i :: 0 <= i < |b| ==> r[i] as int == b[i] as int
  {
    seq(|b|, i requires 0 <= i < |b| => (b[i] as int) as char)
  }

  /** Reading the bytes of an ASCII string as octets gives the string back. */
  lemma OctetTextOfAscii(s: string)
    requires IsAscii(s)
    ensures OctetText(Encode(s)) == s
  {
    EncodeAscii(s);
  }

  /** Bytes that read as an ASCII string are that string's encoding. */
  lemma OctetTextIsAscii(b: seq<byte>, t: string)
    requires IsAscii(t) && OctetText(b) == t
    ensures b == Encode(t)
  {
    EncodeAscii(t);
  }
}

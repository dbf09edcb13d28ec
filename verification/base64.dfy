/**
 * The base64 encoding of section 4 of RFC 4648 (standard alphabet, `=`
 * padding), as Python's `base64.b64encode` produces it, and a decoder that
 * inverts it. Both go through an intermediate sequence of 6-bit groups, so
 * that the alphabet and the bit arithmetic are reasoned about separately.
 */
module Base64 {
  import opened Wrappers

  type byte = x: int | 0 <= x < 256
  type sextet = x: int | 0 <= x < 64

  predicate IsAlphabetChar(c: char) {
    ('A' <= c <= 'Z') || ('a' <= c <= 'z') || ('0' <= c <= '9') || c == '+' || c == '/'
  }

  /** The character standing for a 6-bit group: `A`-`Z`, `a`-`z`, `0`-`9`, `+`, `/`. */
  function Char(n: sextet): (c: char)
    ensures IsAlphabetChar(c)
  {
    if n < 26 then ('A' as int + n) as char
    else if n < 52 then ('a' as int + (n - 26)) as char
    else if n < 62 then ('0' as int + (n - 52)) as char
    else if n == 62 then '+'
    else '/'
  }

  /** The 6-bit group an alphabet character stands for. */
  function Sextet(c: char): sextet
    requires IsAlphabetChar(c)
  {
    if 'A' <= c <= 'Z' then c as int - 'A' as int
    else if 'a' <= c <= 'z' then c as int - 'a' as int + 26
    else if '0' <= c <= '9' then c as int - '0' as int + 52
    else if c == '+' then 62
    else 63
  }

  /** Distinct groups get distinct characters: the alphabet reads back. */
  lemma SextetOfChar(n: sextet)
    ensures Sextet(Char(n)) == n
  {
  }

  // ---- bit arithmetic: bytes <-> 6-bit groups ----

  /** The 6-bit groups of a byte string: four per full group of three bytes, then two or three for a partial group. */
  function Sextets(b: seq<byte>): (s: seq<sextet>)
    ensures |s| == 4 * (|b| / 3) + (if |b| % 3 == 0 then 0 else |b| % 3 + 1)
    decreases |b|
  {
    if |b| == 0 then []
    else if |b| == 1 then [b[0] / 4, b[0] % 4 * 16]
    else if |b| == 2 then [b[0] / 4, b[0] % 4 * 16 + b[1] / 16, b[1] % 16 * 4]
    else Group(b[0], b[1], b[2]) + Sextets(b[3..])
  }

  /** The four 6-bit groups of three bytes. */
  function Group(b0: byte, b1: byte, b2: byte): seq<sextet> {
    [b0 / 4, b0 % 4 * 16 + b1 / 16, b1 % 16 * 4 + b2 / 64, b2 % 64]
  }

  function Byte0(s0: sextet, s1: sextet): byte {
    s0 as int * 4 + s1 as int / 16
  }

  function Byte1(s1: sextet, s2: sextet): byte {
    s1 as int % 16 * 16 + s2 as int / 4
  }

  function Byte2(s2: sextet, s3: sextet): byte {
    s2 as int % 4 * 64 + s3 as int
  }

  /** Bytes back from 6-bit groups; the low bits of a partial group's last character are dropped. */
  function Bytes(s: seq<sextet>): seq<byte>
    requires |s| % 4 != 1
    decreases |s|
  {
    if |s| == 0 then []
    else if |s| == 2 then [Byte0(s[0], s[1])]
    else if |s| == 3 then [Byte0(s[0], s[1]), Byte1(s[1], s[2])]
    else [Byte0(s[0], s[1]), Byte1(s[1], s[2]), Byte2(s[2], s[3])] + Bytes(s[4..])
  }

  lemma GroupRoundTrip(b0: byte, b1: byte, b2: byte)
    ensures Byte0(b0 / 4, b0 % 4 * 16 + b1 / 16) == b0
    ensures Byte1(b0 % 4 * 16 + b1 / 16, b1 % 16 * 4 + b2 / 64) == b1
    ensures Byte2(b1 % 16 * 4 + b2 / 64, b2 % 64) == b2
    ensures Byte1(b0 % 4 * 16 + b1 / 16, b1 % 16 * 4) == b1
  {
    var s1 := b0 % 4 * 16 + b1 / 16;
    var s2 := b1 % 16 * 4 + b2 / 64;
    assert s1 / 16 == b0 % 4 && s1 % 16 == b1 / 16;
    assert s2 / 4 == b1 % 16 && s2 % 4 == b2 / 64;
  }

  /** A full group reads back as its three bytes, in front of whatever follows it. */
  lemma BytesOfGroup(b0: byte, b1: byte, b2: byte, tail: seq<sextet>)
    requires |tail| % 4 != 1
    ensures |Group(b0, b1, b2) + tail| % 4 != 1
    ensures Bytes(Group(b0, b1, b2) + tail) == [b0, b1, b2] + Bytes(tail)
  {
    GroupRoundTrip(b0, b1, b2);
    BytesOfFour(b0 / 4, b0 % 4 * 16 + b1 / 16, b1 % 16 * 4 + b2 / 64, b2 % 64, tail);
  }

  /** Four 6-bit groups in front of `tail` read back as three bytes in front of `tail`'s bytes. */
  lemma BytesOfFour(s0: sextet, s1: sextet, s2: sextet, s3: sextet, tail: seq<sextet>)
    requires |tail| % 4 != 1
    ensures |[s0, s1, s2, s3] + tail| % 4 != 1
    ensures Bytes([s0, s1, s2, s3] + tail) == [Byte0(s0, s1), Byte1(s1, s2), Byte2(s2, s3)] + Bytes(tail)
  {
    assert ([s0, s1, s2, s3] + tail)[4..] == tail;
  }

  lemma {:induction false} BytesOfSextets(b: seq<byte>)
    ensures |Sextets(b)| % 4 != 1
    ensures Bytes(Sextets(b)) == b
    decreases |b|
  {
    if |b| == 0 {
    } else if |b| == 1 {
      GroupRoundTrip(b[0], 0, 0);
      assert [b[0]] == b;
    } else if |b| == 2 {
      GroupRoundTrip(b[0], b[1], 0);
      assert [b[0], b[1]] == b;
    } else {
      BytesOfSextets(b[3..]);
      BytesOfGroup(b[0], b[1], b[2], Sextets(b[3..]));
      assert [b[0], b[1], b[2]] + b[3..] == b;
    }
  }

  // ---- alphabet: 6-bit groups <-> characters ----

  function Chars(s: seq<sextet>): (t: string)
    ensures |t| == |s|
    ensures forall i :: 0 <= i < |t| ==> IsAlphabetChar(t[i])
  {
    seq(|s|, i requires 0 <= i < |s| => Char(s[i]))
  }

  function SextetsOfText(t: string): (s: seq<sextet>)
    requires forall i :: 0 <= i < |t| ==> IsAlphabetChar(t[i])
    ensures |s| == |t|
  {
    seq(|t|, i requires 0 <= i < |t| => Sextet(t[i]))
  }

  lemma SextetsOfChars(s: seq<sextet>)
    ensures SextetsOfText(Chars(s)) == s
  {
    forall i | 0 <= i < |s|
      ensures SextetsOfText(Chars(s))[i] == s[i]
    {
      SextetOfChar(s[i]);
    }
  }

  // ---- the text form ----

  /** The `=` characters that fill the last group to four characters. */
  function Padding(n: nat): string {
    if n % 3 == 1 then "==" else if n % 3 == 2 then "=" else ""
  }

  /** `b64encode`: four characters for each started group of three bytes. */
  function Encode(b: seq<byte>): (s: string)
    ensures |s| == 4 * ((|b| + 2) / 3)
  {
    Chars(Sextets(b)) + Padding(|b|)
  }

  /** The number of pad characters at the end of the text: none, one or two. */
  function PadLength(s: string): (p: nat)
    ensures p <= 2 && p <= |s|
  {
    if |s| >= 2 && s[|s| - 1] == '=' && s[|s| - 2] == '=' then 2
    else if |s| >= 1 && s[|s| - 1] == '=' then 1
    else 0
  }

  /**
   * `b64decode` of well-formed text; None for a length that is not a
   * multiple of four or for any character outside the alphabet other than
   * the final padding.
   */
  function Decode(s: string): (r: Option<seq<byte>>)
  {
    var body := s[..|s| - PadLength(s)];
    if |s| % 4 == 0 && forall i :: 0 <= i < |body| ==> IsAlphabetChar(body[i]) then
      Some(Bytes(SextetsOfText(body)))
    else
      None
  }

  /** Alphabet text followed by padding: the pad is recognised exactly. */
  lemma PadLengthOf(body: string, n: nat)
    requires forall i :: 0 <= i < |body| ==> IsAlphabetChar(body[i])
    requires |body| > 0
    ensures PadLength(body + Padding(n)) == |Padding(n)|
  {
    var s := body + Padding(n);
    assert s[|body| - 1] == body[|body| - 1];
    if n % 3 == 1 {
      assert s[|s| - 1] == '=' && s[|s| - 2] == '=';
    } else if n % 3 == 2 {
      assert s[|s| - 1] == '=' && s[|s| - 2] == body[|body| - 1];
    } else {
      assert s == body;
    }
  }

  /** Alphabet text with its padding decodes to the bytes of its 6-bit groups. */
  lemma DecodeBodyAndPadding(body: string, n: nat)
    requires forall i :: 0 <= i < |body| ==> IsAlphabetChar(body[i])
    requires |body| > 0
    requires (|body| + |Padding(n)|) % 4 == 0
    ensures |body| % 4 != 1
    ensures Decode(body + Padding(n)) == Some(Bytes(SextetsOfText(body)))
  {
    var s := body + Padding(n);
    PadLengthOf(body, n);
    assert s[..|s| - PadLength(s)] == body;
  }

  /** Decoding undoes encoding, for every byte string. */
  lemma DecodeEncode(b: seq<byte>)
    ensures Decode(Encode(b)) == Some(b)
  {
    if |b| > 0 {
      var sx := Sextets(b);
      var body := Chars(sx);
      assert Encode(b) == body + Padding(|b|);
      var k := (|b| + 2) / 3;
      assert |Encode(b)| == 4 * k;
      DecodeBodyAndPadding(body, |b|);
      SextetsOfChars(sx);
      BytesOfSextets(b);
    }
  }
}

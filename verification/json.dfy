/**
 * Compact JSON text (RFC 8259) as `json.dumps(v, separators=(",", ":"))`
 * writes it with its default `ensure_ascii=True`, and a reader for that text.
 * The writer's output is printable ASCII, so its UTF-8 encoding is one byte
 * per character.
 */
module Json {
  import opened Wrappers
  import opened Values
  import Decimal

  predicate IsPrintableAscii(s: string) {
    forall i :: 0 <= i < |s| ==> ' ' <= s[i] <= '~'
  }

  // ---- four-digit hexadecimal, as in `é` ----

  function HexDigit(d: nat): (c: char)
    requires d < 16
    ensures ' ' <= c <= '~'
  {
    if d < 10 then ('0' as int + d) as char else ('a' as int + (d - 10)) as char
  }

  /** The value of a hexadecimal digit of either case. */
  function HexValue(c: char): (r: Option<nat>)
    ensures r.Some? ==> r.value < 16
  {
    if '0' <= c <= '9' then Some(c as int - '0' as int)
    else if 'a' <= c <= 'f' then Some(c as int - 'a' as int + 10)
    else if 'A' <= c <= 'F' then Some(c as int - 'A' as int + 10)
    else None
  }

  /** Python's `'{0:04x}'.format(n)`: four lower-case hexadecimal digits. */
  function Hex4(n: nat): (s: string)
    requires n < 0x10000
    ensures |s| == 4 && IsPrintableAscii(s)
  {
    var a := n / 16;
    var b := a / 16;
    var c := b / 16;
    [HexDigit(c), HexDigit(b % 16), HexDigit(a % 16), HexDigit(n % 16)]
  }

  function ParseHex4(s: string): (r: Option<nat>)
    requires |s| >= 4
    ensures r.Some? ==> r.value < 0x10000
  {
    match (HexValue(s[0]), HexValue(s[1]), HexValue(s[2]), HexValue(s[3]))
    case (Some(h0), Some(h1), Some(h2), Some(h3)) => Some(((h0 * 16 + h1) * 16 + h2) * 16 + h3)
    case _ => None
  }

  lemma ParseHex4OfHex4(n: nat, rest: string)
    requires n < 0x10000
    ensures ParseHex4(Hex4(n) + rest) == Some(n)
  {
    var a := n / 16;
    var b := a / 16;
    var c := b / 16;
    HexValueOfHexDigit(c);
    HexValueOfHexDigit(b % 16);
    HexValueOfHexDigit(a % 16);
    HexValueOfHexDigit(n % 16);
    var s := Hex4(n) + rest;
    assert s[0] == HexDigit(c) && s[1] == HexDigit(b % 16) && s[2] == HexDigit(a % 16) && s[3] == HexDigit(n % 16);
    HexPlaces(n);
  }

  lemma HexValueOfHexDigit(d: nat)
    requires d < 16
    ensures HexValue(HexDigit(d)) == Some(d)
  {
  }

  /** The four hexadecimal places of `n` put back together give `n`. */
  lemma HexPlaces(n: nat)
    requires n < 0x10000
    ensures ((n / 16 / 16 / 16 * 16 + n / 16 / 16 % 16) * 16 + n / 16 % 16) * 16 + n % 16 == n
  {
    var a := n / 16;
    var b := a / 16;
    var c := b / 16;
    assert n == a * 16 + n % 16;
    assert a == b * 16 + a % 16;
    assert b == c * 16 + b % 16;
  }

  // ---- strings ----

  /** True for the characters `ensure_ascii` writes as themselves: printable ASCII other than `"` and `\`. */
  predicate IsPlain(c: char) {
    ' ' <= c <= '~' && c != '"' && c != '\\'
  }

  /** The letter of the two-character escape the writer uses for `c`, if it uses one. */
  function ShortEscape(c: char): Option<char> {
    if c == '"' then Some('"')
    else if c == '\\' then Some('\\')
    else if c == '\U{8}' then Some('b')
    else if c == '\U{C}' then Some('f')
    else if c == '\n' then Some('n')
    else if c == '\r' then Some('r')
    else if c == '\t' then Some('t')
    else None
  }

  /** The character a two-character escape `\e` stands for, if `e` is one of the reader's letters. */
  function Unescape(e: char): Option<char> {
    if e == '"' then Some('"')
    else if e == '\\' then Some('\\')
    else if e == '/' then Some('/')
    else if e == 'b' then Some('\U{8}')
    else if e == 'f' then Some('\U{C}')
    else if e == 'n' then Some('\n')
    else if e == 'r' then Some('\r')
    else if e == 't' then Some('\t')
    else None
  }

  /**
   * How one character of a str is written: a two-character escape when there
   * is one, itself when it is printable ASCII, otherwise `\uXXXX`, using a
   * surrogate pair above U+FFFF.
   */
  function EscapeChar(c: char): (s: string)
    ensures |s| > 0 && s[0] != '"'
    ensures IsPrintableAscii(s)
  {
    match ShortEscape(c)
    case Some(e) => ['\\', e]
    case None =>
      if ' ' <= c <= '~' then [c]
      else if c as int < 0x10000 then
        PrintableConcat("\\u", Hex4(c as int));
        "\\u" + Hex4(c as int)
      else
        var n := c as int - 0x10000;
        SurrogateEscapeIsPrintable(Hex4(0xD800 + n / 0x400), Hex4(0xDC00 + n % 0x400));
        "\\u" + Hex4(0xD800 + n / 0x400) + "\\u" + Hex4(0xDC00 + n % 0x400)
  }

  function EscapeString(s: string): (r: string)
    ensures |r| > 0 ==> r[0] != '"'
  {
    if |s| == 0 then "" else EscapeChar(s[0]) + EscapeString(s[1..])
  }

  function Quote(s: string): (r: string)
    ensures |r| >= 2 && r[0] == '"'
  {
    "\"" + EscapeString(s) + "\""
  }

  // ---- values ----

  /** True when `s` starts the way no value's text does: a separator or closing bracket. */
  predicate StartsWithSeparator(s: string) {
    |s| > 0 && (s[0] == ',' || s[0] == ']' || s[0] == '}' || s[0] == ':')
  }

  /** The compact text of a value: no whitespace, `,` between items, `:` after keys. */
  function Serialize(v: Value): (s: string)
    ensures |s| > 0 && !StartsWithSeparator(s)
    decreases v, 0
  {
    match v
    case Null => "null"
    case Bool(b) => if b then "true" else "false"
    case Int(i) => Decimal.FormatInt(i)
    case Str(s) => Quote(s)
    case Arr(xs) => "[" + SerializeItems(xs) + "]"
    case Obj(ms) => "{" + SerializeMembers(ms) + "}"
  }

  function SerializeItems(xs: seq<Value>): (s: string)
    ensures |xs| > 0 ==> |s| > 0 && !StartsWithSeparator(s)
    decreases xs, 1
  {
    if |xs| == 0 then ""
    else if |xs| == 1 then Serialize(xs[0])
    else Serialize(xs[0]) + "," + SerializeItems(xs[1..])
  }

  function SerializeMembers(ms: seq<(string, Value)>): (s: string)
    ensures |ms| > 0 ==> |s| > 0 && s[0] == '"'
    decreases ms, 1
  {
    if |ms| == 0 then ""
    else
      assert ms[0] in ms && ms[0].1 < ms[0];
      var member := Quote(ms[0].0) + ":" + Serialize(ms[0].1);
      if |ms| == 1 then member else member + "," + SerializeMembers(ms[1..])
  }

  // ---- reading the text back ----

  /** The number of leading decimal digits. */
  function DigitRun(s: string): (k: nat)
    ensures k <= |s|
    ensures Decimal.AllDigits(s[..k])
    ensures k < |s| ==> !Decimal.IsDigit(s[k])
    decreases |s|
  {
    if |s| > 0 && Decimal.IsDigit(s[0]) then
      var k := 1 + DigitRun(s[1..]);
      assert s[..k] == [s[0]] + s[1..][..k - 1];
      k
    else 0
  }

  /** The longest run of digits `t` starts with, and its value; None when there is none. */
  function ParseNatural(t: string): (r: Option<(nat, string)>)
    ensures r.Some? ==> |r.value.1| < |t|
  {
    var k := DigitRun(t);
    if k == 0 then None else Some((Decimal.DigitsValue(t[..k]), t[k..]))
  }

  /** An integer: an optional minus sign, then the longest run of digits. */
  function ParseNumber(s: string): (r: Option<(Value, string)>)
    ensures r.Some? ==> |r.value.1| < |s|
  {
    if |s| > 0 && s[0] == '-' then
      match ParseNatural(s[1..])
      case Some((m, rest)) => Some((Int(-(m as int)), rest))
      case None => None
    else
      match ParseNatural(s)
      case Some((m, rest)) => Some((Int(m), rest))
      case None => None
  }

  /** The text after `\u`: four hexadecimal digits, or a surrogate pair written as two escapes. */
  function ParseUnicodeEscape(s: string): (r: Option<(char, string)>)
    ensures r.Some? ==> |r.value.1| <= |s| - 4
  {
    if |s| < 4 then None
    else
      match ParseHex4(s)
      case None => None
      case Some(n) =>
        if n < 0xD800 || 0xE000 <= n then Some((n as char, s[4..]))
        else if 0xDC00 <= n || |s| < 10 || s[4] != '\\' || s[5] != 'u' then None
        else
          match ParseHex4(s[6..])
          case None => None
          case Some(m) =>
            if 0xDC00 <= m < 0xE000 then
              Some(((0x10000 + (n - 0xD800) * 0x400 + (m - 0xDC00)) as char, s[10..]))
            else None
  }

  /** One character of a string body: an unescaped character or an escape sequence. */
  function ParseBodyChar(s: string): (r: Option<(char, string)>)
    requires |s| > 0
    ensures r.Some? ==> |r.value.1| < |s|
  {
    if s[0] != '\\' then
      if s[0] as int >= 0x20 && s[0] != '"' then Some((s[0], s[1..])) else None
    else if |s| < 2 then None
    else if s[1] == 'u' then ParseUnicodeEscape(s[2..])
    else
      match Unescape(s[1])
      case Some(c) => Some((c, s[2..]))
      case None => None
  }

  /** The characters of a string up to its closing quote, and the text after that quote. */
  function ParseStringBody(s: string): (r: Option<(string, string)>)
    ensures r.Some? ==> |r.value.1| < |s|
    decreases |s|
  {
    if |s| == 0 then None
    else if s[0] == '"' then Some(("", s[1..]))
    else
      match ParseBodyChar(s)
      case None => None
      case Some((c, t)) =>
        match ParseStringBody(t)
        case None => None
        case Some((body, rest)) => Some(([c] + body, rest))
  }

  /** A value at the start of `s`, and the text after it. */
  function ParseValue(s: string): (r: Option<(Value, string)>)
    ensures r.Some? ==> |r.value.1| < |s|
    decreases |s|, 3
  {
    if |s| == 0 then None
    else if s[0] == 'n' then ParseWord(s, "null", Null)
    else if s[0] == 't' then ParseWord(s, "true", Bool(true))
    else if s[0] == 'f' then ParseWord(s, "false", Bool(false))
    else if s[0] == '"' then ParseString(s)
    else if s[0] == '[' then ParseArray(s)
    else if s[0] == '{' then ParseObject(s)
    else ParseNumber(s)
  }

  /** A literal name such as `null`. */
  function ParseWord(s: string, word: string, v: Value): (r: Option<(Value, string)>)
    requires |word| > 0
    ensures r.Some? ==> |r.value.1| < |s|
  {
    if |s| >= |word| && s[..|word|] == word then Some((v, s[|word|..])) else None
  }

  /** A string value, starting at its opening quote. */
  function ParseString(s: string): (r: Option<(Value, string)>)
    requires |s| > 0
    ensures r.Some? ==> |r.value.1| < |s|
  {
    match ParseStringBody(s[1..])
    case None => None
    case Some((str, rest)) => Some((Str(str), rest))
  }

  /** An array, starting at its `[`. */
  function ParseArray(s: string): (r: Option<(Value, string)>)
    requires |s| > 0
    ensures r.Some? ==> |r.value.1| < |s|
    decreases |s|, 2
  {
    if |s| >= 2 && s[1] == ']' then Some((Arr([]), s[2..]))
    else
      match ParseItems(s[1..])
      case None => None
      case Some((xs, rest)) => Some((Arr(xs), rest))
  }

  /** An object, starting at its `{`. */
  function ParseObject(s: string): (r: Option<(Value, string)>)
    requires |s| > 0
    ensures r.Some? ==> |r.value.1| < |s|
    decreases |s|, 2
  {
    if |s| >= 2 && s[1] == '}' then Some((Obj([]), s[2..]))
    else
      match ParseMembers(s[1..])
      case None => None
      case Some((ms, rest)) => Some((Obj(ms), rest))
  }

  /** `value (',' value)* ']'`: the items of an array after its `[`. */
  function ParseItems(s: string): (r: Option<(seq<Value>, string)>)
    ensures r.Some? ==> |r.value.1| < |s|
    decreases |s|, 4
  {
    match ParseValue(s)
    case None => None
    case Some((v, rest)) =>
      if |rest| == 0 then None
      else if rest[0] == ']' then Some(([v], rest[1..]))
      else if rest[0] == ',' then
        match ParseItems(rest[1..])
        case None => None
        case Some((vs, rest')) => Some(([v] + vs, rest'))
      else None
  }

  /** `string ':' value (',' string ':' value)* '}'`: the members of an object after its `{`. */
  function ParseMembers(s: string): (r: Option<(seq<(string, Value)>, string)>)
    ensures r.Some? ==> |r.value.1| < |s|
    decreases |s|, 4
  {
    if |s| == 0 || s[0] != '"' then None
    else
      match ParseStringBody(s[1..])
      case None => None
      case Some((key, rest)) =>
        if |rest| == 0 || rest[0] != ':' then None
        else
          match ParseValue(rest[1..])
          case None => None
          case Some((v, rest')) =>
            if |rest'| == 0 then None
            else if rest'[0] == '}' then Some(([(key, v)], rest'[1..]))
            else if rest'[0] == ',' then
              match ParseMembers(rest'[1..])
              case None => None
              case Some((ms, rest'')) => Some(([(key, v)] + ms, rest''))
            else None
  }

  /** A whole JSON text: one value and nothing after it. */
  function Parse(s: string): Option<Value> {
    match ParseValue(s)
    case Some((v, rest)) => if |rest| == 0 then Some(v) else None
    case None => None
  }

  // ---- the reader inverts the writer ----

  /** Text that may follow a value: nothing, a separator or a closing bracket. */
  predicate MayFollowValue(rest: string) {
    |rest| == 0 || StartsWithSeparator(rest)
  }

  lemma {:induction false} DigitRunOf(d: string, rest: string)
    requires Decimal.AllDigits(d)
    requires |rest| == 0 || !Decimal.IsDigit(rest[0])
    ensures DigitRun(d + rest) == |d|
    decreases |d|
  {
    if |d| > 0 {
      assert (d + rest)[1..] == d[1..] + rest;
      DigitRunOf(d[1..], rest);
    }
  }

  /** A run of digits, optionally after a minus sign, and followed by text that may follow a value, reads as its value. */
  lemma ParseNaturalOfDigits(d: string, rest: string)
    requires |d| > 0 && Decimal.AllDigits(d)
    requires MayFollowValue(rest)
    ensures ParseNatural(d + rest) == Some((Decimal.DigitsValue(d), rest))
  {
    var t := d + rest;
    DigitRunOf(d, rest);
    assert t[..|d|] == d;
    assert t[|d|..] == rest;
  }

  /** A run of digits, with or without a leading minus sign, then text that may follow a value, reads as its value. */
  lemma ParseNumberOfDigits(d: string, rest: string)
    requires |d| > 0 && Decimal.AllDigits(d)
    requires MayFollowValue(rest)
    ensures ParseNumber(d + rest) == Some((Int(Decimal.DigitsValue(d)), rest))
  {
    ParseNaturalOfDigits(d, rest);
    assert (d + rest)[0] == d[0] && d[0] != '-';
  }

  lemma DropSeparator(a: string, b: string, c: string, d: string)
    requires |a| == 1
    ensures (a + b + c + d)[1..] == b + c + d
  {
  }

  lemma AfterMinus(t: string)
    ensures |"-" + t| > 0 && ("-" + t)[0] == '-' && ("-" + t)[1..] == t
  {
  }

  lemma ParseNegative(s: string, m: nat, rest: string)
    requires |s| > 0 && s[0] == '-' && ParseNatural(s[1..]) == Some((m, rest))
    ensures ParseNumber(s) == Some((Int(-(m as int)), rest))
  {
  }

  lemma ParseNumberOfFormat(i: int, rest: string)
    requires MayFollowValue(rest)
    ensures ParseNumber(Decimal.FormatInt(i) + rest) == Some((Int(i), rest))
  {
    if i < 0 {
      ParseNumberOfNegative(i, rest);
    } else {
      var d := Decimal.FormatNat(i);
      Decimal.DigitsValueOfFormatNat(i);
      assert Decimal.FormatInt(i) == d;
      ParseNumberOfDigits(d, rest);
    }
  }

  lemma ParseNumberOfNegative(i: int, rest: string)
    requires i < 0
    requires MayFollowValue(rest)
    ensures ParseNumber(Decimal.FormatInt(i) + rest) == Some((Int(i), rest))
  {
    var n: nat := -i;
    var d := Decimal.FormatNat(n);
    Decimal.DigitsValueOfFormatNat(n);
    var s := Decimal.FormatInt(i) + rest;
    assert Decimal.FormatInt(i) == "-" + d;
    Reassociate("-", d, rest);
    ParseNaturalOfDigits(d, rest);
    AfterMinus(d + rest);
    ParseNegative(s, n, rest);
  }

  lemma ParseSurrogatePair(c: char, rest: string)
    requires c as int >= 0x10000
    ensures var n := c as int - 0x10000;
            ParseUnicodeEscape(Hex4(0xD800 + n / 0x400) + "\\u" + Hex4(0xDC00 + n % 0x400) + rest) == Some((c, rest))
  {
    var n := c as int - 0x10000;
    var hi := 0xD800 + n / 0x400;
    var lo := 0xDC00 + n % 0x400;
    var t := Hex4(hi) + "\\u" + Hex4(lo) + rest;
    ParseHex4OfHex4(hi, "\\u" + Hex4(lo) + rest);
    assert t == Hex4(hi) + ("\\u" + Hex4(lo) + rest);
    assert t[6..] == Hex4(lo) + rest;
    ParseHex4OfHex4(lo, rest);
    assert t[10..] == rest;
    assert n == n / 0x400 * 0x400 + n % 0x400;
  }

  lemma UnescapeShortEscape(c: char)
    requires ShortEscape(c).Some?
    ensures ShortEscape(c).value != 'u' && Unescape(ShortEscape(c).value) == Some(c)
  {
  }

  lemma ParseShortEscape(e: char, c: char, rest: string)
    requires e != 'u' && Unescape(e) == Some(c)
    ensures ParseBodyChar(['\\', e] + rest) == Some((c, rest))
  {
    var s := ['\\', e] + rest;
    assert s[0] == '\\' && s[1] == e && s[2..] == rest;
  }

  lemma ParsePlainChar(c: char, rest: string)
    requires c as int >= 0x20 && c != '"' && c != '\\'
    ensures ParseBodyChar([c] + rest) == Some((c, rest))
  {
    assert ([c] + rest)[1..] == rest;
  }

  lemma ParseUnicodeBody(h: string, rest: string, c: char)
    requires ParseUnicodeEscape(h + rest) == Some((c, rest))
    ensures ParseBodyChar(("\\u" + h) + rest) == Some((c, rest))
  {
    Reassociate("\\u", h, rest);
    var s := "\\u" + (h + rest);
    assert s[0] == '\\' && s[1] == 'u' && s[2..] == h + rest;
  }

  lemma ParseBasicPlane(c: char, rest: string)
    requires c as int < 0x10000
    ensures ParseUnicodeEscape(Hex4(c as int) + rest) == Some((c, rest))
  {
    var t := Hex4(c as int) + rest;
    ParseHex4OfHex4(c as int, rest);
    assert t[4..] == rest;
  }

  lemma SurrogateEscapeShape(a: string, b: string)
    ensures "\\u" + a + "\\u" + b == "\\u" + (a + "\\u" + b)
  {
  }

  lemma ParseEscapeChar(c: char, rest: string)
    ensures ParseBodyChar(EscapeChar(c) + rest) == Some((c, rest))
  {
    match ShortEscape(c)
    case Some(e) =>
      UnescapeShortEscape(c);
      assert EscapeChar(c) == ['\\', e];
      ParseShortEscape(e, c, rest);
    case None =>
      if ' ' <= c <= '~' {
        assert EscapeChar(c) == [c];
        ParsePlainChar(c, rest);
      } else if c as int < 0x10000 {
        assert EscapeChar(c) == "\\u" + Hex4(c as int);
        ParseBasicPlane(c, rest);
        ParseUnicodeBody(Hex4(c as int), rest, c);
      } else {
        var n := c as int - 0x10000;
        var hi, lo := Hex4(0xD800 + n / 0x400), Hex4(0xDC00 + n % 0x400);
        assert EscapeChar(c) == "\\u" + hi + "\\u" + lo;
        SurrogateEscapeShape(hi, lo);
        ParseSurrogatePair(c, rest);
        ParseUnicodeBody(hi + "\\u" + lo, rest, c);
      }
  }

  lemma {:induction false} ParseEscapedBody(str: string, rest: string)
    ensures ParseStringBody(EscapeString(str) + "\"" + rest) == Some((str, rest))
    decreases |str|
  {
    if |str| == 0 {
      assert EscapeString(str) == "";
      assert "" + "\"" + rest == "\"" + rest;
    } else {
      var tail := EscapeString(str[1..]) + "\"" + rest;
      assert EscapeString(str) == EscapeChar(str[0]) + EscapeString(str[1..]);
      Regroup(EscapeChar(str[0]), EscapeString(str[1..]), "\"", rest);
      ParseEscapeChar(str[0], tail);
      ParseEscapedBody(str[1..], rest);
      assert [str[0]] + str[1..] == str;
    }
  }

  lemma ParseQuoted(str: string, rest: string)
    ensures ParseValue(Quote(str) + rest) == Some((Str(str), rest))
  {
    var s := Quote(str) + rest;
    assert s[1..] == EscapeString(str) + "\"" + rest;
    ParseEscapedBody(str, rest);
    assert ParseValue(s) == ParseString(s);
  }

  lemma ParseWordOf(word: string, v: Value, rest: string)
    requires |word| > 0
    ensures ParseWord(word + rest, word, v) == Some((v, rest))
  {
    assert (word + rest)[..|word|] == word;
    assert (word + rest)[|word|..] == rest;
  }

  lemma ParseScalar(v: Value, rest: string)
    requires v.Null? || v.Bool? || v.Int? || v.Str?
    requires MayFollowValue(rest)
    ensures ParseValue(Serialize(v) + rest) == Some((v, rest))
  {
    match v
    case Null =>
      ParseWordOf("null", Null, rest);
    case Bool(b) =>
      if b {
        ParseWordOf("true", v, rest);
      } else {
        ParseWordOf("false", v, rest);
      }
    case Int(i) =>
      var s := Serialize(v) + rest;
      ParseNumberOfFormat(i, rest);
      assert s[0] == '-' || Decimal.IsDigit(s[0]);
      assert ParseValue(s) == ParseNumber(s);
    case Str(str) =>
      ParseQuoted(str, rest);
  }

  lemma ParseEmptyArray(rest: string)
    ensures ParseValue("[]" + rest) == Some((Arr([]), rest))
  {
    var s := "[]" + rest;
    assert s[2..] == rest;
    assert ParseValue(s) == ParseArray(s);
  }

  lemma ParseNonEmptyArray(t: string, xs: seq<Value>, rest: string)
    requires |t| > 0 && t[0] != ']'
    requires ParseItems(t) == Some((xs, rest))
    ensures ParseValue("[" + t) == Some((Arr(xs), rest))
  {
    var s := "[" + t;
    assert s[1..] == t;
    assert ParseValue(s) == ParseArray(s);
  }

  lemma ParseArrayText(xs: seq<Value>, rest: string)
    requires |xs| > 0 ==> ParseItems(SerializeItems(xs) + "]" + rest) == Some((xs, rest))
    ensures ParseValue(Serialize(Arr(xs)) + rest) == Some((Arr(xs), rest))
  {
    if |xs| == 0 {
      assert Serialize(Arr(xs)) + rest == "[]" + rest;
      ParseEmptyArray(rest);
    } else {
      var t := SerializeItems(xs) + "]" + rest;
      assert Serialize(Arr(xs)) + rest == "[" + t;
      ParseNonEmptyArray(t, xs, rest);
    }
  }

  lemma ParseEmptyObject(rest: string)
    ensures ParseValue("{}" + rest) == Some((Obj([]), rest))
  {
    var s := "{}" + rest;
    assert s[2..] == rest;
    assert ParseValue(s) == ParseObject(s);
  }

  lemma ParseNonEmptyObject(t: string, ms: seq<(string, Value)>, rest: string)
    requires |t| > 0 && t[0] == '"'
    requires ParseMembers(t) == Some((ms, rest))
    ensures ParseValue("{" + t) == Some((Obj(ms), rest))
  {
    var s := "{" + t;
    assert s[0] == '{' && s[1] == '"';
    assert s[1..] == t;
    assert ParseObject(s) == Some((Obj(ms), rest));
  }

  lemma ParseObjectText(ms: seq<(string, Value)>, rest: string)
    requires |ms| > 0 ==> ParseMembers(SerializeMembers(ms) + "}" + rest) == Some((ms, rest))
    ensures ParseValue(Serialize(Obj(ms)) + rest) == Some((Obj(ms), rest))
  {
    var m := SerializeMembers(ms);
    assert Serialize(Obj(ms)) == "{" + m + "}";
    if |ms| == 0 {
      assert m == "";
      DropEmpty("{", "}", rest);
      ParseEmptyObject(rest);
    } else {
      Regroup("{", m, "}", rest);
      ParseNonEmptyObject(m + "}" + rest, ms, rest);
    }
  }

  /** Reading the compact text of a value gives the value back, whatever separator follows it. */
  lemma {:induction false} ParseSerialize(v: Value, rest: string)
    requires MayFollowValue(rest)
    ensures ParseValue(Serialize(v) + rest) == Some((v, rest))
    decreases v, 0
  {
    match v
    case Arr(xs) =>
      if |xs| > 0 {
        ParseSerializeItems(xs, rest);
      }
      ParseArrayText(xs, rest);
    case Obj(ms) =>
      if |ms| > 0 {
        ParseSerializeMembers(ms, rest);
      }
      ParseObjectText(ms, rest);
    case _ =>
      ParseScalar(v, rest);
  }

  lemma {:induction false} ParseSerializeItems(xs: seq<Value>, rest: string)
    requires |xs| > 0
    ensures ParseItems(SerializeItems(xs) + "]" + rest) == Some((xs, rest))
    decreases xs, 1
  {
    var first := Serialize(xs[0]);
    if |xs| == 1 {
      assert SerializeItems(xs) == first;
      Reassociate(first, "]", rest);
      ParseSerialize(xs[0], "]" + rest);
      assert ("]" + rest)[1..] == rest;
      assert [xs[0]] == xs;
    } else {
      var items := SerializeItems(xs[1..]);
      assert SerializeItems(xs) == first + "," + items;
      Regroup4(first, ",", items, "]", rest);
      var after := "," + items + "]" + rest;
      ParseSerialize(xs[0], after);
      DropSeparator(",", items, "]", rest);
      ParseSerializeItems(xs[1..], rest);
      assert [xs[0]] + xs[1..] == xs;
    }
  }

  /** The key and colon in front of a member's value are read as written. */
  lemma ParseMemberKey(key: string, tail: string)
    ensures var s := Quote(key) + ":" + tail;
            |s| > 0 && s[0] == '"'
            && ParseStringBody(s[1..]) == Some((key, ":" + tail))
  {
    var s := Quote(key) + ":" + tail;
    assert s[1..] == EscapeString(key) + "\"" + (":" + tail);
    ParseEscapedBody(key, ":" + tail);
  }

  lemma ParseMembersLast(s: string, key: string, tail: string, v: Value, rest: string)
    requires |s| > 0 && s[0] == '"' && ParseStringBody(s[1..]) == Some((key, ":" + tail))
    requires ParseValue(tail) == Some((v, "}" + rest))
    ensures ParseMembers(s) == Some(([(key, v)], rest))
  {
    assert (":" + tail)[1..] == tail;
    assert ("}" + rest)[1..] == rest;
  }

  lemma ParseMembersNext(s: string, key: string, tail: string, v: Value, more: string, ms: seq<(string, Value)>, rest: string)
    requires |s| > 0 && s[0] == '"' && ParseStringBody(s[1..]) == Some((key, ":" + tail))
    requires ParseValue(tail) == Some((v, "," + more))
    requires ParseMembers(more) == Some((ms, rest))
    ensures ParseMembers(s) == Some(([(key, v)] + ms, rest))
  {
    assert (":" + tail)[1..] == tail;
    assert ("," + more)[1..] == more;
  }

  lemma SerializeOneMember(ms: seq<(string, Value)>, rest: string)
    requires |ms| == 1
    ensures SerializeMembers(ms) + "}" + rest == Quote(ms[0].0) + ":" + (Serialize(ms[0].1) + ("}" + rest))
  {
  }

  lemma SerializeMoreMembers(ms: seq<(string, Value)>, rest: string)
    requires |ms| > 1
    ensures SerializeMembers(ms) + "}" + rest
            == Quote(ms[0].0) + ":" + (Serialize(ms[0].1) + ("," + (SerializeMembers(ms[1..]) + "}" + rest)))
  {
    var m := Quote(ms[0].0) + ":" + Serialize(ms[0].1);
    var t := SerializeMembers(ms[1..]);
    assert SerializeMembers(ms) == m + "," + t;
    AppendAssoc(Quote(ms[0].0) + ":", Serialize(ms[0].1), ",", t, "}", rest);
  }

  lemma {:induction false} ParseSerializeMembers(ms: seq<(string, Value)>, rest: string)
    requires |ms| > 0
    ensures ParseMembers(SerializeMembers(ms) + "}" + rest) == Some((ms, rest))
    decreases ms, 1
  {
    assert ms[0] in ms && ms[0].1 < ms[0];
    var key := ms[0].0;
    var v := ms[0].1;
    if |ms| == 1 {
      ParseSerialize(v, "}" + rest);
      ParseSingleMember(ms, rest);
    } else {
      var more := SerializeMembers(ms[1..]) + "}" + rest;
      ParseSerialize(v, "," + more);
      ParseSerializeMembers(ms[1..], rest);
      ParseFirstMember(ms, rest);
    }
  }

  /** The last member of an object, given that its value reads back. */
  lemma ParseSingleMember(ms: seq<(string, Value)>, rest: string)
    requires |ms| == 1
    requires ParseValue(Serialize(ms[0].1) + ("}" + rest)) == Some((ms[0].1, "}" + rest))
    ensures ParseMembers(SerializeMembers(ms) + "}" + rest) == Some((ms, rest))
  {
    var key := ms[0].0;
    var v := ms[0].1;
    var tail := Serialize(v) + ("}" + rest);
    ParseMemberKey(key, tail);
    ParseMembersLast(Quote(key) + ":" + tail, key, tail, v, rest);
    SerializeOneMember(ms, rest);
    assert [(key, v)] == ms;
  }

  /** A member followed by more members, given that its value and the rest read back. */
  lemma ParseFirstMember(ms: seq<(string, Value)>, rest: string)
    requires |ms| > 1
    requires var more := SerializeMembers(ms[1..]) + "}" + rest;
             ParseValue(Serialize(ms[0].1) + ("," + more)) == Some((ms[0].1, "," + more))
    requires ParseMembers(SerializeMembers(ms[1..]) + "}" + rest) == Some((ms[1..], rest))
    ensures ParseMembers(SerializeMembers(ms) + "}" + rest) == Some((ms, rest))
  {
    var key := ms[0].0;
    var v := ms[0].1;
    var more := SerializeMembers(ms[1..]) + "}" + rest;
    var tail := Serialize(v) + ("," + more);
    ParseMemberKey(key, tail);
    ParseMembersNext(Quote(key) + ":" + tail, key, tail, v, more, ms[1..], rest);
    SerializeMoreMembers(ms, rest);
    FirstAndRest(ms);
  }

  /** A complete text written by `Serialize` reads back as the same value. */
  lemma ParseOfSerialize(v: Value)
    ensures Parse(Serialize(v)) == Some(v)
  {
    ParseSerialize(v, "");
    assert Serialize(v) + "" == Serialize(v);
  }

  // ---- the writer's text is printable ASCII ----

  lemma PrintableConcat(a: string, b: string)
    requires IsPrintableAscii(a) && IsPrintableAscii(b)
    ensures IsPrintableAscii(a + b)
  {
    assert forall i :: 0 <= i < |a + b| ==> (a + b)[i] == if i < |a| then a[i] else b[i - |a|];
  }

  lemma SurrogateEscapeIsPrintable(hi: string, lo: string)
    requires IsPrintableAscii(hi) && IsPrintableAscii(lo)
    ensures IsPrintableAscii("\\u" + hi + "\\u" + lo)
  {
    PrintableConcat("\\u", hi);
    PrintableConcat("\\u" + hi, "\\u");
    PrintableConcat("\\u" + hi + "\\u", lo);
  }

  lemma {:induction false} EscapeStringIsPrintable(s: string)
    ensures IsPrintableAscii(EscapeString(s))
    decreases |s|
  {
    if |s| > 0 {
      EscapeStringIsPrintable(s[1..]);
      PrintableConcat(EscapeChar(s[0]), EscapeString(s[1..]));
    }
  }

  lemma QuoteIsPrintable(s: string)
    ensures IsPrintableAscii(Quote(s))
  {
    EscapeStringIsPrintable(s);
    PrintableConcat("\"", EscapeString(s));
    PrintableConcat("\"" + EscapeString(s), "\"");
  }

  lemma FormatIntIsPrintable(i: int)
    ensures IsPrintableAscii(Decimal.FormatInt(i))
  {
    var s := Decimal.FormatInt(i);
    forall k | 0 <= k < |s|
      ensures ' ' <= s[k] <= '~'
    {
      if i < 0 && k > 0 {
        assert s[k] == s[1..][k - 1];
      }
    }
  }

  /** Everything `Serialize` writes is printable ASCII, so it encodes to one byte per character. */
  lemma {:induction false} SerializeIsPrintable(v: Value)
    ensures IsPrintableAscii(Serialize(v))
    decreases v, 0
  {
    match v
    case Null =>
    case Bool(b) =>
    case Int(i) => FormatIntIsPrintable(i);
    case Str(str) => QuoteIsPrintable(str);
    case Arr(xs) =>
      SerializeItemsIsPrintable(xs);
      PrintableConcat("[", SerializeItems(xs));
      PrintableConcat("[" + SerializeItems(xs), "]");
    case Obj(ms) =>
      SerializeMembersIsPrintable(ms);
      PrintableConcat("{", SerializeMembers(ms));
      PrintableConcat("{" + SerializeMembers(ms), "}");
  }

  lemma {:induction false} SerializeItemsIsPrintable(xs: seq<Value>)
    ensures IsPrintableAscii(SerializeItems(xs))
    decreases xs, 1
  {
    if |xs| == 1 {
      SerializeIsPrintable(xs[0]);
    } else if |xs| > 1 {
      SerializeIsPrintable(xs[0]);
      SerializeItemsIsPrintable(xs[1..]);
      PrintableConcat(Serialize(xs[0]), ",");
      PrintableConcat(Serialize(xs[0]) + ",", SerializeItems(xs[1..]));
    }
  }

  lemma {:induction false} SerializeMembersIsPrintable(ms: seq<(string, Value)>)
    ensures IsPrintableAscii(SerializeMembers(ms))
    decreases ms, 1
  {
    if |ms| > 0 {
      assert ms[0] in ms && ms[0].1 < ms[0];
      var member := Quote(ms[0].0) + ":" + Serialize(ms[0].1);
      QuoteIsPrintable(ms[0].0);
      SerializeIsPrintable(ms[0].1);
      PrintableConcat(Quote(ms[0].0), ":");
      PrintableConcat(Quote(ms[0].0) + ":", Serialize(ms[0].1));
      if |ms| > 1 {
        SerializeMembersIsPrintable(ms[1..]);
        PrintableConcat(member, ",");
        PrintableConcat(member + ",", SerializeMembers(ms[1..]));
      }
    }
  }
}

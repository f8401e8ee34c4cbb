/** Decimal numbers, UTF-8, hexadecimal and JSON strings, as the standard formatters write them. */
module Text {
  import opened Wire
  import opened Wrappers

  // ----- white space

  /** char::is_whitespace: the White_Space property. */
  predicate UnicodeWhite(c: char) {
    var n := c as int;
    || 0x09 <= n <= 0x0D || n == 0x20 || n == 0x85 || n == 0xA0 || n == 0x1680
    || 0x2000 <= n <= 0x200A || n == 0x2028 || n == 0x2029 || n == 0x202F || n == 0x205F || n == 0x3000
  }

  /** The characters with that property, listed. */
  const WHITE_SPACE: seq<int> := [
    0x09, 0x0A, 0x0B, 0x0C, 0x0D, 0x20, 0x85, 0xA0, 0x1680, 0x2000, 0x2001, 0x2002, 0x2003, 0x2004, 0x2005, 0x2006,
    0x2007, 0x2008, 0x2009, 0x200A, 0x2028, 0x2029, 0x202F, 0x205F, 0x3000
  ]

  lemma UnicodeWhiteIff(c: char)
    ensures UnicodeWhite(c) <==> c as int in WHITE_SPACE
  {
    assert 0x2000 <= c as int <= 0x200A ==> WHITE_SPACE[9 + (c as int - 0x2000)] == c as int;
    assert 0x09 <= c as int <= 0x0D ==> WHITE_SPACE[c as int - 0x09] == c as int;
  }

  // ----- decimal

  predicate IsDigit(c: char) {
    '0' <= c <= '9'
  }

  predicate AllDigits(s: string) {
    forall i :: 0 <= i < |s| ==> IsDigit(s[i])
  }

  function DigitValue(c: char): (d: nat)
    requires IsDigit(c)
    ensures d < 10
  {
    c as int - '0' as int
  }

  function DigitChar(d: nat): (c: char)
    requires d < 10
    ensures IsDigit(c) && DigitValue(c) == d
  {
    ('0' as int + d) as char
  }

  function Decimal(n: nat): (s: string)
    ensures s != [] && AllDigits(s)
  {
    if n < 10 then [DigitChar(n)] else Decimal(n / 10) + [DigitChar(n % 10)]
  }

  function DigitsValue(s: string): nat
    requires AllDigits(s)
  {
    if s == [] then 0 else 10 * DigitsValue(s[..|s| - 1]) + DigitValue(s[|s| - 1])
  }

  lemma DigitsValueAppend(s: string, c: char)
    requires AllDigits(s) && IsDigit(c)
    ensures DigitsValue(s + [c]) == 10 * DigitsValue(s) + DigitValue(c)
  {
    assert (s + [c])[..|s|] == s;
  }

  lemma {:induction false} DecimalValue(n: nat)
    ensures DigitsValue(Decimal(n)) == n
  {
    if n < 10 {
      assert [DigitChar(n)][..0] == [];
    } else {
      DecimalValue(n / 10);
      DigitsValueAppend(Decimal(n / 10), DigitChar(n % 10));
    }
  }

  function PowerOfTen(k: nat): (p: nat)
    ensures p > 0
  {
    if k == 0 then 1 else 10 * PowerOfTen(k - 1)
  }

  /** The k-th digit from the right counts multiples of ten to the k. */
  lemma {:induction false} DecimalDigits(n: nat, k: nat)
    requires k < |Decimal(n)|
    ensures Decimal(n)[|Decimal(n)| - 1 - k] == DigitChar(n / PowerOfTen(k) % 10)
  {
    if k > 0 {
      DecimalDigits(n / 10, k - 1);
      DivideTwice(n, 10, PowerOfTen(k - 1), PowerOfTen(k));
    }
  }

  lemma {:induction false} NoLeadingZero(n: nat)
    requires n > 0
    ensures Decimal(n)[0] != '0'
  {
    if n >= 10 {
      NoLeadingZero(n / 10);
    }
  }

  lemma DecimalInjective(m: nat, n: nat)
    requires Decimal(m) == Decimal(n)
    ensures m == n
  {
    DecimalValue(m);
    DecimalValue(n);
  }

  // ----- UTF-8

  function Utf8Char(c: char): (r: Bytes)
    ensures 1 <= |r| <= 4
  {
    var n := c as int;
    if n < 0x80 then [n as Byte]
    else if n < 0x800 then [(0xC0 + n / 64) as Byte, (0x80 + n % 64) as Byte]
    else if n < 0x1_0000 then [(0xE0 + n / 64 / 64) as Byte, (0x80 + n / 64 % 64) as Byte, (0x80 + n % 64) as Byte]
    else [(0xF0 + n / 64 / 64 / 64) as Byte, (0x80 + n / 64 / 64 % 64) as Byte, (0x80 + n / 64 % 64) as Byte,
          (0x80 + n % 64) as Byte]
  }

  function Utf8(s: string): Bytes {
    if s == [] then [] else Utf8Char(s[0]) + Utf8(s[1..])
  }

  /** A byte that carries six bits. */
  predicate IsContinuation(b: Byte) {
    0x80 <= b < 0xC0
  }

  function SixBits(b: Byte): int {
    b as int - 0x80
  }

  /** Section 3 of RFC 3629: the first byte tells the number of bytes, each further one carries six bits, and the
      shortest form is used. */
  lemma Utf8CharIs(c: char)
    ensures var b, n := Utf8Char(c), c as int;
            match |b|
            case 1 => n == b[0] as int < 0x80
            case 2 => IsContinuation(b[1]) && n == (b[0] as int - 0xC0) * 64 + SixBits(b[1]) && 0x80 <= n < 0x800
            case 3 =>
              && IsContinuation(b[1]) && IsContinuation(b[2]) && 0x800 <= n < 0x1_0000
              && n == (b[0] as int - 0xE0) * 4_096 + SixBits(b[1]) * 64 + SixBits(b[2])
            case _ =>
              && IsContinuation(b[1]) && IsContinuation(b[2]) && IsContinuation(b[3]) && 0x1_0000 <= n < 0x11_0000
              && n == (b[0] as int - 0xF0) * 262_144 + SixBits(b[1]) * 4_096 + SixBits(b[2]) * 64 + SixBits(b[3])
  {
  }

  lemma Utf8CharWidth(c: char)
    ensures var b := Utf8Char(c);
            |b| == if b[0] < 0x80 then 1 else if b[0] < 0xE0 then 2 else if b[0] < 0xF0 then 3 else 4
  {
  }

  lemma Utf8CharInjective(c: char, d: char)
    requires Utf8Char(c) == Utf8Char(d)
    ensures c == d
  {
    var m, n := c as int, d as int;
    Utf8CharWidth(c);
    Utf8CharWidth(d);
    assert m % 64 == n % 64 && m / 64 == n / 64 by {
      if m >= 0x80 {
        assert m / 64 % 64 == n / 64 % 64 || m < 0x800;
        assert m / 64 / 64 % 64 == n / 64 / 64 % 64 || m < 0x1_0000;
      }
    }
  }

  /** The first byte tells the width, so the first character can be split off. */
  lemma Utf8SplitFirst(c: char, x: Bytes, d: char, y: Bytes)
    requires Utf8Char(c) + x == Utf8Char(d) + y
    ensures c == d && x == y
  {
    var s, t := Utf8Char(c) + x, Utf8Char(d) + y;
    Utf8CharWidth(c);
    Utf8CharWidth(d);
    assert s[0] == Utf8Char(c)[0] && t[0] == Utf8Char(d)[0];
    var n := |Utf8Char(c)|;
    assert s[..n] == Utf8Char(c) && t[..n] == Utf8Char(d);
    assert s[n..] == x && t[n..] == y;
    Utf8CharInjective(c, d);
  }

  lemma {:induction false} Utf8Injective(a: string, b: string)
    requires Utf8(a) == Utf8(b)
    ensures a == b
  {
    if a != [] && b != [] {
      Utf8SplitFirst(a[0], Utf8(a[1..]), b[0], Utf8(b[1..]));
      Utf8Injective(a[1..], b[1..]);
    }
  }

  // ----- hexadecimal

  function HexDigit(d: nat): char
    requires d < 16
  {
    "0123456789abcdef"[d]
  }

  lemma HexDigitIs(d: nat)
    requires d < 16
    ensures HexDigit(d) as int == if d < 10 then '0' as int + d else 'a' as int + (d - 10)
  {
    assert forall i | 0 <= i < 16 :: "0123456789abcdef"[i] as int == if i < 10 then 48 + i else 87 + i;
  }

  lemma HexDigitInjective(d: nat, e: nat)
    requires d < 16 && e < 16 && HexDigit(d) == HexDigit(e)
    ensures d == e
  {
    HexDigitIs(d);
    HexDigitIs(e);
  }

  /** hex::encode */
  function Hex(b: Bytes): (s: string)
    ensures |s| == 2 * |b|
  {
    if b == [] then [] else [HexDigit(b[0] as int / 16), HexDigit(b[0] as int % 16)] + Hex(b[1..])
  }

  /** Two digits for each byte, the high half first. */
  lemma {:induction false} HexAt(b: Bytes, i: nat)
    requires i < |b|
    ensures Hex(b)[2 * i] == HexDigit(b[i] as int / 16) && Hex(b)[2 * i + 1] == HexDigit(b[i] as int % 16)
  {
    if i > 0 {
      HexAt(b[1..], i - 1);
    }
  }

  lemma {:induction false} HexInjective(a: Bytes, b: Bytes)
    requires Hex(a) == Hex(b)
    ensures a == b
  {
    if a != [] && b != [] {
      var s, t := Hex(a), Hex(b);
      assert s[0] == t[0] && s[1] == t[1] && s[2..] == Hex(a[1..]) && t[2..] == Hex(b[1..]);
      HexDigitInjective(a[0] as int / 16, b[0] as int / 16);
      HexDigitInjective(a[0] as int % 16, b[0] as int % 16);
      HexInjective(a[1..], b[1..]);
    }
  }

  // ----- JSON strings, as serde_json writes them

  function JsonChar(c: char): (s: string)
    ensures s != []
  {
    if c == '\"' then "\\\""
    else if c == '\\' then "\\\\"
    else if c as int == 0x08 then "\\b"
    else if c as int == 0x0C then "\\f"
    else if c == '\n' then "\\n"
    else if c == '\r' then "\\r"
    else if c == '\t' then "\\t"
    else if c as int < 0x20 then "\\u00" + [HexDigit(c as int / 16), HexDigit(c as int % 16)]
    else [c]
  }

  function JsonBody(s: string): string {
    if s == [] then [] else JsonChar(s[0]) + JsonBody(s[1..])
  }

  function JsonString(s: string): string {
    "\"" + JsonBody(s) + "\""
  }

  /** Without quotes, backslashes and control characters a string stays as it is. */
  lemma {:induction false} PlainBody(s: string)
    requires forall i :: 0 <= i < |s| ==> ' ' <= s[i] && s[i] != '\"' && s[i] != '\\'
    ensures JsonBody(s) == s
  {
    if s != [] {
      PlainBody(s[1..]);
      assert s == [s[0]] + s[1..];
    }
  }

  lemma {:induction false} HexIsPlain(b: Bytes)
    ensures forall i :: 0 <= i < |Hex(b)| ==> '0' <= Hex(b)[i] <= '9' || 'a' <= Hex(b)[i] <= 'f'
  {
    if b != [] {
      HexIsPlain(b[1..]);
      HexDigitIs(b[0] as int / 16);
      HexDigitIs(b[0] as int % 16);
    }
  }

  // ----- JSON strings, as section 7 of RFC 8259 reads them

  function HexValue(c: char): Option<nat> {
    if '0' <= c <= '9' then Some(c as int - '0' as int)
    else if 'a' <= c <= 'f' then Some(c as int - 'a' as int + 10)
    else None
  }

  /** What a backslash followed by this character stands for. */
  function ShortEscape(c: char): Option<char> {
    if c == '\"' || c == '\\' || c == '/' then Some(c)
    else if c == 'b' then Some(0x08 as char)
    else if c == 'f' then Some(0x0C as char)
    else if c == 'n' then Some(0x0A as char)
    else if c == 'r' then Some(0x0D as char)
    else if c == 't' then Some(0x09 as char)
    else None
  }

  /** A code below 0x100 in four hexadecimal digits. */
  function FourDigits(s: string): Option<char>
    requires |s| == 4
  {
    var high, low := HexValue(s[2]), HexValue(s[3]);
    if s[0] == '0' && s[1] == '0' && high.Some? && low.Some? then Some((16 * high.value + low.value) as char) else None
  }

  /** The first character of a string's body, and what follows it. */
  function ReadChar(s: string): Option<(char, string)>
    requires s != []
  {
    if s[0] == '\"' || s[0] as int < 0x20 then None
    else if s[0] != '\\' then Some((s[0], s[1..]))
    else if |s| >= 2 && ShortEscape(s[1]).Some? then Some((ShortEscape(s[1]).value, s[2..]))
    else if |s| >= 6 && s[1] == 'u' && FourDigits(s[2..6]).Some? then Some((FourDigits(s[2..6]).value, s[6..]))
    else None
  }

  function ReadBody(s: string): Option<string>
    decreases |s|
  {
    if s == [] then Some([])
    else
      match ReadChar(s)
      case None => None
      case Some((c, rest)) =>
        match ReadBody(rest)
        case None => None
        case Some(t) => Some([c] + t)
  }

  lemma HexValueOf(d: nat)
    requires d < 16
    ensures HexValue(HexDigit(d)) == Some(d)
  {
    HexDigitIs(d);
  }

  lemma ReadBack(c: char, rest: string)
    ensures ReadChar(JsonChar(c) + rest) == Some((c, rest))
  {
    var j := JsonChar(c);
    var s := j + rest;
    assert forall i :: 0 <= i < |j| ==> s[i] == j[i];
    assert s[|j|..] == rest;
    if |j| == 6 {
      HexValueOf(c as int / 16);
      HexValueOf(c as int % 16);
      assert s[2..6] == j[2..6];
    }
  }

  /** A reader of that grammar reads back every string that was written; so no quote, backslash or control
      character stands in it unescaped. */
  lemma {:induction false} BodyReadsBack(s: string)
    ensures ReadBody(JsonBody(s)) == Some(s)
  {
    if s != [] {
      ReadBack(s[0], JsonBody(s[1..]));
      BodyReadsBack(s[1..]);
      assert s == [s[0]] + s[1..];
    }
  }

  lemma JsonSplitFirst(c: char, x: string, d: char, y: string)
    requires JsonChar(c) + x == JsonChar(d) + y
    ensures c == d && x == y
  {
    var s, t := JsonChar(c) + x, JsonChar(d) + y;
    assert s[0] == JsonChar(c)[0] && t[0] == JsonChar(d)[0];
    if s[0] == '\\' {
      assert s[1] == JsonChar(c)[1] && t[1] == JsonChar(d)[1];
      if s[1] == 'u' {
        assert s[4] == JsonChar(c)[4] && t[4] == JsonChar(d)[4] && s[5] == JsonChar(c)[5] && t[5] == JsonChar(d)[5];
        HexDigitInjective(c as int / 16, d as int / 16);
        HexDigitInjective(c as int % 16, d as int % 16);
      }
    }
    assert s[|JsonChar(c)|..] == x && t[|JsonChar(d)|..] == y;
  }

  lemma {:induction false} JsonBodyInjective(a: string, b: string)
    requires JsonBody(a) == JsonBody(b)
    ensures a == b
  {
    if a != [] && b != [] {
      JsonSplitFirst(a[0], JsonBody(a[1..]), b[0], JsonBody(b[1..]));
      JsonBodyInjective(a[1..], b[1..]);
    }
  }

  lemma JsonStringInjective(a: string, b: string)
    requires JsonString(a) == JsonString(b)
    ensures a == b
  {
    var s, t := JsonString(a), JsonString(b);
    assert s[1..|s| - 1] == JsonBody(a) && t[1..|t| - 1] == JsonBody(b);
    JsonBodyInjective(a, b);
  }
}

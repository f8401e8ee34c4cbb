/** sovereign-pipeline/src/merge.rs, parse_ply_points, on texts it did not write itself: numbers of any shape, more
    columns, blank lines, other line ends. */
module PlyReading {
  import opened Text
  import opened Wrappers
  import opened Ply

  // ----- powers of ten

  lemma TimesTen(x: real, p: nat, m: real)
    requires x * p as real == m
    ensures x / 10.0 * (10 * p) as real == m
  {
    assert (10 * p) as real == 10.0 * p as real;
    assert x / 10.0 * (10.0 * p as real) == x * p as real;
  }

  lemma TenTimes(m: nat, p: nat)
    ensures (m * (10 * p)) as real == 10.0 * (m * p) as real
  {
    assert m * (10 * p) == 10 * (m * p);
  }

  /** The value is m times ten to the k, or, below zero, the number whose multiple by ten to the -k is m. */
  lemma {:induction false} ScaleIs(m: nat, k: nat)
    ensures Scale(m, k) == (m * Pow10(k)) as real
    ensures Scale(m, 0 - k) * Pow10(k) as real == m as real
  {
    if k > 0 {
      ScaleIs(m, k - 1);
      TenTimes(m, Pow10(k - 1));
      TimesTen(Scale(m, 1 - k), Pow10(k - 1), m as real);
    }
  }

  // ----- numerals

  /** An exponent as it is written: the letter, a sign or none, and digits. */
  datatype Exponent = NoExponent | Exponent(letter: char, sign: string, digits: string)

  datatype Numeral = Numeral(whole: string, point: bool, fraction: string, exponent: Exponent)

  predicate IsExponent(e: Exponent) {
    e.Exponent? ==>
      && (e.letter == 'e' || e.letter == 'E') && (e.sign == "" || e.sign == "+" || e.sign == "-")
      && e.digits != [] && AllDigits(e.digits)
  }

  predicate IsNumeral(n: Numeral) {
    && AllDigits(n.whole) && AllDigits(n.fraction) && n.whole + n.fraction != []
    && (n.point || n.fraction == []) && IsExponent(n.exponent)
  }

  function ExponentText(e: Exponent): string {
    match e
    case NoExponent => []
    case Exponent(letter, sign, digits) => [letter] + (sign + digits)
  }

  function MantissaText(n: Numeral): string {
    if n.point then n.whole + "." + n.fraction else n.whole
  }

  function NumeralText(n: Numeral): string {
    MantissaText(n) + ExponentText(n.exponent)
  }

  function ExponentValue(e: Exponent): int
    requires IsExponent(e)
  {
    match e
    case NoExponent => 0
    case Exponent(_, sign, digits) => if sign == "-" then 0 - DigitsValue(digits) else DigitsValue(digits)
  }

  /** All digits as one number, times the power of ten that point and exponent give. */
  function NumeralValue(n: Numeral): real
    requires IsNumeral(n)
  {
    Scale(DigitsValue(n.whole + n.fraction), ExponentValue(n.exponent) - |n.fraction|)
  }

  lemma NoPoint(s: string)
    requires AllDigits(s)
    ensures IndexOf(s, '.') == |s| && s[..|s|] == s && s + [] == s
  {
    NoDotInDigits(s);
  }

  lemma MantissaReads(n: Numeral)
    requires IsNumeral(n)
    ensures ParseMantissa(MantissaText(n), ExponentValue(n.exponent)) == Some(NumeralValue(n))
  {
    if n.point {
      AroundPoint(n.whole, n.fraction);
    } else {
      NoPoint(n.whole);
    }
  }

  lemma SignedExponent(sign: char, digits: string)
    requires (sign == '+' || sign == '-') && digits != [] && AllDigits(digits)
    ensures ParseExponent([sign] + digits) == Some(if sign == '-' then 0 - DigitsValue(digits) else DigitsValue(digits))
  {
    assert ([sign] + digits)[1..] == digits;
  }

  lemma PlainExponent(digits: string)
    requires digits != [] && AllDigits(digits)
    ensures ParseExponent(digits) == Some(DigitsValue(digits))
  {
    assert IsDigit(digits[0]);
  }

  lemma ExponentReads(e: Exponent)
    requires e.Exponent? && IsExponent(e)
    ensures ParseExponent(e.sign + e.digits) == Some(ExponentValue(e))
  {
    if e.sign == "" {
      PlainExponent(e.digits);
      assert e.sign + e.digits == e.digits;
    } else {
      SignedExponent(e.sign[0], e.digits);
      assert e.sign == [e.sign[0]];
    }
  }

  lemma {:induction false} ExponentFound(a: string, rest: string)
    requires forall i :: 0 <= i < |a| ==> a[i] == '.' || IsDigit(a[i])
    requires rest != [] ==> rest[0] == 'e' || rest[0] == 'E'
    ensures ExponentAt(a + rest) == |a|
  {
    if a == [] {
      assert a + rest == rest;
    } else {
      assert (a + rest)[1..] == a[1..] + rest;
      ExponentFound(a[1..], rest);
    }
  }

  lemma MantissaNumeric(n: Numeral)
    requires IsNumeral(n)
    ensures Numeric(MantissaText(n)) && MantissaText(n) != []
  {
    if n.point {
      DigitsAreNumeric(n.whole, n.fraction);
    }
  }

  lemma PartsAround(a: string, letter: char, t: string)
    ensures var s := a + ([letter] + t); |s| > |a| && s[..|a|] == a && s[|a| + 1..] == t
  {
  }

  lemma SplitAtExponent(a: string, letter: char, t: string)
    requires Numeric(a) && (letter == 'e' || letter == 'E')
    ensures ParseDecimal(a + ([letter] + t)) == WithExponent(a, ParseExponent(t))
  {
    ExponentFound(a, [letter] + t);
    PartsAround(a, letter, t);
  }

  lemma WithoutExponent(a: string, value: real)
    requires Numeric(a) && ParseMantissa(a, 0) == Some(value)
    ensures ParseDecimal(a) == Some(Finite(value))
  {
    ExponentFound(a, []);
    assert a + [] == a && a[..|a|] == a;
  }

  lemma DecimalReads(n: Numeral)
    requires IsNumeral(n)
    ensures ParseDecimal(NumeralText(n)) == Some(Finite(NumeralValue(n)))
  {
    var a, e := MantissaText(n), n.exponent;
    MantissaNumeric(n);
    MantissaReads(n);
    if e.Exponent? {
      ExponentReads(e);
      SplitAtExponent(a, e.letter, e.sign + e.digits);
    } else {
      WithoutExponent(a, NumeralValue(n));
      assert a + [] == a;
    }
  }

  lemma NumeralHead(n: Numeral)
    requires IsNumeral(n)
    ensures NumeralText(n) != [] && (NumeralText(n)[0] == '.' || IsDigit(NumeralText(n)[0]))
  {
    MantissaNumeric(n);
    assert NumeralText(n)[0] == MantissaText(n)[0];
  }

  lemma NoWord(s: string)
    requires s != [] && (s[0] == '.' || IsDigit(s[0]))
    ensures ParseUnsigned(s) == ParseDecimal(s)
  {
    assert !SameLetter(s[0], 'i') && !SameLetter(s[0], 'n');
  }

  lemma UnsignedReads(n: Numeral)
    requires IsNumeral(n)
    ensures var s := NumeralText(n); s != [] && s[0] != '-' && s[0] != '+'
    ensures ParseUnsigned(NumeralText(n)) == Some(Finite(NumeralValue(n)))
  {
    NumeralHead(n);
    DecimalReads(n);
    NoWord(NumeralText(n));
  }

  /** Every numeral reads as its value: with or without sign, point and exponent, in either case of the letter. */
  lemma NumeralReads(n: Numeral, s: string, value: real)
    requires IsNumeral(n) && s == NumeralText(n) && value == NumeralValue(n)
    ensures ParseNumber(s) == ParseNumber("+" + s) == Some(Finite(value))
    ensures ParseNumber("-" + s) == Some(Negated(Finite(value)))
  {
    UnsignedReads(n);
    SignsRead(s, ParseUnsigned);
  }

  // ----- and nothing else is a number

  lemma DigitsOfParts(a: string, b: string)
    requires AllDigits(a + b)
    ensures AllDigits(a) && AllDigits(b)
  {
    assert forall i :: 0 <= i < |a| ==> (a + b)[i] == a[i];
    assert forall i :: 0 <= i < |b| ==> (a + b)[|a| + i] == b[i];
  }

  /** A mantissa: digits with a point or without. */
  datatype Mantissa = Mantissa(whole: string, point: bool, fraction: string)

  predicate Writes(m: Mantissa, s: string) {
    && AllDigits(m.whole) && AllDigits(m.fraction) && m.whole + m.fraction != []
    && (if m.point then s == m.whole + "." + m.fraction else m.fraction == [] && s == m.whole)
  }

  lemma MantissaIsWritten(s: string, exponent: int) returns (m: Mantissa)
    requires ParseMantissa(s, exponent).Some?
    ensures Writes(m, s)
  {
    var i := IndexOf(s, '.');
    m := Mantissa(s[..i], i < |s|, if i < |s| then s[i + 1..] else []);
    DigitsOfParts(m.whole, m.fraction);
    assert i < |s| ==> s == m.whole + "." + m.fraction;
    assert i == |s| ==> s == m.whole;
  }

  lemma ExponentIsWritten(letter: char, s: string) returns (e: Exponent)
    requires SameLetter(letter, 'e') && ParseExponent(s).Some?
    ensures e.Exponent? && IsExponent(e) && ExponentText(e) == [letter] + s
  {
    if s[0] == '-' || s[0] == '+' {
      e := Exponent(letter, s[..1], s[1..]);
      assert s[..1] == [s[0]] && s == s[..1] + s[1..];
    } else {
      e := Exponent(letter, "", s);
      assert "" + s == s;
    }
  }

  lemma MantissaPart(s: string, i: nat) returns (m: Mantissa)
    requires ParseDecimal(s).Some? && i == ExponentAt(s)
    ensures Writes(m, s[..i])
  {
    var k := if i < |s| then ParseExponent(s[i + 1..]).value else 0;
    m := MantissaIsWritten(s[..i], k);
  }

  lemma ExponentParses(s: string, i: nat)
    requires ParseDecimal(s).Some? && i == ExponentAt(s) < |s|
    ensures SameLetter(s[i], 'e') && ParseExponent(s[i + 1..]).Some?
  {
  }

  lemma ExponentPart(s: string, i: nat) returns (e: Exponent)
    requires i <= |s| && (i < |s| ==> SameLetter(s[i], 'e') && ParseExponent(s[i + 1..]).Some?)
    ensures IsExponent(e) && ExponentText(e) == s[i..]
  {
    if i < |s| {
      e := ExponentIsWritten(s[i], s[i + 1..]);
      assert s[i..] == [s[i]] + s[i + 1..];
    } else {
      e := NoExponent;
    }
  }

  lemma Assemble(s: string, i: nat, m: Mantissa, e: Exponent) returns (n: Numeral)
    requires i <= |s| && Writes(m, s[..i]) && IsExponent(e) && ExponentText(e) == s[i..]
    ensures IsNumeral(n) && s == NumeralText(n)
  {
    n := Numeral(m.whole, m.point, m.fraction, e);
    assert MantissaText(n) == s[..i];
    assert s == s[..i] + s[i..];
  }

  lemma DecimalIsNumeral(s: string) returns (n: Numeral)
    requires ParseDecimal(s).Some?
    ensures IsNumeral(n) && s == NumeralText(n)
  {
    var i := ExponentAt(s);
    var m := MantissaPart(s, i);
    if i < |s| {
      ExponentParses(s, i);
    }
    var e := ExponentPart(s, i);
    n := Assemble(s, i, m, e);
  }

  predicate ReadsFinite(n: Option<Number>) {
    n.Some? && n.value.Finite?
  }

  lemma FiniteWasDecimal(body: string)
    requires ReadsFinite(ParseUnsigned(body))
    ensures ParseDecimal(body).Some?
  {
  }

  lemma SignTaken(s: string) returns (sign: string, body: string)
    requires ReadsFinite(ParseNumber(s))
    ensures s == sign + body && (sign == "" || sign == "+" || sign == "-")
    ensures ReadsFinite(ParseUnsigned(body))
  {
    if s != [] && (s[0] == '-' || s[0] == '+') {
      sign, body := s[..1], s[1..];
      assert s[..1] == [s[0]];
    } else {
      sign, body := "", s;
      assert "" + s == s;
    }
  }

  /** What reads as a finite number is a numeral, after a sign or none. */
  lemma FiniteIsNumeral(s: string) returns (sign: string, n: Numeral)
    requires ReadsFinite(ParseNumber(s))
    ensures sign == "" || sign == "+" || sign == "-"
    ensures IsNumeral(n) && s == sign + NumeralText(n)
  {
    var body;
    sign, body := SignTaken(s);
    FiniteWasDecimal(body);
    n := DecimalIsNumeral(body);
  }

  /** The word in any mixture of the two cases. */
  predicate Spells(s: string, lower: string, upper: string) {
    |s| == |lower| == |upper| && forall i :: 0 <= i < |s| ==> s[i] == lower[i] || s[i] == upper[i]
  }

  lemma SpellsIff(s: string, lower: string, upper: string)
    requires |lower| == |upper|
    requires forall i :: 0 <= i < |lower| ==> 'A' <= upper[i] <= 'Z' && upper[i] as int + 32 == lower[i] as int
    ensures SameWord(s, lower) <==> Spells(s, lower, upper)
  {
    if SameWord(s, lower) {
      forall i | 0 <= i < |s| ensures s[i] == lower[i] || s[i] == upper[i] {
        assert SameLetter(s[i], lower[i]);
      }
    }
    if Spells(s, lower, upper) {
      forall i | 0 <= i < |s| ensures SameLetter(s[i], lower[i]) {
      }
    }
  }

  lemma ParsedDecimalIsFinite(s: string)
    ensures ParseDecimal(s).Some? ==> ParseDecimal(s).value.Finite?
  {
  }

  /** The numbers that are not finite are the words inf, infinity and nan, in any case. */
  lemma WordsRead(s: string)
    ensures ParseUnsigned(s) == Some(Infinite(false)) <==> Spells(s, "inf", "INF") || Spells(s, "infinity", "INFINITY")
    ensures ParseUnsigned(s) == Some(Undefined) <==> Spells(s, "nan", "NAN")
  {
    SpellsIff(s, "inf", "INF");
    SpellsIff(s, "infinity", "INFINITY");
    SpellsIff(s, "nan", "NAN");
    ParsedDecimalIsFinite(s);
    if |s| == 3 {
      assert SameWord(s, "inf") ==> SameLetter(s[0], "inf"[0]);
      assert SameWord(s, "nan") ==> SameLetter(s[0], "nan"[0]);
    }
  }

  /** A sign turns the sign of an infinity, and nothing else that is not finite. */
  lemma SignedWordsRead(s: string)
    ensures Spells(s, "inf", "INF") || Spells(s, "infinity", "INFINITY")
            ==> ParseNumber(s) == ParseNumber("+" + s) == Some(Infinite(false))
                && ParseNumber("-" + s) == Some(Infinite(true))
    ensures Spells(s, "nan", "NAN")
            ==> ParseNumber(s) == ParseNumber("+" + s) == ParseNumber("-" + s) == Some(Undefined)
  {
    WordsRead(s);
    if s != [] && s[0] != '-' && s[0] != '+' {
      SignsRead(s, ParseUnsigned);
    }
  }

  // ----- words, lines and what follows the header

  /** White space separates words and is dropped; any other run of characters is a word. */
  lemma WordsAre(w: string, c: char, rest: string, white: char -> bool)
    requires IsWord(w, white) && white(c)
    ensures Words([], white) == [] && Words(w, white) == [w]
    ensures Words([c] + rest, white) == Words(rest, white)
    ensures Words(w + ([c] + rest), white) == [w] + Words(rest, white)
  {
    var s := w + ([c] + rest);
    assert ([c] + rest)[1..] == rest;
    WordsOne(w, white);
    WordEndIs(w, white, [c] + rest);
    assert s[0] == w[0] && s[..|w|] == w && s[|w|..] == [c] + rest;
  }

  lemma FourParts(x: string, y: string, z: string, more: string)
    ensures x + " " + (y + " " + z) + more == x + " " + (y + " " + (z + more))
  {
  }

  const ASCII_WHITE_SPACE: seq<int> := [0x20, 0x09, 0x0A, 0x0C, 0x0D]

  lemma AsciiWhiteIff(c: char)
    ensures AsciiWhite(c) <==> c as int in ASCII_WHITE_SPACE
  {
  }

  /** Only the first three columns count. */
  lemma ColumnsIgnored(v: Vertex, c: char, more: string)
    requires AsciiWhite(c)
    ensures ParseLine(VertexLine(v) + ([c] + more)) == [ReadingOf(v)]
  {
    var x, y, z := FormatFixed(v.x), FormatFixed(v.y), FormatFixed(v.z);
    FormatFixedShape(v.x);
    FormatFixedShape(v.y);
    FormatFixedShape(v.z);
    WordsAre(z, c, more, AsciiWhite);
    WordsCons(y, AsciiWhite, z + ([c] + more));
    WordsCons(x, AsciiWhite, y + " " + (z + ([c] + more)));
    FourParts(x, y, z, [c] + more);
    FixedRoundTrip(v.x);
    FixedRoundTrip(v.y);
    FixedRoundTrip(v.z);
  }

  lemma CrLine(line: string, rest: string)
    requires Without(line, '\n')
    ensures Lines(line + "\r\n" + rest) == [line] + Lines(rest)
  {
    var long := line + "\r";
    assert forall i :: 0 <= i < |line| ==> line[i] in line;
    IndexOfFirst(long, '\n', rest);
    var t := long + "\n" + rest;
    assert line + "\r\n" + rest == t && t[..|long|] == long && t[|long| + 1..] == rest;
    assert StripCr(long) == line;
  }

  lemma LfLine(line: string, rest: string)
    requires Without(line, '\n')
    ensures Lines(line + "\n" + rest) == [StripCr(line)] + Lines(rest)
  {
    assert forall i :: 0 <= i < |line| ==> line[i] in line;
    IndexOfFirst(line, '\n', rest);
    var s := line + "\n" + rest;
    assert s[..|line|] == line && s[|line| + 1..] == rest;
  }

  /** A line feed ends a line, together with a carriage return before it; a text without one is a single line. */
  lemma LinesAre(line: string, rest: string)
    requires Without(line, '\n')
    ensures Lines(line) == if line == [] then [] else [line]
    ensures !(line != [] && line[|line| - 1] == '\r') ==> Lines(line + "\n" + rest) == [line] + Lines(rest)
    ensures Lines(line + "\r\n" + rest) == [line] + Lines(rest)
  {
    assert forall i :: 0 <= i < |line| ==> line[i] in line;
    LfLine(line, rest);
    CrLine(line, rest);
  }

  function Newlines(n: nat): string {
    if n == 0 then [] else ['\n'] + Newlines(n - 1)
  }

  lemma {:induction false} NewlinesTrimmed(n: nat, s: string)
    requires s == [] || s[0] != '\n'
    ensures TrimNewlines(Newlines(n) + s) == s
  {
    if n == 0 {
      assert Newlines(0) + s == s;
    } else {
      assert (Newlines(n) + s)[1..] == Newlines(n - 1) + s;
      NewlinesTrimmed(n - 1, s);
    }
  }

  /** Any number of blank lines after the header is skipped. */
  lemma BlankLinesSkipped(vs: seq<Vertex>, n: nat, extra: string)
    requires 0 < |vs| < USIZE_LIMIT
    ensures ParsePly(HeaderWith(Decimal(|vs|)) + END + (Newlines(n) + (Body(vs) + extra))) == Some(ReadingsOf(vs))
  {
    var head := HeaderWith(Decimal(|vs|));
    HeaderShape(Decimal(|vs|));
    HeaderCount(|vs|);
    ParseParts(head, Newlines(n) + (Body(vs) + extra));
    BodyStarts(vs);
    assert (Body(vs) + extra)[0] == Body(vs)[0];
    NewlinesTrimmed(n, Body(vs) + extra);
    BodyLines(vs, extra);
  }

  lemma UsizeRead(digits: string)
    requires digits != [] && AllDigits(digits)
    ensures ParseUsize(digits) == ParseUsize("+" + digits)
         == if DigitsValue(digits) < 18_446_744_073_709_551_616 then Some(DigitsValue(digits)) else None
  {
    assert IsDigit(digits[0]);
    assert ("+" + digits)[1..] == digits;
  }

  lemma Regrouped(a: string, b: string, word: string, more: string)
    ensures (a + " " + b) + " " + word + (" " + more) == a + " " + (b + " " + (word + " " + more))
  {
  }

  lemma ThreeWordsAndMore(a: string, b: string, word: string, more: string, white: char -> bool)
    requires IsWord(a, white) && IsWord(b, white) && IsWord(word, white) && white(' ')
    ensures Words((a + " " + b) + " " + word + (" " + more), white) == [a] + ([b] + ([word] + Words(more, white)))
  {
    Regrouped(a, b, word, more);
    WordsCons(word, white, more);
    WordsCons(b, white, word + " " + more);
    WordsCons(a, white, b + " " + (word + " " + more));
  }

  lemma ThirdWord(word: string, more: string)
    requires IsWord(word, UnicodeWhite)
    ensures Words(ELEMENT + " " + word + (" " + more), UnicodeWhite)
         == [WORD1] + ([WORD2] + ([word] + Words(more, UnicodeWhite)))
  {
    HeaderWords("0");
    assert ELEMENT == WORD1 + " " + WORD2;
    ThreeWordsAndMore(WORD1, WORD2, word, more, UnicodeWhite);
  }

  lemma CountOfLine(line: string, word: string, more: string, rest: seq<string>)
    requires line == ELEMENT + " " + word + (" " + more) && IsWord(word, UnicodeWhite)
    ensures FirstWith([StripCr(line)] + rest, ELEMENT) == Some(StripCr(line))
    ensures |Words(StripCr(line), UnicodeWhite)| >= 3 && Words(StripCr(line), UnicodeWhite)[2] == word
  {
    var more' := StripCr(" " + more)[1..];
    assert ELEMENT <= StripCr(line);
    assert StripCr(line) == ELEMENT + " " + word + (" " + more');
    ThirdWord(word, more');
  }

  /** What the first element line announces: the number that is its third word, with a plus or without, whatever
      words follow; and none if no usize holds it. */
  lemma CountIs(digits: string, plus: bool, more: string, rest: string)
    requires digits != [] && AllDigits(digits) && Without(more, '\n')
    ensures var word := if plus then "+" + digits else digits;
            VertexCount(ELEMENT + " " + word + (" " + more) + "\n" + rest)
            == if DigitsValue(digits) < 18_446_744_073_709_551_616 then DigitsValue(digits) else 0
  {
    var word := if plus then "+" + digits else digits;
    var line := ELEMENT + " " + word + (" " + more);
    HeaderWords(digits);
    assert '\n' !in ELEMENT && '\n' !in digits && '\n' !in word && '\n' !in line;
    LfLine(line, rest);
    UsizeRead(digits);
    CountOfLine(line, word, more, Lines(rest));
  }

  /** Without an element line nothing is announced, and of several the first one counts. */
  lemma {:induction false} FirstWithIs(lines: seq<string>, prefix: string)
    ensures match FirstWith(lines, prefix)
            case None => forall i :: 0 <= i < |lines| ==> !(prefix <= lines[i])
            case Some(line) =>
              exists i :: 0 <= i < |lines| && lines[i] == line && prefix <= line
                          && forall k :: 0 <= k < i ==> !(prefix <= lines[k])
  {
    if lines != [] && !(prefix <= lines[0]) {
      var rest := lines[1..];
      FirstWithIs(rest, prefix);
      if FirstWith(rest, prefix).Some? {
        var i :| 0 <= i < |rest| && rest[i] == FirstWith(rest, prefix).value
                 && forall k :: 0 <= k < i ==> !(prefix <= rest[k]);
        assert lines[i + 1] == rest[i];
        assert forall k :: 0 <= k < i + 1 ==> !(prefix <= lines[k]);
      }
    }
  }

  // ----- what is written

  /** A coordinate has exactly six decimals, and a sign only below zero. */
  lemma SixDecimalsWritten(v: int)
    ensures var s := FormatFixed(v);
            && |s| >= 8 && s[|s| - 7] == '.' && AllDigits(s[|s| - 6..])
            && (s[0] == '-' <==> v < 0) && (v >= 0 ==> IsDigit(s[0]))
  {
    var a := Abs(v);
    var whole, fraction := Decimal(a / MICRO), Padded(a % MICRO, 6);
    var s := FormatFixed(v);
    assert s[|s| - 6..] == fraction;
    UnsignedHead(a);
  }

  function ColumnsLine(v: Vertex): string {
    FormatFixed(v.x) + " " + (FormatFixed(v.y) + " " + FormatFixed(v.z))
  }

  function ColumnsLines(vs: seq<Vertex>): (r: seq<string>)
    ensures |r| == |vs| && forall i :: 0 <= i < |vs| ==> r[i] == ColumnsLine(vs[i])
  {
    seq(|vs|, i requires 0 <= i < |vs| => ColumnsLine(vs[i]))
  }

  /** Lines, each ended by a line feed. */
  function LfText(lines: seq<string>): string {
    if lines == [] then [] else lines[0] + "\n" + LfText(lines[1..])
  }

  lemma LfCons(line: string, rest: seq<string>)
    ensures LfText([line] + rest) == line + "\n" + LfText(rest)
  {
    assert ([line] + rest)[1..] == rest;
  }

  lemma {:induction false} LfConcat(a: seq<string>, b: seq<string>)
    ensures LfText(a + b) == LfText(a) + LfText(b)
  {
    if a == [] {
      assert a + b == b;
    } else {
      assert a + b == [a[0]] + (a[1..] + b);
      LfCons(a[0], a[1..] + b);
      LfConcat(a[1..], b);
      Assoc(a[0] + "\n", LfText(a[1..]), LfText(b));
    }
  }

  lemma LfLast(lines: seq<string>, line: string)
    ensures LfText(lines + [line]) == LfText(lines) + (line + "\n")
  {
    LfConcat(lines, [line]);
    LfCons(line, []);
    assert [line] + [] == [line];
  }

  lemma SameLine(v: Vertex)
    ensures VertexLine(v) == ColumnsLine(v)
  {
  }

  lemma ColumnsLast(vs: seq<Vertex>, n: nat)
    requires |vs| == n + 1
    ensures ColumnsLines(vs) == ColumnsLines(vs[..n]) + [ColumnsLine(vs[n])]
  {
  }

  lemma BodyLineMore(body: string, lines: seq<string>, line: string, more: string)
    requires body == LfText(lines) && more == body + (line + "\n")
    ensures more == LfText(lines + [line])
  {
    LfLast(lines, line);
  }

  lemma {:induction false} BodyIsLines(vs: seq<Vertex>)
    ensures Body(vs) == LfText(ColumnsLines(vs))
  {
    if vs != [] {
      var n := |vs| - 1;
      BodyIsLines(vs[..n]);
      BodyStep(vs, n);
      assert vs[..n + 1] == vs;
      SameLine(vs[n]);
      ColumnsLast(vs, n);
      BodyLineMore(Body(vs[..n]), ColumnsLines(vs[..n]), ColumnsLine(vs[n]), Body(vs));
    }
  }

  lemma PropertiesAreLines()
    ensures PROPERTIES == LfText(["property float x", "property float y", "property float z"])
  {
    var x, y, z := "property float x", "property float y", "property float z";
    LfCons(z, []);
    LfCons(y, [z]);
    LfCons(x, [y, z]);
    assert [z] + [] == [z] && [y] + [z] == [y, z] && [x] + [y, z] == [x, y, z];
    assert x + "\n" == "property float x\n" && y + "\n" == "property float y\n" && z + "\n" == "property float z\n";
  }

  lemma HeadIsLines(a: string, b: string, c: string, rest: seq<string>)
    ensures LfText([a, b, c] + rest) == a + "\n" + (b + "\n" + (c + "\n" + LfText(rest)))
  {
    LfCons(c, rest);
    LfCons(b, [c] + rest);
    LfCons(a, [b] + ([c] + rest));
    assert [a, b, c] + rest == [a] + ([b] + ([c] + rest));
  }

  /** The lines of a file: the magic word, the format, the count, the properties, the end of the header, and one line
      for each vertex with its three coordinates in this order. */
  function FileLines(vs: seq<Vertex>): seq<string> {
    ["ply", "format ascii 1.0", "element vertex " + Decimal(|vs|)]
    + (["property float x", "property float y", "property float z"] + (["end_header"] + ColumnsLines(vs)))
  }

  lemma TextJoined(a: string, b: string, c: string, props: string, end: string, body: string)
    ensures a + "\n" + (b + "\n" + (c + "\n" + props)) + end + ("\n" + body)
         == a + "\n" + (b + "\n" + (c + "\n" + (props + (end + "\n" + body))))
  {
  }

  lemma FileJoined(a: string, b: string, c: string, props: seq<string>, end: string, lines: seq<string>)
    ensures LfText([a, b, c] + (props + ([end] + lines)))
         == a + "\n" + (b + "\n" + (c + "\n" + LfText(props))) + end + ("\n" + LfText(lines))
  {
    LfCons(end, lines);
    LfConcat(props, [end] + lines);
    HeadIsLines(a, b, c, props + ([end] + lines));
    TextJoined(a, b, c, LfText(props), end, LfText(lines));
  }

  /** The whole text that is written. */
  lemma WrittenText(vs: seq<Vertex>)
    ensures WritePly(vs) == LfText(FileLines(vs))
  {
    BodyIsLines(vs);
    PropertiesAreLines();
    assert ELEMENT + " " == "element vertex ";
    FileJoined("ply", "format ascii 1.0", "element vertex " + Decimal(|vs|),
               ["property float x", "property float y", "property float z"], "end_header", ColumnsLines(vs));
  }

  // ----- carriage returns

  const CRLF: string := "\r\n"
  const CR_PROPERTIES: string := "property float x\r\n" + "property float y\r\n" + "property float z\r\n"

  function CrHeader(digits: string): string {
    MAGIC + CRLF + (FORMAT + CRLF + (ELEMENT + " " + digits + CRLF + CR_PROPERTIES))
  }

  function CrText(lines: seq<string>): string {
    if lines == [] then [] else lines[0] + "\r\n" + CrText(lines[1..])
  }

  lemma {:induction false} CrTextLines(lines: seq<string>)
    requires forall i :: 0 <= i < |lines| ==> Without(lines[i], '\n')
    ensures Lines(CrText(lines)) == lines
  {
    if lines != [] {
      CrLine(lines[0], CrText(lines[1..]));
      CrTextLines(lines[1..]);
    }
  }

  function VertexLines(vs: seq<Vertex>): (r: seq<string>)
    ensures |r| == |vs| && forall i :: 0 <= i < |vs| ==> r[i] == VertexLine(vs[i])
  {
    seq(|vs|, i requires 0 <= i < |vs| => VertexLine(vs[i]))
  }

  function CrBody(vs: seq<Vertex>): string {
    CrText(VertexLines(vs))
  }

  /** The file of these vertices as a system writes it that ends its lines with two characters. */
  function CrFile(vs: seq<Vertex>): string {
    CrHeader(Decimal(|vs|)) + END + (CRLF + CrBody(vs))
  }

  lemma CrBodyLines(vs: seq<Vertex>)
    ensures Lines(CrBody(vs)) == VertexLines(vs)
  {
    forall i | 0 <= i < |vs| ensures Without(VertexLines(vs)[i], '\n') {
      VertexLineShape(vs[i]);
    }
    CrTextLines(VertexLines(vs));
  }

  lemma EmptyLine()
    ensures ParseLines([""]) == []
  {
    assert [] + [""] == [""];
    ParseLinesAppend([], "");
  }

  lemma LastLine(vs: seq<Vertex>)
    requires vs != []
    ensures var n := |vs| - 1; [""] + VertexLines(vs) == ([""] + VertexLines(vs[..n])) + [VertexLine(vs[n])]
  {
    assert VertexLines(vs) == VertexLines(vs[..|vs| - 1]) + [VertexLine(vs[|vs| - 1])];
  }

  lemma {:induction false} VertexLinesParse(vs: seq<Vertex>)
    ensures ParseLines([""] + VertexLines(vs)) == ReadingsOf(vs)
  {
    if vs == [] {
      assert [""] + VertexLines(vs) == [""];
      EmptyLine();
    } else {
      var n := |vs| - 1;
      VertexLinesParse(vs[..n]);
      LastLine(vs);
      ParseLinesAppend([""] + VertexLines(vs[..n]), VertexLine(vs[n]));
      VertexLineParses(vs[n]);
      ReadingsLast(vs);
    }
  }

  lemma ThreeCrLines(a: string, b: string, c: string, rest: string)
    requires Without(a, '\n') && Without(b, '\n') && Without(c, '\n')
    ensures Lines(a + CRLF + (b + CRLF + (c + CRLF + rest))) == [a] + ([b] + ([c] + Lines(rest)))
  {
    CrLine(c, rest);
    CrLine(b, c + CRLF + rest);
    CrLine(a, b + CRLF + (c + CRLF + rest));
  }

  lemma CrHeaderCount(count: nat)
    requires count < USIZE_LIMIT
    ensures VertexCount(CrHeader(Decimal(count))) == count
  {
    var line := ELEMENT + " " + Decimal(count);
    ElementLine(Decimal(count));
    assert ELEMENT[0] != FORMAT[0] && |ELEMENT| > |MAGIC|;
    ThreeCrLines(MAGIC, FORMAT, line, CR_PROPERTIES);
    ThirdIsFirst(MAGIC, FORMAT, line, Lines(CR_PROPERTIES), ELEMENT);
    UsizeRoundTrip(count);
  }

  lemma CrHeaderShape(digits: string)
    requires AllDigits(digits)
    ensures Without(CrHeader(digits), '_')
  {
    assert '_' !in digits;
    assert '_' !in "property float x\r\n" && '_' !in "property float y\r\n" && '_' !in "property float z\r\n";
    assert '_' !in CR_PROPERTIES && '_' !in ELEMENT && '_' !in FORMAT && '_' !in MAGIC && '_' !in CRLF;
    var line := ELEMENT + " " + digits + CRLF + CR_PROPERTIES;
    assert '_' !in line;
    assert '_' !in FORMAT + CRLF + line;
  }

  /** After the end marker comes the rest of its line, empty but not trimmed, and then the vertices' lines. */
  lemma CrData(vs: seq<Vertex>)
    ensures TrimNewlines(CRLF + CrBody(vs)) == CRLF + CrBody(vs)
    ensures Lines(CRLF + CrBody(vs)) == [""] + VertexLines(vs)
  {
    CrLine("", CrBody(vs));
    assert "" + "\r\n" + CrBody(vs) == CRLF + CrBody(vs);
    CrBodyLines(vs);
  }

  lemma AllButLast(vs: seq<Vertex>)
    requires vs != []
    ensures Take([""] + VertexLines(vs), |vs|) == [""] + VertexLines(vs[..|vs| - 1])
  {
  }

  /** Such a file is accepted, and its last vertex is lost: the rest of the header's last line is not trimmed, and is
      counted as the first of the announced lines. */
  lemma CarriageReturnsLoseOne(vs: seq<Vertex>)
    requires 0 < |vs| < USIZE_LIMIT
    ensures ParsePly(CrFile(vs)) == Some(ReadingsOf(vs[..|vs| - 1]))
  {
    CrHeaderShape(Decimal(|vs|));
    CrHeaderCount(|vs|);
    ParseParts(CrHeader(Decimal(|vs|)), CRLF + CrBody(vs));
    CrData(vs);
    AllButLast(vs);
    VertexLinesParse(vs[..|vs| - 1]);
  }
}

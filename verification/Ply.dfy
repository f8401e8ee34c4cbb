/** sovereign-pipeline/src/merge.rs: ASCII PLY text, on coordinates counted in millionths. */
module Ply {
  import opened Text
  import opened Wrappers

  /** A vertex on the grid that six decimals can write, in units of 10^-6. */
  datatype Vertex = Vertex(x: int, y: int, z: int)

  /** What a text can read as: an f64 without its rounding. */
  datatype Number = Finite(value: real) | Infinite(negative: bool) | Undefined

  datatype Reading = Reading(x: Number, y: Number, z: Number)

  // ----- the standard library's string operations

  /** Position of the first c, or the length. */
  function IndexOf(s: string, c: char): (i: nat)
    ensures i <= |s|
    ensures i < |s| ==> s[i] == c
    ensures forall k :: 0 <= k < i ==> s[k] != c
  {
    if s == [] || s[0] == c then 0 else 1 + IndexOf(s[1..], c)
  }

  /** str::find on a non-empty pattern, from position i. */
  function FindFrom(s: string, pattern: string, i: nat): (r: Option<nat>)
    requires i <= |s|
    ensures r.Some? ==> i <= r.value && r.value + |pattern| <= |s|
    decreases |s| - i
  {
    if i + |pattern| > |s| then None
    else if s[i..i + |pattern|] == pattern then Some(i)
    else if i == |s| then None
    else FindFrom(s, pattern, i + 1)
  }

  predicate StandsAt(s: string, pattern: string, i: int) {
    0 <= i && i + |pattern| <= |s| && s[i..i + |pattern|] == pattern
  }

  /** The pattern stands somewhere in s. */
  ghost predicate Occurs(s: string, pattern: string) {
    exists i :: StandsAt(s, pattern, i)
  }

  lemma {:induction false} FindFromIff(s: string, pattern: string, i: nat)
    requires i <= |s|
    ensures match FindFrom(s, pattern, i)
            case None => forall k :: i <= k ==> !StandsAt(s, pattern, k)
            case Some(at) => StandsAt(s, pattern, at) && forall k :: i <= k < at ==> !StandsAt(s, pattern, k)
    decreases |s| - i
  {
    if i + |pattern| <= |s| && !StandsAt(s, pattern, i) && i < |s| {
      FindFromIff(s, pattern, i + 1);
    }
  }

  /** The first place where the pattern stands, if there is one. */
  lemma FindIff(s: string, pattern: string)
    ensures FindFrom(s, pattern, 0).Some? <==> Occurs(s, pattern)
    ensures FindFrom(s, pattern, 0).Some?
            ==> var at := FindFrom(s, pattern, 0).value;
                StandsAt(s, pattern, at) && forall k :: 0 <= k < at ==> !StandsAt(s, pattern, k)
  {
    FindFromIff(s, pattern, 0);
  }

  function StripCr(line: string): string {
    if line != [] && line[|line| - 1] == '\r' then line[..|line| - 1] else line
  }

  /** str::lines */
  function Lines(s: string): seq<string>
    decreases |s|
  {
    if s == [] then []
    else
      var i := IndexOf(s, '\n');
      if i == |s| then [s] else [StripCr(s[..i])] + Lines(s[i + 1..])
  }

  /** Length of the leading run of characters that are not white space. */
  function WordEnd(s: string, white: char -> bool): (i: nat)
    ensures i <= |s|
    ensures forall k :: 0 <= k < i ==> !white(s[k])
    ensures i < |s| ==> white(s[i])
  {
    if s == [] || white(s[0]) then 0 else 1 + WordEnd(s[1..], white)
  }

  /** str::split_whitespace and split_ascii_whitespace */
  function Words(s: string, white: char -> bool): seq<string>
    decreases |s|
  {
    if s == [] then []
    else if white(s[0]) then Words(s[1..], white)
    else [s[..WordEnd(s, white)]] + Words(s[WordEnd(s, white)..], white)
  }

  predicate AsciiWhite(c: char) {
    c == ' ' || c == '\t' || c == '\n' || c as int == 0x0C || c == '\r'
  }

  function TrimNewlines(s: string): string {
    if s != [] && s[0] == '\n' then TrimNewlines(s[1..]) else s
  }

  // ----- numbers

  const USIZE_LIMIT: nat := 0x1_0000_0000_0000_0000
  const MICRO: nat := 1_000_000

  /** str::parse::<usize> */
  function ParseUsize(s: string): Option<nat> {
    var digits := if s != [] && s[0] == '+' then s[1..] else s;
    if digits == [] || !AllDigits(digits) || DigitsValue(digits) >= USIZE_LIMIT then None
    else Some(DigitsValue(digits))
  }

  function Pow10(k: nat): (p: nat)
    ensures p > 0
  {
    if k == 0 then 1 else 10 * Pow10(k - 1)
  }

  /** n with exactly `width` digits. */
  function Padded(n: nat, width: nat): (s: string)
    ensures |s| == width && AllDigits(s)
  {
    if width == 0 then [] else Padded(n / 10, width - 1) + [DigitChar(n % 10)]
  }

  function FormatUnsigned(n: nat): string {
    Decimal(n / MICRO) + "." + Padded(n % MICRO, 6)
  }

  function Signed(negative: bool, digits: string): string {
    if negative then "-" + digits else digits
  }

  function Abs(v: int): nat {
    if v < 0 then -v else v
  }

  /** A coordinate as "{:.6}" writes it. */
  function FormatFixed(v: int): string {
    Signed(v < 0, FormatUnsigned(Abs(v)))
  }

  /** c is the letter d or its capital. */
  predicate SameLetter(c: char, d: char) {
    c == d || ('A' <= c <= 'Z' && c as int + 32 == d as int)
  }

  predicate SameWord(s: string, word: string) {
    |s| == |word| && forall i :: 0 <= i < |s| ==> SameLetter(s[i], word[i])
  }

  /** Position of the first e or E, or the length. */
  function ExponentAt(s: string): (i: nat)
    ensures i <= |s|
    ensures i < |s| ==> SameLetter(s[i], 'e')
  {
    if s == [] || SameLetter(s[0], 'e') then 0 else 1 + ExponentAt(s[1..])
  }

  /** Digits with an optional sign. */
  function ParseExponent(s: string): Option<int> {
    var digits := if s != [] && (s[0] == '-' || s[0] == '+') then s[1..] else s;
    if digits == [] || !AllDigits(digits) then None
    else if s[0] == '-' then Some(-(DigitsValue(digits) as int))
    else Some(DigitsValue(digits))
  }

  /** m times ten to the k. */
  function Scale(m: nat, k: int): real
    decreases if k < 0 then -k else k
  {
    if k == 0 then m as real else if k > 0 then 10.0 * Scale(m, k - 1) else Scale(m, k + 1) / 10.0
  }

  /** Digits with at most one point, and at least one digit. */
  function ParseMantissa(s: string, exponent: int): Option<real> {
    var i := IndexOf(s, '.');
    var whole, fraction := s[..i], if i < |s| then s[i + 1..] else [];
    if whole + fraction == [] || !AllDigits(whole + fraction) then None
    else Some(Scale(DigitsValue(whole + fraction), exponent - |fraction|))
  }

  function WithExponent(mantissa: string, exponent: Option<int>): Option<Number> {
    match exponent
    case None => None
    case Some(k) =>
      match ParseMantissa(mantissa, k)
      case None => None
      case Some(value) => Some(Finite(value))
  }

  function ParseDecimal(s: string): Option<Number> {
    var i := ExponentAt(s);
    WithExponent(s[..i], if i < |s| then ParseExponent(s[i + 1..]) else Some(0))
  }

  function ParseUnsigned(s: string): Option<Number> {
    if SameWord(s, "inf") || SameWord(s, "infinity") then Some(Infinite(false))
    else if SameWord(s, "nan") then Some(Undefined)
    else ParseDecimal(s)
  }

  function Negated(n: Number): Number {
    match n
    case Finite(value) => Finite(-value)
    case Infinite(negative) => Infinite(!negative)
    case Undefined => Undefined
  }

  /** A sign or none in front of what parse reads. */
  function WithSign(s: string, parse: string -> Option<Number>): Option<Number> {
    if s != [] && s[0] == '+' then parse(s[1..])
    else if s != [] && s[0] == '-' then
      match parse(s[1..])
      case None => None
      case Some(n) => Some(Negated(n))
    else parse(s)
  }

  /** str::parse::<f64> */
  function ParseNumber(s: string): Option<Number> {
    WithSign(s, ParseUnsigned)
  }

  // ----- writing

  const MAGIC: string := "ply"
  const FORMAT: string := "format ascii 1.0"
  const ELEMENT: string := "element vertex"
  const PROPERTIES: string := "property float x\n" + "property float y\n" + "property float z\n"
  const END: string := "end_header"

  function HeaderWith(digits: string): string {
    MAGIC + "\n" + (FORMAT + "\n" + (ELEMENT + " " + digits + "\n" + PROPERTIES))
  }

  function Header(count: nat): string {
    HeaderWith(Decimal(count))
  }

  function VertexLine(v: Vertex): string {
    FormatFixed(v.x) + " " + (FormatFixed(v.y) + " " + FormatFixed(v.z))
  }

  function Body(vs: seq<Vertex>): string {
    if vs == [] then [] else Body(vs[..|vs| - 1]) + (VertexLine(vs[|vs| - 1]) + "\n")
  }

  function WritePly(vs: seq<Vertex>): string {
    Header(|vs|) + END + ("\n" + Body(vs))
  }

  lemma Assoc(a: string, b: string, c: string)
    ensures (a + b) + c == a + (b + c)
  {
  }

  lemma BodyStep(vs: seq<Vertex>, i: nat)
    requires i < |vs|
    ensures Body(vs[..i + 1]) == Body(vs[..i]) + (VertexLine(vs[i]) + "\n")
  {
    assert vs[..i + 1][..i] == vs[..i];
  }

  method WritePlyText(vs: seq<Vertex>) returns (out: string)
    ensures out == WritePly(vs)
  {
    ghost var head := Header(|vs|) + END + "\n";
    out := Header(|vs|) + END + "\n";
    for i := 0 to |vs|
      invariant out == head + Body(vs[..i])
    {
      var line := FormatFixed(vs[i].x) + " " + (FormatFixed(vs[i].y) + " " + FormatFixed(vs[i].z));
      out := out + (line + "\n");
      BodyStep(vs, i);
      Assoc(head, Body(vs[..i]), line + "\n");
    }
    assert vs[..|vs|] == vs;
    Assoc(Header(|vs|) + END, "\n", Body(vs));
  }

  // ----- parsing

  function FirstWith(lines: seq<string>, prefix: string): Option<string> {
    if lines == [] then None else if prefix <= lines[0] then Some(lines[0]) else FirstWith(lines[1..], prefix)
  }

  /** The vertex count the header announces, or 0. */
  function VertexCount(header: string): nat {
    match FirstWith(Lines(header), ELEMENT)
    case None => 0
    case Some(line) =>
      var words := Words(line, UnicodeWhite);
      if |words| < 3 then 0 else
      match ParseUsize(words[2])
      case None => 0
      case Some(n) => n
  }

  function ParseLine(line: string): seq<Reading> {
    var cols := Words(line, AsciiWhite);
    if |cols| < 3 then []
    else
      var x, y, z := ParseNumber(cols[0]), ParseNumber(cols[1]), ParseNumber(cols[2]);
      if x.Some? && y.Some? && z.Some? then [Reading(x.value, y.value, z.value)] else []
  }

  /** The points on the lines; a line that does not parse is skipped. */
  function ParseLines(lines: seq<string>): seq<Reading> {
    if lines == [] then [] else ParseLines(lines[..|lines| - 1]) + ParseLine(lines[|lines| - 1])
  }

  function Take(lines: seq<string>, n: nat): seq<string> {
    if n <= |lines| then lines[..n] else lines
  }

  /** None is the error "missing end_header". */
  function ParsePly(text: string): Option<seq<Reading>> {
    match FindFrom(text, END, 0)
    case None => None
    case Some(at) =>
      var data := TrimNewlines(text[at + |END|..]);
      Some(ParseLines(Take(Lines(data), VertexCount(text[..at]))))
  }

  /** The point of a line that has three numbers, if it does. */
  method ParsePoint(line: string) returns (point: Option<Reading>)
    ensures ParseLine(line) == if point.Some? then [point.value] else []
  {
    point := None;
    var cols := Words(line, AsciiWhite);
    if |cols| >= 3 {
      var x, y, z := ParseNumber(cols[0]), ParseNumber(cols[1]), ParseNumber(cols[2]);
      if x.Some? && y.Some? && z.Some? {
        point := Some(Reading(x.value, y.value, z.value));
      }
    }
  }

  method ParseEach(lines: seq<string>) returns (pts: seq<Reading>)
    ensures pts == ParseLines(lines)
  {
    pts := [];
    for i := 0 to |lines|
      invariant pts == ParseLines(lines[..i])
    {
      assert lines[..i + 1][..i] == lines[..i];
      var point := ParsePoint(lines[i]);
      if point.Some? {
        pts := pts + [point.value];
      }
    }
    assert lines[..|lines|] == lines;
  }

  method ParsePlyPoints(text: string) returns (r: Option<seq<Reading>>)
    ensures r == ParsePly(text)
  {
    var end := FindFrom(text, END, 0);
    if end.None? {
      return None;
    }
    var count := VertexCount(text[..end.value]);
    var pts := ParseEach(Take(Lines(TrimNewlines(text[end.value + |END|..])), count));
    r := Some(pts);
  }

  // ----- numbers read back

  lemma {:induction false} PaddedValue(n: nat, width: nat)
    requires n < Pow10(width)
    ensures DigitsValue(Padded(n, width)) == n
  {
    if width > 0 {
      PaddedValue(n / 10, width - 1);
      DigitsValueAppend(Padded(n / 10, width - 1), DigitChar(n % 10));
    }
  }

  lemma NoDotInDigits(s: string)
    requires AllDigits(s)
    ensures forall i :: 0 <= i < |s| ==> s[i] != '.' && s[i] != '-' && s[i] != '+'
  {
  }

  lemma {:induction false} IndexOfFirst(a: string, c: char, b: string)
    requires forall i :: 0 <= i < |a| ==> a[i] != c
    ensures IndexOf(a + [c] + b, c) == |a|
  {
    var s := a + [c] + b;
    assert s[|a|] == c;
    assert forall i :: 0 <= i < |a| ==> s[i] == a[i];
  }

  function Unsigned(n: nat): Number {
    Finite(n as real / MICRO as real)
  }

  lemma SixDecimals(n: nat)
    requires n < MICRO
    ensures DigitsValue(Padded(n, 6)) == n
  {
    assert Pow10(3) == 1_000 && Pow10(6) == MICRO;
    PaddedValue(n, 6);
  }

  lemma PartsValue(n: nat)
    ensures n == DigitsValue(Decimal(n / MICRO)) * MICRO + DigitsValue(Padded(n % MICRO, 6))
  {
    SixDecimals(n % MICRO);
    DecimalValue(n / MICRO);
  }

  lemma SixScale(n: nat)
    ensures Scale(n, -6) == n as real / MICRO as real
  {
    assert Scale(n, -2) == n as real / 100.0;
    assert Scale(n, -4) == n as real / 10_000.0;
  }

  /** q with w zeros behind it. */
  function WithZeros(q: nat, w: nat): nat {
    if w == 0 then q else 10 * WithZeros(q, w - 1)
  }

  lemma OneDigitMore(a: string, b: string, c: char)
    requires AllDigits(a) && AllDigits(b) && IsDigit(c)
    requires DigitsValue(a + b) == WithZeros(DigitsValue(a), |b|) + DigitsValue(b)
    ensures DigitsValue(a + b + [c]) == WithZeros(DigitsValue(a), |b| + 1) + DigitsValue(b + [c])
  {
    DigitsValueAppend(a + b, c);
    DigitsValueAppend(b, c);
  }

  lemma {:induction false} DigitsJoined(a: string, b: string)
    requires AllDigits(a) && AllDigits(b)
    ensures AllDigits(a + b) && DigitsValue(a + b) == WithZeros(DigitsValue(a), |b|) + DigitsValue(b)
  {
    if b == [] {
      assert a + b == a;
    } else {
      var front, last := b[..|b| - 1], b[|b| - 1];
      DigitsJoined(a, front);
      OneDigitMore(a, front, last);
      assert b == front + [last] && a + b == a + front + [last];
    }
  }

  lemma SixMore(whole: string, fraction: string)
    requires AllDigits(whole) && AllDigits(fraction) && |fraction| == 6
    ensures AllDigits(whole + fraction)
    ensures DigitsValue(whole + fraction) == DigitsValue(whole) * MICRO + DigitsValue(fraction)
  {
    DigitsJoined(whole, fraction);
    var q := DigitsValue(whole);
    assert WithZeros(q, 1) == 10 * q;
    assert WithZeros(q, 2) == 100 * q;
    assert WithZeros(q, 3) == 1_000 * q;
    assert WithZeros(q, 4) == 10_000 * q;
    assert WithZeros(q, 5) == 100_000 * q;
  }

  lemma SixPlaces(whole: string, fraction: string, n: nat)
    requires AllDigits(whole) && AllDigits(fraction) && |fraction| == 6
    requires n == DigitsValue(whole) * MICRO + DigitsValue(fraction)
    ensures AllDigits(whole + fraction)
    ensures Scale(DigitsValue(whole + fraction), -6) == n as real / MICRO as real
  {
    SixMore(whole, fraction);
    SixScale(n);
  }

  lemma AroundPoint(whole: string, fraction: string)
    requires AllDigits(whole)
    ensures var s, i := whole + "." + fraction, |whole|;
            IndexOf(s, '.') == i && s[..i] == whole && s[i + 1..] == fraction
  {
    NoDotInDigits(whole);
    IndexOfFirst(whole, '.', fraction);
  }

  lemma MantissaSplit(whole: string, fraction: string, n: nat)
    requires whole != [] && AllDigits(whole) && AllDigits(fraction) && |fraction| == 6
    requires n == DigitsValue(whole) * MICRO + DigitsValue(fraction)
    ensures ParseMantissa(whole + "." + fraction, 0) == Some(n as real / MICRO as real)
  {
    AroundPoint(whole, fraction);
    SixPlaces(whole, fraction, n);
  }

  /** Digits and a point: no word, no exponent. */
  predicate Numeric(s: string) {
    forall i :: 0 <= i < |s| ==> s[i] == '.' || IsDigit(s[i])
  }

  lemma DigitsAreNumeric(whole: string, fraction: string)
    requires AllDigits(whole) && AllDigits(fraction)
    ensures Numeric(whole + "." + fraction)
  {
    var s := whole + "." + fraction;
    assert forall i :: 0 <= i < |whole| ==> s[i] == whole[i];
    assert s[|whole|] == '.';
    assert forall i :: |whole| < i < |s| ==> s[i] == fraction[i - |whole| - 1];
  }

  lemma NumericIsDecimal(s: string, value: Option<real>)
    requires s != [] && Numeric(s) && ParseMantissa(s, 0) == value
    ensures ParseUnsigned(s) == match value case None => None case Some(v) => Some(Finite(v))
  {
    assert ExponentAt(s) == |s|;
    assert s[..|s|] == s;
    assert !SameLetter(s[0], 'i') && !SameLetter(s[0], 'n');
  }

  lemma UnsignedRoundTrip(n: nat)
    ensures ParseUnsigned(FormatUnsigned(n)) == Some(Unsigned(n))
  {
    var whole, fraction := Decimal(n / MICRO), Padded(n % MICRO, 6);
    PartsValue(n);
    MantissaSplit(whole, fraction, n);
    DigitsAreNumeric(whole, fraction);
    NumericIsDecimal(whole + "." + fraction, Some(n as real / MICRO as real));
  }

  lemma UnsignedHead(n: nat)
    ensures FormatUnsigned(n) != [] && IsDigit(FormatUnsigned(n)[0])
  {
    assert FormatUnsigned(n)[0] == Decimal(n / MICRO)[0];
  }

  /** What a coordinate on the grid reads as. */
  function NumberOf(v: int): Number {
    Finite(v as real / MICRO as real)
  }

  lemma SignsRead(s: string, parse: string -> Option<Number>)
    requires s != [] && s[0] != '-' && s[0] != '+'
    ensures WithSign(s, parse) == WithSign("+" + s, parse) == parse(s)
    ensures WithSign("-" + s, parse) == match parse(s) case None => None case Some(n) => Some(Negated(n))
  {
    assert ("-" + s)[1..] == s && ("+" + s)[1..] == s;
  }

  lemma SignedValue(v: int)
    ensures NumberOf(v) == if v < 0 then Negated(Unsigned(Abs(v))) else Unsigned(Abs(v))
  {
  }

  lemma FixedRoundTrip(v: int)
    ensures ParseNumber(FormatFixed(v)) == Some(NumberOf(v))
  {
    UnsignedRoundTrip(Abs(v));
    UnsignedHead(Abs(v));
    SignsRead(FormatUnsigned(Abs(v)), ParseUnsigned);
    SignedValue(v);
  }

  lemma UsizeRoundTrip(n: nat)
    requires n < USIZE_LIMIT
    ensures ParseUsize(Decimal(n)) == Some(n)
  {
    DecimalValue(n);
    assert IsDigit(Decimal(n)[0]);
  }

  // ----- lines and words read back

  predicate Without(s: string, c: char) {
    c !in s
  }

  lemma LinesCons(line: string, rest: string)
    requires Without(line, '\n') && Without(line, '\r')
    ensures Lines(line + "\n" + rest) == [line] + Lines(rest)
  {
    assert forall i :: 0 <= i < |line| ==> line[i] in line;
    IndexOfFirst(line, '\n', rest);
    var s := line + "\n" + rest;
    assert s[..|line|] == line && s[|line| + 1..] == rest;
  }

  predicate IsWord(s: string, white: char -> bool) {
    s != [] && forall i :: 0 <= i < |s| ==> !white(s[i])
  }

  lemma WordEndIs(w: string, white: char -> bool, rest: string)
    requires IsWord(w, white) && (rest != [] ==> white(rest[0]))
    ensures WordEnd(w + rest, white) == |w|
  {
    var s := w + rest;
    assert forall i :: 0 <= i < |w| ==> s[i] == w[i];
    assert rest != [] ==> s[|w|] == rest[0];
  }

  lemma WordsCons(w: string, white: char -> bool, rest: string)
    requires IsWord(w, white) && white(' ')
    ensures Words(w + " " + rest, white) == [w] + Words(rest, white)
  {
    var s := w + " " + rest;
    assert s == w + (" " + rest) && (" " + rest)[0] == ' ';
    WordEndIs(w, white, " " + rest);
    assert s[0] == w[0] && s[..|w|] == w && s[|w|..] == " " + rest;
    assert (" " + rest)[1..] == rest;
  }

  lemma WordsOne(w: string, white: char -> bool)
    requires IsWord(w, white)
    ensures Words(w, white) == [w]
  {
    assert w + [] == w;
    WordEndIs(w, white, []);
    assert w[..|w|] == w && w[|w|..] == [];
  }

  predicate NumberText(s: string) {
    s != [] && forall i :: 0 <= i < |s| ==> s[i] == '-' || s[i] == '.' || IsDigit(s[i])
  }

  lemma NumberTextShape(s: string)
    requires NumberText(s)
    ensures IsWord(s, AsciiWhite) && Without(s, '\n') && Without(s, '\r') && NumberText("-" + s)
  {
  }

  /** A coordinate is one word without line breaks. */
  lemma FormatFixedShape(v: int)
    ensures IsWord(FormatFixed(v), AsciiWhite)
    ensures Without(FormatFixed(v), '\n') && Without(FormatFixed(v), '\r')
  {
    DigitsAreNumeric(Decimal(Abs(v) / MICRO), Padded(Abs(v) % MICRO, 6));
    NumberTextShape(FormatUnsigned(Abs(v)));
    NumberTextShape("-" + FormatUnsigned(Abs(v)));
  }

  lemma ThreeWords(x: string, y: string, z: string, white: char -> bool)
    requires IsWord(x, white) && IsWord(y, white) && IsWord(z, white) && white(' ')
    ensures Words(x + " " + (y + " " + z), white) == [x, y, z]
  {
    WordsCons(x, white, y + " " + z);
    WordsCons(y, white, z);
    WordsOne(z, white);
  }

  lemma WithoutJoin(x: string, y: string, z: string, c: char)
    requires Without(x, c) && Without(y, c) && Without(z, c) && c != ' '
    ensures Without(x + " " + (y + " " + z), c)
  {
  }

  function ReadingOf(v: Vertex): Reading {
    Reading(NumberOf(v.x), NumberOf(v.y), NumberOf(v.z))
  }

  function ReadingsOf(vs: seq<Vertex>): (rs: seq<Reading>)
    ensures |rs| == |vs|
  {
    seq(|vs|, i requires 0 <= i < |vs| => ReadingOf(vs[i]))
  }

  lemma VertexLineParses(v: Vertex)
    ensures ParseLine(VertexLine(v)) == [ReadingOf(v)]
  {
    FormatFixedShape(v.x);
    FormatFixedShape(v.y);
    FormatFixedShape(v.z);
    ThreeWords(FormatFixed(v.x), FormatFixed(v.y), FormatFixed(v.z), AsciiWhite);
    FixedRoundTrip(v.x);
    FixedRoundTrip(v.y);
    FixedRoundTrip(v.z);
  }

  lemma VertexLineShape(v: Vertex)
    ensures Without(VertexLine(v), '\n') && Without(VertexLine(v), '\r')
    ensures VertexLine(v) != []
  {
    FormatFixedShape(v.x);
    FormatFixedShape(v.y);
    FormatFixedShape(v.z);
    WithoutJoin(FormatFixed(v.x), FormatFixed(v.y), FormatFixed(v.z), '\n');
    WithoutJoin(FormatFixed(v.x), FormatFixed(v.y), FormatFixed(v.z), '\r');
  }

  // ----- the whole file read back

  lemma ParseLinesAppend(ls: seq<string>, line: string)
    ensures ParseLines(ls + [line]) == ParseLines(ls) + ParseLine(line)
  {
    assert (ls + [line])[..|ls|] == ls;
  }

  /** One more vertex line in front of the rest of the text. */
  lemma NextLine(ls: seq<string>, n: nat, line: string, rest: seq<string>)
    requires n <= |ls| && ls[n..] == [line] + rest
    ensures n + 1 <= |ls| && ls[..n + 1] == ls[..n] + [line] && ls[n + 1..] == rest
  {
    assert |ls[n..]| == 1 + |rest|;
    assert ls[n] == ls[n..][0] == line;
    assert ls[n + 1..] == ls[n..][1..];
  }

  lemma ReadingsLast(vs: seq<Vertex>)
    requires vs != []
    ensures var n := |vs| - 1; ReadingsOf(vs) == ReadingsOf(vs[..n]) + [ReadingOf(vs[n])]
  {
  }

  /** One more vertex read off the lines. */
  lemma NextVertex(ls: seq<string>, n: nat, v: Vertex, rest: seq<string>)
    requires n <= |ls| && ls[n..] == [VertexLine(v)] + rest
    ensures n + 1 <= |ls| && ls[n + 1..] == rest
    ensures ParseLines(ls[..n + 1]) == ParseLines(ls[..n]) + [ReadingOf(v)]
  {
    NextLine(ls, n, VertexLine(v), rest);
    ParseLinesAppend(ls[..n], VertexLine(v));
    VertexLineParses(v);
  }

  /** The lines of the body are the vertices' lines, then those of whatever follows. */
  lemma {:induction false} BodyLines(vs: seq<Vertex>, extra: string)
    ensures |Lines(Body(vs) + extra)| >= |vs|
    ensures ParseLines(Lines(Body(vs) + extra)[..|vs|]) == ReadingsOf(vs)
    ensures Lines(Body(vs) + extra)[|vs|..] == Lines(extra)
  {
    if vs == [] {
      assert Body(vs) + extra == extra;
    } else {
      var front, last := vs[..|vs| - 1], vs[|vs| - 1];
      var line := VertexLine(last);
      Assoc(Body(front), line + "\n", extra);
      BodyLines(front, line + "\n" + extra);
      VertexLineShape(last);
      LinesCons(line, extra);
      NextVertex(Lines(Body(vs) + extra), |front|, last, Lines(extra));
      ReadingsLast(vs);
    }
  }

  lemma {:induction false} BodyStarts(vs: seq<Vertex>)
    requires vs != []
    ensures Body(vs) != [] && Body(vs)[0] != '\n'
  {
    if |vs| == 1 {
      VertexLineShape(vs[0]);
      assert vs[..0] == [];
    } else {
      BodyStarts(vs[..|vs| - 1]);
    }
  }

  lemma TrimBody(vs: seq<Vertex>, extra: string)
    requires vs != []
    ensures TrimNewlines("\n" + Body(vs) + extra) == Body(vs) + extra
  {
    var s := Body(vs) + extra;
    assert "\n" + Body(vs) + extra == "\n" + s && ("\n" + s)[1..] == s;
    BodyStarts(vs);
    assert s[0] == Body(vs)[0];
  }

  // ----- the header read back

  lemma {:induction false} FindEndFrom(head: string, rest: string, i: nat)
    requires Without(head, '_') && i <= |head|
    ensures FindFrom(head + END + rest, END, i) == Some(|head|)
    decreases |head| - i
  {
    var s := head + END + rest;
    if i == |head| {
      assert s[i..i + |END|] == END;
    } else {
      assert s[i + 3] == if i + 3 < |head| then head[i + 3] else END[i + 3 - |head|];
      assert END[0] == 'e' && END[1] == 'n' && END[2] == 'd' && END[3] == '_';
      assert s[i..i + |END|][3] == s[i + 3];
      FindEndFrom(head, rest, i + 1);
    }
  }

  /** No underscore comes before the first "end_header", so it is found where it was written. */
  lemma FindEnd(head: string, rest: string)
    requires Without(head, '_')
    ensures FindFrom(head + END + rest, END, 0) == Some(|head|)
  {
    FindEndFrom(head, rest, 0);
  }

  lemma HeaderShape(digits: string)
    requires AllDigits(digits)
    ensures Without(HeaderWith(digits), '_')
  {
    assert '_' !in digits;
    assert '_' !in "property float x\n" && '_' !in "property float y\n" && '_' !in "property float z\n";
    assert '_' !in PROPERTIES && '_' !in ELEMENT && '_' !in FORMAT && '_' !in MAGIC;
    var line := ELEMENT + " " + digits + "\n" + PROPERTIES;
    assert '_' !in line;
    assert '_' !in FORMAT + "\n" + line;
  }

  const WORD1: string := "element"
  const WORD2: string := "vertex"

  lemma HeaderWords(digits: string)
    requires digits != [] && AllDigits(digits)
    ensures IsWord(WORD1, UnicodeWhite) && IsWord(WORD2, UnicodeWhite) && IsWord(digits, UnicodeWhite)
  {
    assert forall i :: 0 <= i < |digits| ==> IsDigit(digits[i]);
  }

  lemma ElementLine(digits: string)
    requires digits != [] && AllDigits(digits)
    ensures var line := ELEMENT + " " + digits;
            && Without(line, '\n') && Without(line, '\r') && ELEMENT <= line
            && Words(line, UnicodeWhite) == [WORD1, WORD2, digits]
  {
    HeaderWords(digits);
    ThreeWords(WORD1, WORD2, digits, UnicodeWhite);
    assert ELEMENT == WORD1 + " " + WORD2;
    Assoc(WORD1 + " ", WORD2, " " + digits);
    assert '\n' !in digits && '\r' !in digits && '\n' !in ELEMENT && '\r' !in ELEMENT;
    assert ELEMENT + " " + digits == WORD1 + " " + (WORD2 + " " + digits);
  }

  lemma ThreeLines(a: string, b: string, c: string, rest: string)
    requires Without(a, '\n') && Without(a, '\r') && Without(b, '\n') && Without(b, '\r')
    requires Without(c, '\n') && Without(c, '\r')
    ensures Lines(a + "\n" + (b + "\n" + (c + "\n" + rest))) == [a] + ([b] + ([c] + Lines(rest)))
  {
    LinesCons(c, rest);
    LinesCons(b, c + "\n" + rest);
    LinesCons(a, b + "\n" + (c + "\n" + rest));
  }

  lemma ThirdIsFirst(a: string, b: string, c: string, rest: seq<string>, prefix: string)
    requires !(prefix <= a) && !(prefix <= b) && prefix <= c
    ensures FirstWith([a] + ([b] + ([c] + rest)), prefix) == Some(c)
  {
    var l1 := [c] + rest;
    var l2 := [b] + l1;
    assert ([a] + l2)[1..] == l2 && l2[1..] == l1;
    assert FirstWith(l1, prefix) == Some(c);
    assert FirstWith(l2, prefix) == FirstWith(l1, prefix);
  }

  /** The header announces the count it was written with. */
  lemma HeaderCount(count: nat)
    requires count < USIZE_LIMIT
    ensures VertexCount(HeaderWith(Decimal(count))) == count
  {
    var line := ELEMENT + " " + Decimal(count);
    ElementLine(Decimal(count));
    assert ELEMENT[0] != FORMAT[0] && |ELEMENT| > |MAGIC|;
    ThreeLines(MAGIC, FORMAT, line, PROPERTIES);
    ThirdIsFirst(MAGIC, FORMAT, line, Lines(PROPERTIES), ELEMENT);
    UsizeRoundTrip(count);
  }

  lemma ParseParts(head: string, rest: string)
    requires Without(head, '_')
    ensures ParsePly(head + END + rest)
         == Some(ParseLines(Take(Lines(TrimNewlines(rest)), VertexCount(head))))
  {
    FindEnd(head, rest);
    var text := head + END + rest;
    assert text[..|head|] == head && text[|head| + |END|..] == rest;
  }

  lemma BodyTaken(vs: seq<Vertex>, extra: string)
    ensures ParseLines(Take(Lines(TrimNewlines("\n" + Body(vs) + extra)), |vs|)) == ReadingsOf(vs)
  {
    if vs == [] {
      assert Take(Lines(TrimNewlines("\n" + Body(vs) + extra)), 0) == [];
    } else {
      TrimBody(vs, extra);
      BodyLines(vs, extra);
    }
  }

  /** Reading back a written file gives its vertices, signs included, for the empty list too; and
      the announced count makes the reader ignore whatever follows them. */
  lemma RoundTrip(vs: seq<Vertex>, extra: string)
    requires |vs| < USIZE_LIMIT
    ensures ParsePly(WritePly(vs) + extra) == Some(ReadingsOf(vs))
  {
    var head := HeaderWith(Decimal(|vs|));
    HeaderShape(Decimal(|vs|));
    Assoc(head + END, "\n" + Body(vs), extra);
    ParseParts(head, "\n" + Body(vs) + extra);
    HeaderCount(|vs|);
    BodyTaken(vs, extra);
  }
}

/** sovereign-pipeline/src/go2_driver.rs: the hand-written base64 decoder, against the encoding of
    section 4 of RFC 4648. */
module Base64 {
  import opened Wire
  import Text

  const UPPER: string := "ABCDEFGHIJKLMNOPQRSTUVWXYZ"
  const LOWER: string := "abcdefghijklmnopqrstuvwxyz"
  const ALPHABET: string := UPPER + LOWER + "0123456789+/"
  const PAD: Byte := 61

  // ----- the standard's encoder

  /** The 64 symbols by value: letters, digits, plus, slash. */
  function Symbol(v: nat): (b: Byte)
    requires v < 64
    ensures b < 128 && b != PAD && !Text.UnicodeWhite(b as char)
  {
    if v < 26 then (65 + v) as Byte
    else if v < 52 then (71 + v) as Byte
    else if v < 62 then (v - 4) as Byte
    else if v == 62 then 43
    else 47
  }

  predicate IsSymbol(b: Byte) {
    65 <= b <= 90 || 97 <= b <= 122 || 48 <= b <= 57 || b == 43 || b == 47
  }

  /** The value of a symbol, and 0 for any other byte. */
  function Value(b: Byte): (v: nat)
    ensures v < 64
    ensures IsSymbol(b) ==> Symbol(v) == b
  {
    if 65 <= b <= 90 then b as int - 65
    else if 97 <= b <= 122 then b as int - 71
    else if 48 <= b <= 57 then b as int + 4
    else if b == 43 then 62
    else if b == 47 then 63
    else 0
  }

  lemma ValueOfSymbol(v: nat)
    requires v < 64
    ensures IsSymbol(Symbol(v)) && Value(Symbol(v)) == v
  {
  }

  lemma AlphabetIs(v: nat)
    requires v < 64
    ensures ALPHABET[v] == Symbol(v) as char
  {
    assert forall i | 0 <= i < 26 :: UPPER[i] as int == 65 + i;
    assert forall i | 0 <= i < 26 :: LOWER[i] as int == 97 + i;
    assert v >= 52 ==> ALPHABET[v] == "0123456789+/"[v - 52];
  }

  /** The four 6-bit fields of three bytes. */
  function Fields(x: nat, y: nat, z: nat): (f: (nat, nat, nat, nat))
    requires x < 256 && y < 256 && z < 256
    ensures f.0 < 64 && f.1 < 64 && f.2 < 64 && f.3 < 64
  {
    (x / 4, x % 4 * 16 + y / 16, y % 16 * 4 + z / 64, z % 64)
  }

  function Encode3(x: Byte, y: Byte, z: Byte): Bytes {
    var f := Fields(x as nat, y as nat, z as nat);
    [Symbol(f.0), Symbol(f.1), Symbol(f.2), Symbol(f.3)]
  }

  /** A shorter last group is filled up with zero bits, and its missing symbols are padding. */
  function Encode2(x: Byte, y: Byte): Bytes {
    var f := Fields(x as nat, y as nat, 0);
    [Symbol(f.0), Symbol(f.1), Symbol(f.2), PAD]
  }

  function Encode1(x: Byte): Bytes {
    var f := Fields(x as nat, 0, 0);
    [Symbol(f.0), Symbol(f.1), PAD, PAD]
  }

  /** The padded encoding. */
  function Encode(s: Bytes): Bytes {
    if |s| == 0 then []
    else if |s| == 1 then Encode1(s[0])
    else if |s| == 2 then Encode2(s[0], s[1])
    else Encode3(s[0], s[1], s[2]) + Encode(s[3..])
  }

  /** One digit of a 24-bit number in base 64, as the symbol of the alphabet. */
  function SymbolOf(n: nat, unit: nat): int
    requires unit > 0
  {
    ALPHABET[n / unit % 64] as int
  }

  lemma DigitsOf(a: nat, b: nat, c: nat, d: nat, n: nat)
    requires a < 64 && b < 64 && c < 64 && d < 64 && n == a * 0x4_0000 + b * 0x1000 + c * 64 + d
    ensures n / 0x4_0000 % 64 == a && n / 0x1000 % 64 == b && n / 64 % 64 == c && n % 64 == d
  {
    QuotientIs(n, 0x4_0000, a, b * 0x1000 + c * 64 + d);
    QuotientIs(n, 0x1000, a * 64 + b, c * 64 + d);
    QuotientIs(n, 64, a * 4096 + b * 64 + c, d);
  }

  /** Cutting three bytes into fields does not change their number. */
  lemma FieldsKeepNumber(x: nat, y: nat, z: nat)
    requires x < 256 && y < 256 && z < 256
    ensures var f := Fields(x, y, z);
            f.0 * 0x4_0000 + f.1 * 0x1000 + f.2 * 64 + f.3 == x * 0x1_0000 + y * 0x100 + z
  {
  }

  lemma SymbolIs(v: nat, n: nat, unit: nat)
    requires v < 64 && unit > 0 && n / unit % 64 == v
    ensures Symbol(v) as int == SymbolOf(n, unit)
  {
    AlphabetIs(v);
  }

  lemma DigitsAsSymbols(a: nat, b: nat, c: nat, d: nat, n: nat)
    requires a < 64 && b < 64 && c < 64 && d < 64 && n == a * 0x4_0000 + b * 0x1000 + c * 64 + d
    ensures Symbol(a) as int == SymbolOf(n, 0x4_0000) && Symbol(b) as int == SymbolOf(n, 0x1000)
    ensures Symbol(c) as int == SymbolOf(n, 64) && Symbol(d) as int == SymbolOf(n, 1)
  {
    DigitsOf(a, b, c, d, n);
    SymbolIs(a, n, 0x4_0000);
    SymbolIs(b, n, 0x1000);
    SymbolIs(c, n, 64);
    SymbolIs(d, n, 1);
  }

  lemma FullGroupIs(x: Byte, y: Byte, z: Byte, n: nat)
    requires n == x as nat * 0x1_0000 + y as nat * 0x100 + z as nat
    ensures var e := Encode3(x, y, z);
            && e[0] as int == SymbolOf(n, 0x4_0000) && e[1] as int == SymbolOf(n, 0x1000)
            && e[2] as int == SymbolOf(n, 64) && e[3] as int == SymbolOf(n, 1)
  {
    var f := Fields(x as nat, y as nat, z as nat);
    FieldsKeepNumber(x as nat, y as nat, z as nat);
    DigitsAsSymbols(f.0, f.1, f.2, f.3, n);
  }

  /** Section 4 of RFC 4648: three bytes are the digits of one number in base 64, the most significant first. */
  lemma GroupsAre(x: Byte, y: Byte, z: Byte, rest: Bytes, n: nat)
    requires n == x as nat * 0x1_0000 + y as nat * 0x100 + z as nat
    ensures var e := Encode([x, y, z] + rest);
            && |e| >= 4 && e[0] as int == SymbolOf(n, 0x4_0000) && e[1] as int == SymbolOf(n, 0x1000)
            && e[2] as int == SymbolOf(n, 64) && e[3] as int == SymbolOf(n, 1) && e[4..] == Encode(rest)
  {
    assert ([x, y, z] + rest)[3..] == rest;
    FullGroupIs(x, y, z, n);
  }

  /** One or two bytes at the end count as filled up with zeros, and only the digits that they reach are written. */
  lemma TailsAre(x: Byte, y: Byte)
    ensures Encode([x, y]) == Encode([x, y, 0])[..3] + [PAD]
    ensures Encode([x]) == Encode([x, 0, 0])[..2] + [PAD, PAD]
  {
    assert Encode([x, y, 0]) == Encode3(x, y, 0) && Encode([x, 0, 0]) == Encode3(x, 0, 0);
  }

  // ----- the repository's decoder

  function Cleaned(t: string): string {
    if t == [] then [] else (if Text.UnicodeWhite(t[0]) then [] else [t[0]]) + Cleaned(t[1..])
  }

  /** The 24-bit number of four 6-bit values. */
  function Number(v0: nat, v1: nat, v2: nat, v3: nat): (n: nat)
    requires v0 < 64 && v1 < 64 && v2 < 64 && v3 < 64
    ensures n < 0x100_0000
  {
    v0 * 0x4_0000 + v1 * 0x1000 + v2 * 64 + v3
  }

  /** The bytes of the number that are pushed: a padding character drops its byte. */
  function Pushed(n: nat, c2: Byte, c3: Byte): Bytes
    requires n < 0x100_0000
  {
    [(n / 0x1_0000) as Byte]
    + (if c2 == PAD then [] else [(n / 256 % 256) as Byte])
    + (if c3 == PAD then [] else [(n % 256) as Byte])
  }

  function GroupNumber(c0: Byte, c1: Byte, c2: Byte, c3: Byte): (n: nat)
    ensures n < 0x100_0000
  {
    Number(Value(c0), Value(c1), if c2 == PAD then 0 else Value(c2), if c3 == PAD then 0 else Value(c3))
  }

  /** One turn of the loop. */
  function DecodeGroup(c0: Byte, c1: Byte, c2: Byte, c3: Byte): Bytes {
    Pushed(GroupNumber(c0, c1, c2, c3), c2, c3)
  }

  function DecodeBytes(b: Bytes): Bytes {
    if |b| < 4 then [] else DecodeGroup(b[0], b[1], b[2], b[3]) + DecodeBytes(b[4..])
  }

  function Decode(t: string): Bytes {
    DecodeBytes(Text.Utf8(Cleaned(t)))
  }

  lemma DecodeStep(group: Bytes, rest: Bytes)
    requires |group| == 4
    ensures DecodeBytes(group + rest) == DecodeGroup(group[0], group[1], group[2], group[3]) + DecodeBytes(rest)
  {
    assert (group + rest)[4..] == rest;
  }

  predicate IsTable(table: array<Byte>)
    reads table
  {
    table.Length == 256 && forall b: Byte :: table[b] as nat == Value(b)
  }

  method BuildTable() returns (table: array<Byte>)
    ensures IsTable(table)
  {
    table := new Byte[256](_ => 0);
    for i := 0 to |ALPHABET|
      invariant |ALPHABET| == 64
      invariant forall b: Byte :: table[b] as nat == if Value(b) < i && IsSymbol(b) then Value(b) else 0
    {
      AlphabetIs(i);
      ValueOfSymbol(i);
      table[Symbol(i)] := i as Byte;
    }
  }

  lemma {:induction false} DecodeSplit(b: Bytes, i: nat)
    requires i % 4 == 0 && i <= |b|
    ensures DecodeBytes(b) == DecodeBytes(b[..i]) + DecodeBytes(b[i..])
  {
    if i == 0 {
      assert b[0..] == b;
    } else {
      DecodeSplit(b[4..], i - 4);
      assert b[..i][4..] == b[4..][..i - 4];
      assert b[4..][i - 4..] == b[i..];
    }
  }

  lemma DecodeAppend(b: Bytes, i: nat)
    requires i % 4 == 0 && i + 3 < |b|
    ensures DecodeBytes(b[..i + 4]) == DecodeBytes(b[..i]) + DecodeGroup(b[i], b[i + 1], b[i + 2], b[i + 3])
  {
    DecodeSplit(b[..i + 4], i);
    var rest := b[..i + 4][i..];
    assert rest == [b[i], b[i + 1], b[i + 2], b[i + 3]] && rest[4..] == [];
    assert b[..i + 4][..i] == b[..i];
  }

  lemma DecodeShortTail(b: Bytes, i: nat)
    requires i % 4 == 0 && i <= |b| < i + 4
    ensures DecodeBytes(b) == DecodeBytes(b[..i])
  {
    DecodeSplit(b, i);
  }

  method Lookup(table: array<Byte>, c0: Byte, c1: Byte, c2: Byte, c3: Byte) returns (n: nat)
    requires IsTable(table)
    ensures n == GroupNumber(c0, c1, c2, c3)
  {
    var b0, b1 := table[c0] as nat, table[c1] as nat;
    var b2 := if c2 == PAD then 0 else table[c2] as nat;
    var b3 := if c3 == PAD then 0 else table[c3] as nat;
    n := Number(b0, b1, b2, b3);
  }

  method Push(out: Bytes, n: nat, c2: Byte, c3: Byte) returns (more: Bytes)
    requires n < 0x100_0000
    ensures more == out + Pushed(n, c2, c3)
  {
    more := out + [(n / 0x1_0000) as Byte];
    if c2 != PAD {
      more := more + [(n / 256 % 256) as Byte];
    }
    if c3 != PAD {
      more := more + [(n % 256) as Byte];
    }
  }

  method DecodeText(t: string) returns (out: Bytes)
    ensures out == Decode(t)
  {
    var table := BuildTable();
    var bytes := Text.Utf8(Cleaned(t));
    out := [];
    var i := 0;
    while i + 3 < |bytes|
      invariant 0 <= i <= |bytes| && i % 4 == 0
      invariant IsTable(table)
      invariant out == DecodeBytes(bytes[..i])
    {
      var n := Lookup(table, bytes[i], bytes[i + 1], bytes[i + 2], bytes[i + 3]);
      DecodeAppend(bytes, i);
      out := Push(out, n, bytes[i + 2], bytes[i + 3]);
      i := i + 4;
    }
    DecodeShortTail(bytes, i);
  }

  // ----- decoding an encoding

  lemma FieldsNumber(x: nat, y: nat, z: nat)
    requires x < 256 && y < 256 && z < 256
    ensures var f := Fields(x, y, z); Number(f.0, f.1, f.2, f.3) == x * 0x1_0000 + y * 256 + z
  {
    FieldsKeepNumber(x, y, z);
  }

  lemma NumberBytes(x: nat, y: nat, z: nat)
    requires x < 256 && y < 256 && z < 256
    ensures var n := x * 0x1_0000 + y * 256 + z;
            n / 0x1_0000 == x && n / 256 % 256 == y && n % 256 == z
  {
    assert (x * 0x1_0000 + y * 256 + z) / 256 == x * 256 + y;
  }

  /** The pushed bytes of a number made of three bytes. */
  lemma PushedBytes(x: Byte, y: Byte, z: Byte, n: nat, c2: Byte, c3: Byte)
    requires n == x as nat * 0x1_0000 + y as nat * 256 + z as nat
    ensures Pushed(n, c2, c3) == [x] + (if c2 == PAD then [] else [y]) + (if c3 == PAD then [] else [z])
  {
    NumberBytes(x as nat, y as nat, z as nat);
  }

  lemma FieldsGroup(f: (nat, nat, nat, nat))
    requires f.0 < 64 && f.1 < 64 && f.2 < 64 && f.3 < 64
    ensures GroupNumber(Symbol(f.0), Symbol(f.1), Symbol(f.2), Symbol(f.3)) == Number(f.0, f.1, f.2, f.3)
    ensures GroupNumber(Symbol(f.0), Symbol(f.1), Symbol(f.2), PAD) == Number(f.0, f.1, f.2, 0)
    ensures GroupNumber(Symbol(f.0), Symbol(f.1), PAD, PAD) == Number(f.0, f.1, 0, 0)
  {
    ValueOfSymbol(f.0);
    ValueOfSymbol(f.1);
    ValueOfSymbol(f.2);
    ValueOfSymbol(f.3);
  }

  lemma Group3(x: Byte, y: Byte, z: Byte)
    ensures var e := Encode3(x, y, z); DecodeGroup(e[0], e[1], e[2], e[3]) == [x, y, z]
  {
    var f := Fields(x as nat, y as nat, z as nat);
    FieldsNumber(x as nat, y as nat, z as nat);
    FieldsGroup(f);
    PushedBytes(x, y, z, Number(f.0, f.1, f.2, f.3), Symbol(f.2), Symbol(f.3));
  }

  lemma Group2(x: Byte, y: Byte)
    ensures var e := Encode2(x, y); DecodeGroup(e[0], e[1], e[2], e[3]) == [x, y]
  {
    var f := Fields(x as nat, y as nat, 0);
    FieldsNumber(x as nat, y as nat, 0);
    FieldsGroup(f);
    PushedBytes(x, y, 0, Number(f.0, f.1, f.2, 0), Symbol(f.2), PAD);
  }

  lemma Group1(x: Byte)
    ensures var e := Encode1(x); DecodeGroup(e[0], e[1], e[2], e[3]) == [x]
  {
    var f := Fields(x as nat, 0, 0);
    FieldsNumber(x as nat, 0, 0);
    FieldsGroup(f);
    PushedBytes(x, 0, 0, Number(f.0, f.1, 0, 0), PAD, PAD);
  }

  lemma {:induction false} DecodeEncode(s: Bytes)
    ensures DecodeBytes(Encode(s)) == s
  {
    if |s| == 1 {
      Group1(s[0]);
    } else if |s| == 2 {
      Group2(s[0], s[1]);
    } else if |s| >= 3 {
      Group3(s[0], s[1], s[2]);
      DecodeEncode(s[3..]);
      DecodeStep(Encode3(s[0], s[1], s[2]), Encode(s[3..]));
    }
  }

  /** t is the text e with white space put in anywhere. */
  predicate Spaced(t: string, e: Bytes) {
    if t == [] then e == []
    else if Text.UnicodeWhite(t[0]) then Spaced(t[1..], e)
    else e != [] && t[0] as int == e[0] as int && Spaced(t[1..], e[1..])
  }

  predicate Ascii(e: Bytes) {
    forall i :: 0 <= i < |e| ==> e[i] < 128
  }

  lemma {:induction false} SpacedIff(t: string, e: Bytes)
    requires Ascii(e)
    ensures Spaced(t, e) <==> Text.Utf8(Cleaned(t)) == e
  {
    if t != [] {
      if Text.UnicodeWhite(t[0]) {
        assert Cleaned(t) == Cleaned(t[1..]);
        SpacedIff(t[1..], e);
      } else {
        assert Cleaned(t)[0] == t[0] && Cleaned(t)[1..] == Cleaned(t[1..]);
        var head, rest := Text.Utf8Char(t[0]), Text.Utf8(Cleaned(t[1..]));
        Text.Utf8CharWidth(t[0]);
        if e != [] {
          SpacedIff(t[1..], e[1..]);
          if head + rest == e {
            assert e[0] == head[0];
            assert e[1..] == rest;
          }
        }
      }
    }
  }

  lemma {:induction false} EncodeIsAscii(s: Bytes)
    ensures Ascii(Encode(s))
  {
    if |s| >= 3 {
      EncodeIsAscii(s[3..]);
    }
  }

  /** Every byte string survives encoding, any spacing of the text, and decoding. */
  lemma RoundTrip(s: Bytes, t: string)
    requires Spaced(t, Encode(s))
    ensures Decode(t) == s
  {
    EncodeIsAscii(s);
    SpacedIff(t, Encode(s));
    DecodeEncode(s);
  }

  // ----- encoding what was decoded

  /** Full groups of symbols; only the last may be padded, and then its unused bits are zero. */
  predicate Canonical(b: Bytes) {
    if b == [] then true
    else
      && |b| >= 4 && IsSymbol(b[0]) && IsSymbol(b[1])
      && (|| (IsSymbol(b[2]) && IsSymbol(b[3]) && Canonical(b[4..]))
          || (|b| == 4 && IsSymbol(b[2]) && b[3] == PAD && Value(b[2]) % 4 == 0)
          || (|b| == 4 && b[2] == PAD && b[3] == PAD && Value(b[1]) % 16 == 0))
  }

  lemma FullGroupIsCanonical(x: Byte, y: Byte, z: Byte, rest: Bytes)
    requires Canonical(rest)
    ensures Canonical(Encode3(x, y, z) + rest)
  {
    var f := Fields(x as nat, y as nat, z as nat);
    ValueOfSymbol(f.0);
    ValueOfSymbol(f.1);
    ValueOfSymbol(f.2);
    ValueOfSymbol(f.3);
    assert (Encode3(x, y, z) + rest)[4..] == rest;
  }

  lemma PaddedGroupIsCanonical(x: Byte, y: Byte)
    ensures Canonical(Encode2(x, y)) && Canonical(Encode1(x))
  {
    var f, g := Fields(x as nat, y as nat, 0), Fields(x as nat, 0, 0);
    ValueOfSymbol(f.0);
    ValueOfSymbol(f.1);
    ValueOfSymbol(f.2);
    ValueOfSymbol(g.1);
  }

  lemma {:induction false} EncodeIsCanonical(s: Bytes)
    ensures Canonical(Encode(s))
  {
    if |s| == 1 {
      PaddedGroupIsCanonical(s[0], 0);
    } else if |s| == 2 {
      PaddedGroupIsCanonical(s[0], s[1]);
    } else if |s| >= 3 {
      EncodeIsCanonical(s[3..]);
      FullGroupIsCanonical(s[0], s[1], s[2], Encode(s[3..]));
    }
  }

  lemma LastDigit(a: nat, x: nat, b: nat, y: nat)
    requires x < 64 && y < 64 && a * 64 + x == b * 64 + y
    ensures a == b && x == y
  {
  }

  lemma NumberInjective(v: (nat, nat, nat, nat), w: (nat, nat, nat, nat))
    requires v.0 < 64 && v.1 < 64 && v.2 < 64 && v.3 < 64
    requires w.0 < 64 && w.1 < 64 && w.2 < 64 && w.3 < 64
    requires Number(v.0, v.1, v.2, v.3) == Number(w.0, w.1, w.2, w.3)
    ensures v == w
  {
    LastDigit(v.0 * 4096 + v.1 * 64 + v.2, v.3, w.0 * 4096 + w.1 * 64 + w.2, w.3);
    LastDigit(v.0 * 64 + v.1, v.2, w.0 * 64 + w.1, w.2);
    LastDigit(v.0, v.1, w.0, w.1);
  }

  /** The fields of a number's three bytes are the fields the number was made of. */
  lemma FieldsOfNumber(v: (nat, nat, nat, nat)) returns (x: Byte, y: Byte, z: Byte)
    requires v.0 < 64 && v.1 < 64 && v.2 < 64 && v.3 < 64
    ensures Fields(x as nat, y as nat, z as nat) == v
    ensures Number(v.0, v.1, v.2, v.3) == x as nat * 0x1_0000 + y as nat * 256 + z as nat
  {
    var n := Number(v.0, v.1, v.2, v.3);
    x, y, z := (n / 0x1_0000) as Byte, (n / 256 % 256) as Byte, (n % 256) as Byte;
    assert n / 256 / 256 == x as nat;
    FieldsNumber(x as nat, y as nat, z as nat);
    NumberInjective(Fields(x as nat, y as nat, z as nat), v);
  }

  /** When the unused bits are zero, the bytes that padding drops are zero. */
  lemma DroppedZeros(x: nat, y: nat, z: nat)
    requires x < 256 && y < 256 && z < 256
    ensures var f := Fields(x, y, z);
            && (f.3 == 0 && f.2 % 4 == 0 ==> z == 0)
            && (f.3 == 0 && f.2 == 0 && f.1 % 16 == 0 ==> y == 0)
  {
    var q, r := z / 64, z % 64;
    assert (y % 16 * 4 + q) % 4 == q;
    assert (x % 4 * 16 + y / 16) % 16 == y / 16;
  }

  lemma GroupBack2(c0: Byte, c1: Byte, c2: Byte)
    requires IsSymbol(c0) && IsSymbol(c1) && IsSymbol(c2) && Value(c2) % 4 == 0
    ensures var d := DecodeGroup(c0, c1, c2, PAD);
            |d| == 2 && Encode2(d[0], d[1]) == [c0, c1, c2, PAD]
  {
    var x, y, z := FieldsOfNumber((Value(c0), Value(c1), Value(c2), 0));
    DroppedZeros(x as nat, y as nat, z as nat);
    PushedBytes(x, y, z, GroupNumber(c0, c1, c2, PAD), c2, PAD);
  }

  lemma GroupBack1(c0: Byte, c1: Byte)
    requires IsSymbol(c0) && IsSymbol(c1) && Value(c1) % 16 == 0
    ensures var d := DecodeGroup(c0, c1, PAD, PAD);
            |d| == 1 && Encode1(d[0]) == [c0, c1, PAD, PAD]
  {
    var x, y, z := FieldsOfNumber((Value(c0), Value(c1), 0, 0));
    DroppedZeros(x as nat, y as nat, z as nat);
    PushedBytes(x, y, z, GroupNumber(c0, c1, PAD, PAD), PAD, PAD);
  }

  lemma EncodeDecodePadded(b: Bytes)
    requires Canonical(b) && |b| == 4 && b[3] == PAD
    ensures Encode(DecodeBytes(b)) == b
  {
    assert b[4..] == [] && b == [b[0], b[1], b[2], b[3]];
    assert DecodeBytes(b) == DecodeGroup(b[0], b[1], b[2], b[3]);
    if b[2] == PAD {
      GroupBack1(b[0], b[1]);
    } else {
      GroupBack2(b[0], b[1], b[2]);
    }
  }

  lemma DecodeFull(group: Bytes, x: Byte, y: Byte, z: Byte, rest: Bytes)
    requires |group| == 4 && group[2] != PAD && group[3] != PAD
    requires GroupNumber(group[0], group[1], group[2], group[3]) == x as nat * 0x1_0000 + y as nat * 256 + z as nat
    ensures DecodeBytes(group + rest) == [x, y, z] + DecodeBytes(rest)
  {
    PushedBytes(x, y, z, GroupNumber(group[0], group[1], group[2], group[3]), group[2], group[3]);
    DecodeStep(group, rest);
  }

  lemma EncodeFull(group: Bytes, x: Byte, y: Byte, z: Byte, rest: Bytes)
    requires |group| == 4 && (forall c :: c in group ==> IsSymbol(c))
    requires Fields(x as nat, y as nat, z as nat)
          == (Value(group[0]), Value(group[1]), Value(group[2]), Value(group[3]))
    ensures Encode([x, y, z] + rest) == group + Encode(rest)
  {
    assert ([x, y, z] + rest)[3..] == rest;
    assert Encode3(x, y, z) == group;
  }

  /** One full group in front of a text that encodes back. */
  lemma EncodeDecodeGroup(group: Bytes, rest: Bytes)
    requires |group| == 4 && (forall c :: c in group ==> IsSymbol(c))
    requires Encode(DecodeBytes(rest)) == rest
    ensures Encode(DecodeBytes(group + rest)) == group + rest
  {
    var x, y, z := FieldsOfNumber((Value(group[0]), Value(group[1]), Value(group[2]), Value(group[3])));
    DecodeFull(group, x, y, z, rest);
    EncodeFull(group, x, y, z, DecodeBytes(rest));
  }

  lemma CanonicalParts(b: Bytes)
    requires Canonical(b) && b != []
    ensures |b| >= 4
    ensures || ((forall c :: c in b[..4] ==> IsSymbol(c)) && Canonical(b[4..]))
            || (|b| == 4 && b[3] == PAD)
  {
    if b[3] != PAD {
      assert b[..4] == [b[0], b[1], b[2], b[3]];
    }
  }

  lemma {:induction false} EncodeDecode(b: Bytes)
    requires Canonical(b)
    ensures Encode(DecodeBytes(b)) == b
  {
    if b != [] {
      CanonicalParts(b);
      if |b| == 4 && b[3] == PAD {
        EncodeDecodePadded(b);
      } else {
        EncodeDecode(b[4..]);
        EncodeDecodeGroup(b[..4], b[4..]);
        assert b == b[..4] + b[4..];
      }
    }
  }

  /** The decoder reports no error. What it returns is the meaning of the text exactly when the text
      is canonical once white space is dropped; otherwise the text is not the encoding of the result. */
  lemma DecodesFaithfullyIff(t: string)
    ensures Spaced(t, Encode(Decode(t))) <==> Canonical(Text.Utf8(Cleaned(t)))
  {
    var b := Text.Utf8(Cleaned(t));
    EncodeIsAscii(DecodeBytes(b));
    SpacedIff(t, Encode(DecodeBytes(b)));
    EncodeIsCanonical(DecodeBytes(b));
    if Canonical(b) {
      EncodeDecode(b);
    }
  }

  /** A character that is no symbol counts as the letter A, and so does padding among the first two of a group. */
  lemma ForeignIsA(c0: Byte, c1: Byte, c2: Byte, c3: Byte)
    ensures !IsSymbol(c0) ==> DecodeGroup(c0, c1, c2, c3) == DecodeGroup(65, c1, c2, c3)
    ensures !IsSymbol(c1) ==> DecodeGroup(c0, c1, c2, c3) == DecodeGroup(c0, 65, c2, c3)
    ensures !IsSymbol(c2) && c2 != PAD ==> DecodeGroup(c0, c1, c2, c3) == DecodeGroup(c0, c1, 65, c3)
    ensures !IsSymbol(c3) && c3 != PAD ==> DecodeGroup(c0, c1, c2, c3) == DecodeGroup(c0, c1, c2, 65)
  {
    assert Value(65) == 0;
  }

  /** Four ASCII characters without white space are their own bytes. */
  lemma PlainText(t: string)
    requires |t| == 4 && forall i :: 0 <= i < 4 ==> '!' <= t[i] <= '~'
    ensures Text.Utf8(Cleaned(t)) == [t[0] as Byte, t[1] as Byte, t[2] as Byte, t[3] as Byte]
  {
    var e := [t[0] as Byte, t[1] as Byte, t[2] as Byte, t[3] as Byte];
    assert t[3..][1..] == [] && e[3..][1..] == [];
    assert Spaced(t[3..], e[3..]);
    assert t[2..][1..] == t[3..] && e[2..][1..] == e[3..];
    assert Spaced(t[2..], e[2..]);
    assert t[1..][1..] == t[2..] && e[1..][1..] == e[2..];
    assert Spaced(t[1..], e[1..]);
    SpacedIff(t, e);
  }

  lemma PaddedGroup(c0: Byte, c1: Byte)
    ensures DecodeBytes([c0, c1, PAD, PAD]) == DecodeGroup(c0, c1, PAD, PAD)
  {
    assert [c0, c1, PAD, PAD][4..] == [];
  }

  /** A text that is not canonical: the last two bits before the padding are set, and are lost. It decodes
      like "QQ==" to the letter A. */
  lemma LostBits()
    ensures Decode("QR==") == Decode("QQ==") == [65]
    ensures !Spaced("QR==", Encode(Decode("QR==")))
  {
    PlainText("QR==");
    PlainText("QQ==");
    PaddedGroup(81, 82);
    PaddedGroup(81, 81);
    DecodesFaithfullyIff("QR==");
  }
}

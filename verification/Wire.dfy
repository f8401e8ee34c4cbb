/** Bytes, hash values and the fixed-width integer encodings that are hashed or sent. */
module Wire {

  newtype Byte = b: int | 0 <= b < 256

  type Bytes = seq<Byte>

  type Hash = h: Bytes | |h| == 32 witness seq(32, _ => 0)

  /** A hash function is a parameter of the model: nothing is assumed about it. */
  type HashFn = Bytes -> Hash

  const U64_LIMIT: nat := 0x1_0000_0000_0000_0000

  type U64 = n: nat | n < U64_LIMIT

  type U32 = n: nat | n < 0x1_0000_0000

  /** Two different messages with one hash. Collision finders below compute such a pair. */
  predicate Collides(h: HashFn, pair: (Bytes, Bytes)) {
    pair.0 != pair.1 && h(pair.0) == h(pair.1)
  }

  function Zeros(n: nat): (r: Bytes)
    ensures |r| == n
  {
    seq(n, _ => 0)
  }

  function Pow256(width: nat): (p: nat)
    ensures p > 0
  {
    if width == 0 then 1 else 256 * Pow256(width - 1)
  }

  lemma Pow256Eight()
    ensures Pow256(8) == U64_LIMIT
  {
    assert Pow256(4) == 0x1_0000_0000;
    assert Pow256(6) == 0x1_0000_0000_0000;
  }

  /** The low `width` bytes of n, least significant first. */
  function LittleEndian(n: nat, width: nat): (r: Bytes)
    ensures |r| == width
  {
    if width == 0 then [] else [(n % 256) as Byte] + LittleEndian(n / 256, width - 1)
  }

  lemma NextMultiple(a: nat, b: nat, p: nat)
    requires a < b
    ensures (a + 1) * p <= b * p
  {
  }

  lemma QuotientIs(n: nat, p: nat, a: nat, r: nat)
    requires n == p * a + r && r < p
    ensures n / p == a
  {
    var q := n / p;
    assert q * p <= n < (q + 1) * p;
    if q < a {
      NextMultiple(q, a, p);
    } else if q > a {
      NextMultiple(a, q, p);
    }
  }

  lemma Regroup(base: nat, p: nat, a: nat, b: nat, r: nat)
    ensures base * (p * a + b) + r == base * p * a + (base * b + r)
  {
  }

  lemma RestFits(base: nat, p: nat, b: nat, r: nat)
    requires b < p && r < base
    ensures base * b + r < base * p
  {
    NextMultiple(b, p, base);
  }

  lemma TwoSteps(n: nat, base: nat, p: nat, both: nat, q: nat, r: nat, a: nat, b: nat)
    requires n == base * q + r && r < base && q == p * a + b && b < p && both == base * p
    ensures n == both * a + (base * b + r) && base * b + r < both
  {
    Regroup(base, p, a, b, r);
    RestFits(base, p, b, r);
  }

  lemma DivideTwice(n: nat, base: nat, p: nat, both: nat)
    requires base > 0 && p > 0 && both > 0 && both == base * p
    ensures n / base / p == n / both
  {
    var q, r := n / base, n % base;
    var a, b := q / p, q % p;
    TwoSteps(n, base, p, both, q, r, a, b);
    QuotientIs(n, both, a, base * b + r);
  }

  /** Byte i counts multiples of 256 to the i. */
  lemma {:induction false} LittleEndianAt(n: nat, width: nat, i: nat)
    requires i < width
    ensures LittleEndian(n, width)[i] as int == n / Pow256(i) % 256
  {
    if i > 0 {
      LittleEndianAt(n / 256, width - 1, i - 1);
      DivideTwice(n, 256, Pow256(i - 1), Pow256(i));
    }
  }

  lemma {:induction false} LittleEndianInjective(m: nat, n: nat, width: nat)
    requires m < Pow256(width) && n < Pow256(width)
    requires LittleEndian(m, width) == LittleEndian(n, width)
    ensures m == n
  {
    if width > 0 {
      var a, b := LittleEndian(m, width), LittleEndian(n, width);
      assert a[0] as int == m % 256 && b[0] as int == n % 256;
      assert a[1..] == LittleEndian(m / 256, width - 1);
      assert b[1..] == LittleEndian(n / 256, width - 1);
      LittleEndianInjective(m / 256, n / 256, width - 1);
    }
  }

  /** u64::to_le_bytes */
  function LeU64(n: U64): (r: Bytes)
    ensures |r| == 8
  {
    LittleEndian(n, 8)
  }

  lemma LeU64Injective(m: U64, n: U64)
    requires LeU64(m) == LeU64(n)
    ensures m == n
  {
    Pow256Eight();
    LittleEndianInjective(m, n, 8);
  }

  /** u32::to_be_bytes */
  function BeU32(n: U32): (r: Bytes)
    ensures |r| == 4
  {
    var n1 := n / 256;
    var n2 := n1 / 256;
    [(n2 / 256) as Byte, (n2 % 256) as Byte, (n1 % 256) as Byte, (n % 256) as Byte]
  }

  /** u32::from_be_bytes */
  function FromBeU32(b: Bytes): (n: U32)
    requires |b| == 4
  {
    ((b[0] as int * 256 + b[1] as int) * 256 + b[2] as int) * 256 + b[3] as int
  }

  /** The most significant byte comes first. */
  lemma BeU32At(n: U32)
    ensures var b := BeU32(n);
            && b[3] as int == n % 256 && b[2] as int == n / 0x100 % 256
            && b[1] as int == n / 0x1_0000 % 256 && b[0] as int == n / 0x100_0000
  {
    DivideTwice(n, 256, 256, 0x1_0000);
    DivideTwice(n, 256, 0x1_0000, 0x100_0000);
    DivideTwice(n / 256, 256, 256, 0x1_0000);
  }

  lemma BeU32RoundTrip(n: U32)
    ensures FromBeU32(BeU32(n)) == n
  {
  }

  lemma BeU32Inverse(b: Bytes)
    requires |b| == 4
    ensures BeU32(FromBeU32(b)) == b
  {
    var n2 := b[0] as int * 256 + b[1] as int;
    var n1 := n2 * 256 + b[2] as int;
    var n := n1 * 256 + b[3] as int;
    assert n / 256 == n1 && n % 256 == b[3] as int;
    assert n1 / 256 == n2 && n1 % 256 == b[2] as int;
    assert n2 / 256 == b[0] as int && n2 % 256 == b[1] as int;
  }
}

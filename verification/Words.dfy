/** Machine words and field elements, and the big-endian byte strings that carry them. */
module Words {

  /** Order of the BN254 scalar field, the native field of the Noir contract. */
  const FIELD_MODULUS: int := 21888242871839275222246405745257275088548364400416034343698204186575808495617

  const TWO_32: int := 0x1_0000_0000
  const TWO_64: int := 0x1_0000_0000_0000_0000
  const TWO_160: int := 0x1_0000000000000000_0000000000000000_00000000
  const TWO_240: int := 0x1_0000000000000000_0000000000000000_0000000000000000_000000000000
  const TWO_248: int := 0x1_0000000000000000_0000000000000000_0000000000000000_00000000000000
  const TWO_256: int := 0x1_0000000000000000_0000000000000000_0000000000000000_0000000000000000

  type Byte = b: int | 0 <= b < 256
  type U32 = n: int | 0 <= n < TWO_32
  type U64 = n: int | 0 <= n < TWO_64
  type Field = f: int | 0 <= f < FIELD_MODULUS

  /** An Aztec address wraps one field element. */
  type Address = Field

  /** A 256-bit EVM word and a 160-bit EVM address. */
  type Word = w: int | 0 <= w < TWO_256
  type EthAddress = a: int | 0 <= a < TWO_160

  /** Noir's `as u32`: keeps the low 32 bits. */
  function AsU32(f: Field): (n: U32)
    ensures f < TWO_32 ==> n == f
  {
    f % TWO_32
  }

  function Pow256(n: nat): (p: nat)
    ensures p > 0
  {
    if n == 0 then 1 else 256 * Pow256(n - 1)
  }

  /** The number that a big-endian byte string denotes. */
  function FromBytes(s: seq<Byte>): (n: nat)
    ensures n < Pow256(|s|)
  {
    if |s| == 0 then 0 else FromBytes(s[..|s| - 1]) * 256 + s[|s| - 1]
  }

  /** The low `k` bytes of `n`, most significant first. */
  function ToBytes(n: nat, k: nat): (s: seq<Byte>)
    ensures |s| == k
  {
    if k == 0 then [] else ToBytes(n / 256, k - 1) + [n % 256]
  }

  lemma {:induction false} Pow256Add(m: nat, n: nat)
    ensures Pow256(m + n) == Pow256(m) * Pow256(n)
  {
    if m == 0 {
    } else {
      Pow256Add(m - 1, n);
      MulAssociative(256, Pow256(m - 1), Pow256(n));
    }
  }

  lemma MulAssociative(x: int, y: int, z: int)
    ensures (x * y) * z == x * (y * z)
  {
  }

  lemma MulDistributes(x: int, y: int, z: int)
    ensures (x + y) * z == x * z + y * z
  {
  }

  lemma DivModUnique(n: nat, d: nat, q: nat, r: nat)
    requires 0 <= r < d
    requires n == q * d + r
    ensures n / d == q && n % d == r
  {
    QuotientRemainder(n, d);
    MulDistributes(q - n / d, n / d, d);
    SmallMultipleIsZero(q - n / d, d);
  }

  lemma QuotientRemainder(n: nat, d: nat)
    requires d > 0
    ensures n == n / d * d + n % d && 0 <= n % d < d
  {
  }

  lemma SmallMultipleIsZero(x: int, d: int)
    requires -d < x * d < d
    ensures x == 0
  {
  }

  /** Concatenation is "shift left by the length of the right part, then add". */
  lemma {:induction false} FromConcat(a: seq<Byte>, b: seq<Byte>)
    ensures FromBytes(a + b) == FromBytes(a) * Pow256(|b|) + FromBytes(b)
  {
    if |b| == 0 {
      assert a + b == a;
    } else {
      var b' := b[..|b| - 1];
      assert (a + b)[..|a + b| - 1] == a + b';
      FromConcat(a, b');
      ShiftIn(FromBytes(a), Pow256(|b'|), FromBytes(b'), b[|b| - 1]);
    }
  }

  /** One more byte pushed in on the right. */
  lemma ShiftIn(x: nat, p: nat, y: nat, last: nat)
    ensures (x * p + y) * 256 + last == x * (256 * p) + (y * 256 + last)
  {
  }

  /** Cutting a byte string in two is division with remainder. */
  lemma SplitIsDivMod(s: seq<Byte>, k: nat)
    requires k <= |s|
    ensures FromBytes(s[..k]) == FromBytes(s) / Pow256(|s| - k)
    ensures FromBytes(s[k..]) == FromBytes(s) % Pow256(|s| - k)
  {
    assert s == s[..k] + s[k..];
    FromConcat(s[..k], s[k..]);
    DivModUnique(FromBytes(s), Pow256(|s| - k), FromBytes(s[..k]), FromBytes(s[k..]));
  }

  /** Reducing modulo `256 * p` keeps the last digit and reduces the rest modulo `p`. */
  lemma ModShift(n: nat, p: nat)
    requires p > 0
    ensures n % (256 * p) == n / 256 % p * 256 + n % 256
  {
    var q, r := n / 256 / p, n / 256 % p;
    QuotientRemainder(n / 256, p);
    ShiftIn(q, p, r, n % 256);
    DivModUnique(n, 256 * p, q, r * 256 + n % 256);
  }

  lemma {:induction false} FromToBytes(n: nat, k: nat)
    ensures FromBytes(ToBytes(n, k)) == n % Pow256(k)
  {
    if k == 0 {
    } else {
      assert ToBytes(n, k)[..k - 1] == ToBytes(n / 256, k - 1);
      FromToBytes(n / 256, k - 1);
      ModShift(n, Pow256(k - 1));
    }
  }

  lemma {:induction false} ToFromBytes(s: seq<Byte>)
    ensures ToBytes(FromBytes(s), |s|) == s
  {
    if |s| == 0 {
    } else {
      ToFromBytes(s[..|s| - 1]);
      assert s == s[..|s| - 1] + [s[|s| - 1]];
    }
  }

  /** Byte strings of one length are equal exactly when the numbers they denote are. */
  lemma BytesEqualIffValuesEqual(s: seq<Byte>, t: seq<Byte>)
    requires |s| == |t|
    ensures s == t <==> FromBytes(s) == FromBytes(t)
  {
  }

  lemma PowerValues()
    ensures Pow256(1) == 256 && Pow256(2) == 65536
    ensures Pow256(20) == TWO_160 && Pow256(30) == TWO_240 && Pow256(31) == TWO_248 && Pow256(32) == TWO_256
  {
    assert Pow256(2) == 256 * Pow256(1);
    Pow256Add(2, 2);
    Pow256Add(4, 4);
    Pow256Add(8, 8);
    Pow256Add(16, 4);
    Pow256Add(8, 2);
    Pow256Add(20, 10);
    assert Pow256(31) == 256 * Pow256(30);
    assert Pow256(32) == 256 * Pow256(31);
  }
}

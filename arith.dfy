/** Powers of two, bit lengths and Euclidean division by a positive divisor.
    These are the arithmetic facts the word- and limb-level routines rest on. */
module Arith {

  /** 2^n. */
  function Pow2(n: nat): (r: nat)
    ensures r >= 1
  {
    if n == 0 then 1 else 2 * Pow2(n - 1)
  }

  lemma {:induction false} Pow2Add(a: nat, b: nat)
    ensures Pow2(a + b) == Pow2(a) * Pow2(b)
  {
    if a > 0 {
      Pow2Add(a - 1, b);
    }
  }

  /** Pow2Add with the sum named. */
  lemma Pow2Sum(a: nat, b: nat, c: nat)
    requires c == a + b
    ensures Pow2(c) == Pow2(a) * Pow2(b)
  {
    Pow2Add(a, b);
  }

  lemma Pow2Monotone(a: nat, b: nat)
    requires a <= b
    ensures Pow2(a) <= Pow2(b)
  {
    Pow2Add(a, b - a);
    MulMonotone(1, Pow2(b - a), Pow2(a));
  }

  lemma Pow2StrictMonotone(a: nat, b: nat)
    requires a < b
    ensures 2 * Pow2(a) <= Pow2(b)
  {
    Pow2Monotone(a + 1, b);
  }

  /** The powers of two that name word sizes in the source, one fact each so
      that a proof only carries the constants it uses. */
  lemma Pow2Of8()
    ensures Pow2(8) == 0x100
  {
  }

  lemma Pow2Of16()
    ensures Pow2(16) == 0x1_0000
  {
    Pow2Of8();
    Pow2Add(8, 8);
  }

  lemma Pow2Of32()
    ensures Pow2(32) == 0x1_0000_0000
  {
    Pow2Of16();
    Pow2Add(16, 16);
  }

  lemma Pow2Of62()
    ensures Pow2(62) == 0x4000_0000_0000_0000
  {
    Pow2Of8();
    Pow2Add(8, 6);
    Pow2Of16();
    Pow2Add(16, 14);
    Pow2Of32();
    Pow2Add(32, 30);
  }

  lemma Pow2Of63()
    ensures Pow2(63) == 0x8000_0000_0000_0000
  {
    Pow2Of62();
  }

  lemma Pow2Of64()
    ensures Pow2(64) == 0x1_0000_0000_0000_0000
  {
    Pow2Of63();
  }

  lemma Pow2Of127()
    ensures Pow2(127) == 0x8000_0000_0000_0000_0000_0000_0000_0000
  {
    Pow2Of63();
    Pow2Of64();
    Pow2Add(64, 63);
  }

  lemma Pow2Of191()
    ensures Pow2(191) == 0x8000_0000_0000_0000_0000_0000_0000_0000_0000_0000_0000_0000
  {
    Pow2Of64();
    Pow2Of127();
    Pow2Add(64, 127);
  }

  function Abs(x: int): (r: nat)
    ensures r == x || r == -x
  {
    if x < 0 then -x else x
  }

  /** Number of significant bits of x (0 for x == 0): FLINT_BIT_COUNT, or
      FLINT_BITS minus the count of leading zeros of a nonzero word. */
  function BitLength(x: nat): (r: nat)
  {
    if x == 0 then 0 else 1 + BitLength(x / 2)
  }

  lemma {:induction false} BitLengthBounds(x: nat)
    ensures x < Pow2(BitLength(x))
    ensures x > 0 ==> BitLength(x) >= 1 && Pow2(BitLength(x) - 1) <= x
  {
    if x > 0 {
      BitLengthBounds(x / 2);
    }
  }

  lemma {:induction false} BitLengthFromBounds(x: nat, k: nat)
    requires k >= 1 && Pow2(k - 1) <= x < Pow2(k)
    ensures BitLength(x) == k
  {
    if k > 1 {
      BitLengthFromBounds(x / 2, k - 1);
    }
  }

  /** x has at most b bits exactly when it is below 2^b. */
  lemma BitLengthFits(x: nat, b: nat)
    ensures BitLength(x) <= b <==> x < Pow2(b)
  {
    BitLengthBounds(x);
    if BitLength(x) <= b {
      Pow2Monotone(BitLength(x), b);
    } else {
      Pow2Monotone(b, BitLength(x) - 1);
    }
  }

  lemma BitLengthMonotone(x: nat, y: nat)
    requires x <= y
    ensures BitLength(x) <= BitLength(y)
  {
    BitLengthBounds(y);
    BitLengthFits(x, BitLength(y));
  }

  lemma MulMonotone(a: int, b: int, c: int)
    requires a <= b && c >= 0
    ensures a * c <= b * c
  {
    assert b * c - a * c == (b - a) * c;
  }

  lemma MulStrictMonotone(a: int, b: int, c: int)
    requires a < b && c > 0
    ensures a * c < b * c
  {
    MulAtLeast(b - a, c);
    assert b * c - a * c == (b - a) * c;
  }

  lemma MulAtLeast(k: int, d: int)
    requires k >= 1 && d > 0
    ensures k * d >= d
  {
    var j := k - 1;
    assert k * d == j * d + d;
    assert j * d >= 0;
  }

  lemma ZeroIfSmall(k: int, d: int)
    requires d > 0 && -d < k * d < d
    ensures k == 0
  {
    if k >= 1 {
      MulAtLeast(k, d);
      assert false;
    }
    if k <= -1 {
      MulAtLeast(-k, d);
      assert false;
    }
  }

  /** Quotient and remainder are determined by x == q * d + r with 0 <= r < d. */
  lemma DivModUnique(x: int, d: int, q: int, r: int)
    requires d > 0 && x == q * d + r && 0 <= r < d
    ensures x / d == q && x % d == r
  {
    var q', r' := x / d, x % d;
    assert (q - q') * d == r' - r;
    ZeroIfSmall(q - q', d);
  }

  lemma DivModSmall(x: int, d: int)
    requires 0 <= x < d
    ensures x / d == 0 && x % d == x
  {
    DivModUnique(x, d, 0, x);
  }

  lemma DivAddMultiple(a: int, k: int, d: int)
    requires d > 0
    ensures (a + k * d) / d == a / d + k
    ensures (a + k * d) % d == a % d
  {
    assert a + k * d == (a / d + k) * d + a % d;
    DivModUnique(a + k * d, d, a / d + k, a % d);
  }

  lemma DivMulExact(k: int, d: int)
    requires d > 0
    ensures (k * d) / d == k && (k * d) % d == 0
  {
    DivModUnique(k * d, d, k, 0);
  }

  lemma ModAdd(a: int, b: int, d: int)
    requires d > 0
    ensures (a + b) % d == (a % d + b % d) % d
  {
    assert a + b == (a % d + b % d) + (a / d + b / d) * d;
    DivAddMultiple(a % d + b % d, a / d + b / d, d);
  }

  lemma ModSub(a: int, b: int, d: int)
    requires d > 0
    ensures (a - b) % d == (a % d - b % d) % d
  {
    assert a - b == (a % d - b % d) + (a / d - b / d) * d;
    DivAddMultiple(a % d - b % d, a / d - b / d, d);
  }

  /** Dividing by p * q is dividing by p, then by q; the remainder splits likewise. */
  lemma DivDiv(x: int, p: int, q: int)
    requires p > 0 && q > 0
    ensures p * q > 0
    ensures x / (p * q) == (x / p) / q
    ensures x % (p * q) == x % p + p * ((x / p) % q)
  {
    MulAtLeast(q, p);
    var a, b := x / p, x % p;
    var c, e := a / q, a % q;
    assert x == c * (p * q) + (p * e + b) by {
      assert a == c * q + e;
      assert x == a * p + b;
      assert a * p == c * (p * q) + p * e;
    }
    assert 0 <= p * e + b < p * q by {
      MulMonotone(e, q - 1, p);
      assert (q - 1) * p == p * q - p;
    }
    DivModUnique(x, p * q, c, p * e + b);
  }

  lemma ModMod(x: int, p: int, q: int)
    requires p > 0 && q > 0
    ensures p * q > 0 && (x % (p * q)) % p == x % p
  {
    DivDiv(x, p, q);
    var e := (x / p) % q;
    assert x % (p * q) == x % p + e * p;
    DivAddMultiple(x % p, e, p);
    DivModSmall(x % p, p);
  }

  lemma DivMonotone(x: int, y: int, d: int)
    requires d > 0 && x <= y
    ensures x / d <= y / d
  {
    if x / d > y / d {
      MulAtLeast(x / d - y / d, d);
      assert false;
    }
  }

  /** q * d <= x < (q + 1) * d pins down the quotient. */
  lemma DivBetween(x: int, d: int, q: int)
    requires d > 0 && q * d <= x < q * d + d
    ensures x / d == q
  {
    DivModUnique(x, d, q, x - q * d);
  }

  lemma DivLowerBound(x: int, d: int, q: int)
    requires d > 0 && q * d <= x
    ensures q <= x / d
  {
    DivMulExact(q, d);
    DivMonotone(q * d, x, d);
  }

  lemma DivUpperBound(x: int, d: int, q: int)
    requires d > 0 && x < q * d
    ensures x / d < q
  {
    if x / d >= q {
      MulMonotone(q, x / d, d);
      assert false;
    }
  }

  lemma DivAtMost(x: int, d: int)
    requires x >= 0 && d >= 1
    ensures 0 <= x / d <= x
  {
    MulAtLeast(d, x + 1);
    DivUpperBound(x, d, x + 1);
    DivLowerBound(x, d, 0);
  }

  /** Shifting left then right by the same amount is exact. */
  lemma MulDivPow2(x: int, a: nat)
    ensures (x * Pow2(a)) / Pow2(a) == x && (x * Pow2(a)) % Pow2(a) == 0
  {
    DivMulExact(x, Pow2(a));
  }

  lemma DivPow2Split(x: int, a: nat, b: nat)
    ensures x / Pow2(a + b) == (x / Pow2(a)) / Pow2(b)
    ensures x % Pow2(a + b) == x % Pow2(a) + Pow2(a) * ((x / Pow2(a)) % Pow2(b))
  {
    Pow2Add(a, b);
    DivDiv(x, Pow2(a), Pow2(b));
  }

  lemma ModPow2Mod(x: int, a: nat, b: nat)
    requires a <= b
    ensures (x % Pow2(b)) % Pow2(a) == x % Pow2(a)
  {
    Pow2Add(a, b - a);
    ModMod(x, Pow2(a), Pow2(b - a));
  }

  lemma ModAtMost(x: int, d: int)
    requires x >= 0 && d > 0
    ensures 0 <= x % d <= x
  {
    DivAtMost(x, d);
    MulMonotone(0, x / d, d);
  }

  lemma MulAssoc(a: int, b: int, c: int)
    ensures a * (b * c) == (a * b) * c
  {
  }

  lemma MulRotate(a: int, b: int, c: int)
    ensures (a * b) * c == (b * c) * a
  {
  }

  /** Dividing by 2^s a value whose high part is a multiple of 2^(s+e). */
  lemma DivShiftAdd(low: int, r: int, s: nat, e: nat)
    ensures (low + Pow2(s + e) * r) / Pow2(s) == low / Pow2(s) + Pow2(e) * r
  {
    var ps, pe := Pow2(s), Pow2(e);
    Pow2Add(s, e);
    var k := pe * r;
    MulRotate(ps, pe, r);
    DivAddMultiple(low, k, ps);
  }

  /** A multiple of 2^e vanishes modulo 2^b for b <= e. */
  lemma ModHighMultiple(y: int, r: int, e: nat, b: nat)
    requires b <= e
    ensures (y + Pow2(e) * r) % Pow2(b) == y % Pow2(b)
  {
    var pb, pc := Pow2(b), Pow2(e - b);
    Pow2Add(b, e - b);
    assert Pow2(e) == pb * pc;
    var k := pc * r;
    MulRotate(pb, pc, r);
    DivAddMultiple(y, k, pb);
  }

  /** The quotient of low + p * x by p is x when 0 <= low < p. */
  lemma HighPart(low: int, p: int, x: int)
    requires 0 <= low < p
    ensures (low + p * x) / p == x && (low + p * x) % p == low
  {
    assert p * x == x * p;
    DivAddMultiple(low, x, p);
    DivModSmall(low, p);
  }

  /** Multiplying x by c and reducing modulo p * c keeps the low part x % p of x. */
  lemma MulModSplit(x: int, p: int, c: int)
    requires x >= 0 && p > 0 && c > 0
    ensures c * x == (x % p) * c + (p * c) * (x / p)
    ensures 0 <= (x % p) * c <= p * c - c
    ensures (x * c) % (p * c) == (x % p) * c
  {
    var q, r := x / p, x % p;
    assert x == q * p + r;
    assert c * x == c * (q * p) + c * r;
    MulRotate(q, p, c);
    MulMonotone(r, p - 1, c);
    MulMonotone(0, r, c);
    HighPart(r * c, p * c, q);
  }

  /** Adding a multiple of p * q: (low + (p * q) * r) / p == low / p + q * r,
      and the remainder modulo p is unchanged. */
  lemma DivMulAdd(low: int, r: int, p: int, q: int)
    requires p > 0
    ensures (low + (p * q) * r) / p == low / p + q * r
    ensures (low + (p * q) * r) % p == low % p
  {
    MulRotate(p, q, r);
    DivAddMultiple(low, q * r, p);
  }

  /** x < p * q gives x / p < q. */
  lemma QuotientBelow(x: int, p: int, q: int)
    requires p > 0 && x < p * q
    ensures x / p < q
  {
    DivUpperBound(x, p, q);
  }
}

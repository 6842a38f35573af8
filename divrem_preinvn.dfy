/** flint_mpn_divrem_preinvn (src/mpn_extras/divrem_preinvn.c): division of an
    m-limb number a by a normalised n-limb divisor d, given the n-limb
    precomputed inverse dinv of d. The quotient is produced n limbs at a time
    from the top, each block by a quotient estimate from dinv followed by
    correction loops; a last, shorter block takes the m mod n leftover limbs.
    Limb buffers are modelled by their values (Limbs.Value). */
module DivremPreinvn {
  import opened Arith
  import opened Words
  import opened Limbs

  /** The inverse flint_mpn_preinvn computes for an n-limb normalised d:
      floor((B^2n - 1) / d) - B^n, an n-limb number. */
  function PreinvnOf(dv: nat, n: nat): (v: nat)
    requires LimbPow(n) <= 2 * dv && dv < LimbPow(n)
    ensures v < LimbPow(n)
  {
    var p := LimbPow(n);
    var x := p * p - 1;
    InverseRange(p, dv);
    x / dv - p
  }

  lemma InverseRange(p: nat, dv: nat)
    requires p <= 2 * dv && dv < p
    ensures p <= (p * p - 1) / dv < 2 * p
  {
    MulStrictMonotone(dv, p, p);
    DivLowerBound(p * p - 1, dv, p);
    MulMonotone(p, 2 * dv, p);
    assert 2 * p * dv == (2 * dv) * p;
    DivUpperBound(p * p - 1, dv, 2 * p);
  }

  /** The inverse of a normalised limb sequence d. */
  function Preinvn(d: seq<Word>): (v: nat)
    requires |d| >= 1 && d[|d| - 1] >= HalfBase
    ensures v < LimbPow(|d|)
  {
    Normalised(d);
    PreinvnOf(Value(d), |d|)
  }

  /** The quotient estimate of one block (lines 50-51 for a full block of
      s = n limbs, lines 84-85 for the leftover block of s < n limbs): the top
      s limbs of x above B^n, times the top s limbs of dinv, high part, plus
      the top limbs themselves. */
  function Estimate(x: nat, dinv: nat, n: nat, s: nat): nat
    requires s <= n
  {
    DivAtMost(x, LimbPow(n));
    DivAtMost(dinv, LimbPow(n - s));
    var top, di := x / LimbPow(n), dinv / LimbPow(n - s);
    MulMonotone(0, di, top);
    DivAtMost(di * top, LimbPow(s));
    (di * top) / LimbPow(s) + top
  }

  /** D_T = dinv / E + P_s is (dinv + P) / E when P = P_s E. */
  lemma TruncatedInverse(dinv: nat, ps: nat, e: nat, p: nat)
    requires ps >= 1 && e >= 1 && p == ps * e
    ensures (dinv + p) / e == dinv / e + ps
  {
    assert dinv + p == dinv + ps * e;
    DivAddMultiple(dinv, ps, e);
  }

  /** The estimate is floor(D_T top / P_s). */
  lemma EstimateAsQuotient(dt: nat, top: nat, ps: nat, di: nat)
    requires ps >= 1 && dt == di + ps
    ensures (di * top) / ps + top == (dt * top) / ps
  {
    assert dt * top == di * top + top * ps;
    DivAddMultiple(di * top, top, ps);
  }

  /** The estimate never exceeds the true quotient: q d <= P top. */
  lemma EstimateLow(q: int, ps: int, e: int, p: int, dt: int, d: int, dv: int, top: int)
    requires ps >= 1 && e >= 1 && dv >= 1 && top >= 0 && q >= 0 && p == ps * e
    requires q * ps <= dt * top && dt * e <= d && d * dv <= p * p - 1
    ensures q * dv <= p * top
  {
    Regroup(q, dv, ps, e);
    MulMonotone(q * ps, dt * top, e * dv);
    Regroup(dt, top, e, dv);
    MulMonotone(dt * e, d, top * dv);
    Regroup(d, 1, top, dv);
    MulMonotone(d * dv, p * p, top);
    Regroup(p, p, 1, top);
    LowChain(q * dv, p * top, p, (q * ps) * (e * dv), (dt * top) * (e * dv),
             d * (top * dv), (d * dv) * top);
  }

  /** (a b)(c d) == (a c)(b d). */
  lemma Regroup(a: int, b: int, c: int, d: int)
    ensures (a * b) * (c * d) == (a * c) * (b * d)
  {
    MulAssoc(a * b, c, d);
    MulAssoc(a, b, c);
    MulAssoc(a * c, b, d);
    assert a * (b * c) == a * (c * b);
    MulAssoc(a, c, b);
  }

  /** The chain u p = v1 <= v2 = v3 <= v4 < (w p) gives u <= w. */
  lemma LowChain(u: int, w: int, p: int, v1: int, v2: int, v3: int, v4: int)
    requires p >= 1 && u * p == v1 && v1 <= v2 && v2 <= v3 && v3 <= v4 && v4 <= w * p
    ensures u <= w
  {
    if u > w {
      MulStrictMonotone(w, u, p);
    }
  }

  /** The estimate is short of the true quotient by a few: q d > P top - 3 d. */
  lemma EstimateHigh(q: int, ps: int, e: int, p: int, dt: int, d: int, dv: int, top: int)
    requires ps >= 1 && e >= 1 && dv >= 1 && 0 <= top < ps && p == ps * e
    requires q * ps > dt * top - ps && dt * e > d - e && d * dv >= p * p - dv
    ensures q * dv > p * top - 3 * dv
  {
    Regroup(q, dv, ps, e);
    MulStrictMonotone(dt * top - ps, q * ps, e * dv);
    HighFirst(dt, top, ps, e, dv, p);
    MulMonotone(d - e + 1, dt * e, top * dv);
    HighSecond(d, e, top, dv);
    MulMonotone(p * p - dv, d * dv, top);
    HighThird(p, dv, top);
    MulStrictMonotone(top, ps, e);
    MulStrictMonotone(e * top, e * ps, dv);
    HighFourth(e, ps, dv, p, top);
    HighChain(q * dv, p * top - 2 * dv, p, (q * ps) * (e * dv), (dt * e) * (top * dv),
              (d * dv) * top, (e * top) * dv, top * dv, (p * p) * top, p * dv);
  }

  lemma HighFirst(dt: int, top: int, ps: int, e: int, dv: int, p: int)
    requires p == ps * e
    ensures (dt * top - ps) * (e * dv) == (dt * e) * (top * dv) - p * dv
  {
    Regroup(dt, top, e, dv);
    MulAssoc(ps, e, dv);
  }

  lemma HighSecond(d: int, e: int, top: int, dv: int)
    ensures (d - e + 1) * (top * dv) == (d * dv) * top - (e * top) * dv + top * dv
  {
    Regroup(d, 1, top, dv);
    Regroup(e, 1, top, dv);
  }

  lemma HighThird(p: int, dv: int, top: int)
    ensures (p * p - dv) * top == (p * p) * top - top * dv
  {
  }

  lemma HighFourth(e: int, ps: int, dv: int, p: int, top: int)
    requires p == ps * e
    ensures (e * ps) * dv == p * dv && (p * top - 2 * dv) * p == (p * p) * top - 2 * (p * dv)
  {
    MulAssoc(p, top, p);
  }

  /** The chain of HighFirst .. HighFourth: L > A - D >= B - C + T - D
      >= (P2 - T) - C + T - D = P2 - C - D > P2 - 2 D = w p. */
  lemma HighChain(u: int, w: int, p: int, l: int, a: int, b: int, c: int, t: int, p2: int, dd: int)
    requires p >= 1 && u * p == l && l > a - dd && a >= b - c + t && b >= p2 - t
    requires c < dd && w * p == p2 - 2 * dd
    ensures u > w
  {
    if u <= w {
      MulMonotone(u, w, p);
    }
  }

  /** The floor of a quotient bounds it from both sides. */
  lemma FloorBounds(x: nat, y: nat)
    requires y >= 1
    ensures (x / y) * y <= x && (x / y) * y > x - y
  {
  }

  /** dinv + B^n is floor((B^2n - 1) / d). */
  lemma PreinvnValue(dv: nat, n: nat)
    requires LimbPow(n) <= 2 * dv && dv < LimbPow(n)
    ensures PreinvnOf(dv, n) + LimbPow(n) == (LimbPow(n) * LimbPow(n) - 1) / dv
  {
  }

  /** Lemma on the estimate (the property the correction loops rely on): for a
      normalised d, x < d B^s and dinv its inverse, the estimate q satisfies
      q d <= x < q d + 5 d, so q < B^s. */
  lemma EstimateBounds(x: nat, dv: nat, dinv: nat, n: nat, s: nat)
    requires 1 <= s <= n
    requires LimbPow(n) <= 2 * dv && dv < LimbPow(n) && dinv == PreinvnOf(dv, n)
    requires x < dv * LimbPow(s)
    ensures Estimate(x, dinv, n, s) * dv <= x < Estimate(x, dinv, n, s) * dv + 5 * dv
    ensures Estimate(x, dinv, n, s) < LimbPow(s)
  {
    var p, ps, e := LimbPow(n), LimbPow(s), LimbPow(n - s);
    LimbPowAdd(s, n - s);
    DivAtMost(x, p);
    DivAtMost(dinv, e);
    var top := x / p;
    var d := dinv + p;
    var dt := dinv / e + ps;
    var q := Estimate(x, dinv, n, s);
    InverseFloor(dv, n, d);
    TruncatedFloor(dinv, ps, e, p, d, dt);
    EstimateFloor(x, dinv, n, s, top, dt, q);
    FloorBounds(x, p);
    EstimateCore(x, q, dv, p, ps, e, top, d, dt);
  }

  /** d = dinv + B^n = floor((B^2n - 1) / dv), as bounds on d dv. */
  lemma InverseFloor(dv: nat, n: nat, d: int)
    requires LimbPow(n) <= 2 * dv && dv < LimbPow(n) && d == PreinvnOf(dv, n) + LimbPow(n)
    ensures var p := LimbPow(n); p * p - 1 - dv < d * dv <= p * p - 1
  {
    var p := LimbPow(n);
    PreinvnValue(dv, n);
    FloorBounds(p * p - 1, dv);
  }

  /** dt = dinv / e + ps = floor(d / e), as bounds on dt e. */
  lemma TruncatedFloor(dinv: nat, ps: nat, e: nat, p: nat, d: int, dt: int)
    requires ps >= 1 && e >= 1 && p == ps * e && d == dinv + p && dt == dinv / e + ps
    ensures d - e < dt * e <= d
  {
    TruncatedInverse(dinv, ps, e, p);
    FloorBounds(d, e);
  }

  /** The estimate q is floor(dt top / B^s), as bounds on q B^s. */
  lemma EstimateFloor(x: nat, dinv: nat, n: nat, s: nat, top: nat, dt: nat, q: nat)
    requires s <= n && top == x / LimbPow(n) && dt == dinv / LimbPow(n - s) + LimbPow(s)
    requires q == Estimate(x, dinv, n, s)
    ensures var ps := LimbPow(s); dt * top - ps < q * ps <= dt * top
  {
    var ps := LimbPow(s);
    DivAtMost(dinv, LimbPow(n - s));
    EstimateAsQuotient(dt, top, ps, dinv / LimbPow(n - s));
    MulMonotone(0, dt, top);
    FloorBounds(dt * top, ps);
  }

  /** EstimateBounds over plain integers: d = floor((P^2 - 1) / dv),
      dt = floor(d / e), q = floor(dt top / ps), top = floor(x / P). */
  lemma EstimateCore(x: int, q: int, dv: int, p: int, ps: int, e: int, top: int, d: int, dt: int)
    requires ps >= 1 && e >= 1 && p == ps * e && p <= 2 * dv && 1 <= dv < p
    requires 0 <= x < dv * ps && q >= 0
    requires p * p - 1 - dv < d * dv <= p * p - 1
    requires d - e < dt * e <= d
    requires dt * top - ps < q * ps <= dt * top
    requires x - p < top * p <= x
    ensures q * dv <= x < q * dv + 5 * dv && q < ps
  {
    assert 0 <= top < ps by {
      MulStrictMonotone(dv, p, ps);
      if top < 0 {
        MulMonotone(top, -1, p);
      }
      if top >= ps {
        MulMonotone(ps, top, p);
      }
    }
    EstimateLow(q, ps, e, p, dt, d, dv, top);
    EstimateHigh(q, ps, e, p, dt, d, dv, top);
    if q >= ps {
      MulMonotone(ps, q, dv);
      assert false;
    }
  }

  /** Lines 56-57 (and 90-92): the low n + 1 limbs of x - t, computed as the
      n-limb difference with its borrow and a one-limb difference of the limbs
      at position n, hold x - t exactly when 0 <= x - t < B^(n+1). */
  lemma LowLimbsDifference(x: nat, t: nat, p: nat, b: nat, c: int, r: int)
    requires p >= 1 && b >= 2 && 0 <= x - t < p * b
    requires var borrow := if x % p < (t % (p * b)) % p then 1 else 0;
      r == x % p - (t % (p * b)) % p + borrow * p
      && c == ((x / p) % b - (t % (p * b)) / p - borrow) % b
    ensures c * p + r == x - t && 0 <= r < p
  {
    var m := p * b;
    var tt := t % m;
    var borrow := if x % p < tt % p then 1 else 0;
    var xh, th := (x / p) % b, tt / p;
    var e := xh - th - borrow;
    DivDiv(x, p, b);
    assert x % m == x % p + p * xh;
    Euclid(tt, p);
    TopLimbWrap(e, b, p, m, c);
    Difference(x % m, tt, x % p, tt % p, xh, th, p, borrow, r, e);
    var k := e / b;
    assert c * p + r == x % m - tt - k * m;
    LimbRange(c, b, p, m, r);
    SameResidue(x, t, m, c * p + r, k);
  }

  /** Euclidean division of x by p. */
  lemma Euclid(x: int, p: int)
    requires p > 0
    ensures x == x % p + p * (x / p)
  {
  }

  /** A limb c below b above a remainder r below p stays below m = p b. */
  lemma LimbRange(c: int, b: int, p: int, m: int, r: int)
    requires 0 <= c < b && 0 <= r < p && m == p * b
    ensures 0 <= c * p + r < m
  {
    MulMonotone(c, b - 1, p);
    MulMonotone(0, c, p);
  }

  /** c = e mod b contributes e p less a multiple of m = p b. */
  lemma TopLimbWrap(e: int, b: int, p: int, m: int, c: int)
    requires b >= 1 && p >= 1 && m == p * b && c == e % b
    ensures c * p == e * p - (e / b) * m && 0 <= c < b
  {
    assert e == c + b * (e / b);
    assert e * p == c * p + (e / b) * (b * p);
  }

  /** The two-part difference: low limbs with borrow, then the limb above. */
  lemma Difference(xm: int, tt: int, xl: int, tl: int, xh: int, th: int, p: int,
                   borrow: int, r: int, e: int)
    requires xm == xl + p * xh && tt == tl + p * th
    requires r == xl - tl + borrow * p && e == xh - th - borrow
    ensures e * p + r == xm - tt
  {
  }

  /** A value in [0, m) congruent to x - t modulo m, for 0 <= x - t < m, is x - t. */
  lemma SameResidue(x: int, t: int, m: int, v: int, k: int)
    requires m >= 1 && 0 <= x - t < m && 0 <= v < m && v == x % m - t % m - k * m
    ensures v == x - t
  {
    ModSub(x, t, m);
    assert v == x % m - t % m + (-k) * m;
    DivAddMultiple(x % m - t % m, -k, m);
    DivModSmall(x - t, m);
    DivModSmall(v, m);
  }

  /** Lines 58-68 (and 95-105): while the limb above r is nonzero, subtract d
      from r and add one to q (mpn_sub_n and mpn_add_1 on s limbs); then one
      more subtraction if r >= d. Each step keeps q d + (cy B^n + r) = x. */
  method Correct(x: nat, dv: nat, n: nat, s: nat, q0: nat, cy0: Word, r0: nat)
    returns (q: nat, r: nat)
    requires LimbPow(n) <= 2 * dv && dv < LimbPow(n) && r0 < LimbPow(n)
    requires x < dv * LimbPow(s) && q0 * dv + cy0 * LimbPow(n) + r0 == x
    ensures q * dv + r == x && r < dv && q < LimbPow(s)
  {
    var p, ps := LimbPow(n), LimbPow(s);
    q, r := q0, r0;
    var cy: Word := cy0;
    while cy > 0
      invariant q * dv + cy * p + r == x && r < p
      decreases cy * p + r
    {
      var borrow := if r < dv then 1 else 0;
      MulAtLeast(cy, p);
      QuotientRoom(q, dv, cy * p + r, ps, x);
      SubtractStep(q, dv, cy, p, r, borrow, x);
      r := r - dv + borrow * p;
      cy := cy - borrow;
      q := (q + 1) % ps;
    }
    assert cy * p == 0;
    if r >= dv {
      QuotientRoom(q, dv, r, ps, x);
      r := r - dv;
      q := (q + 1) % ps;
    } else {
      QuotientBound(q, dv, r, ps, x);
    }
  }

  /** One pass of the correction loop keeps q d + cy B^n + r and lowers
      cy B^n + r by d. */
  lemma SubtractStep(q: int, dv: int, cy: int, p: int, r: int, borrow: int, x: int)
    requires q * dv + cy * p + r == x
    ensures (q + 1) * dv + (cy - borrow) * p + (r - dv + borrow * p) == x
    ensures (cy - borrow) * p + (r - dv + borrow * p) == cy * p + r - dv
  {
  }

  /** q d <= x < d B^s bounds the quotient: q < B^s. */
  lemma QuotientBound(q: nat, dv: nat, rest: nat, ps: nat, x: nat)
    requires dv >= 1 && q * dv + rest == x && x < dv * ps
    ensures q < ps
  {
    if q >= ps {
      MulMonotone(ps, q, dv);
      assert false;
    }
  }

  /** When at least d is left over, the quotient can take one more: q + 1 < B^s. */
  lemma QuotientRoom(q: nat, dv: nat, rest: nat, ps: nat, x: nat)
    requires dv >= 1 && rest >= dv && q * dv + rest == x && x < dv * ps
    ensures q + 1 < ps && (q + 1) % ps == q + 1
  {
    if q + 1 >= ps {
      MulMonotone(ps, q + 1, dv);
      assert false;
    }
    DivModSmall(q + 1, ps);
  }

  /** Lines 53-57 (and 87-92): t holds the low n + 1 limbs of the product
      d q (flint_mpn_mul_or_mullow_n, or flint_mpn_mul); mpn_sub_n gives the
      n low limbs of x - t and a borrow, and the limb at position n less t[n]
      and the borrow gives cy. Together they are x - t whenever that lies in
      [0, B^(n+1)). */
  function SubLowLimbs(x: nat, prod: nat, n: nat): (res: (Word, nat))
    requires 0 <= x - prod < LimbPow(n) * WordBase
    ensures res.0 * LimbPow(n) + res.1 == x - prod && res.1 < LimbPow(n)
  {
    var p, b := LimbPow(n), WordBase;
    var t := prod % (p * b);
    var borrow := if x % p < t % p then 1 else 0;
    var r := x % p - t % p + borrow * p;
    var cy := ((x / p) % b - t / p - borrow) % b;
    LowLimbsDifference(x, prod, p, b, cy, r);
    (cy, r)
  }

  /** One block of the division: a dividend x of n + s limbs whose top n limbs
      are below d (so x < d B^s) gives an s-limb quotient q and an n-limb
      remainder r < d with x = q d + r. Lines 50-70 for s = n (the carry of
      the estimate is dropped there, since the estimate fits); lines 84-107
      for s < n (the carry is kept and added into d q, which amounts to the
      same product). */
  method Step(x: nat, dv: nat, dinv: nat, n: nat, s: nat) returns (q: nat, r: nat)
    requires 1 <= s <= n
    requires LimbPow(n) <= 2 * dv && dv < LimbPow(n) && dinv == PreinvnOf(dv, n)
    requires x < dv * LimbPow(s)
    ensures x == q * dv + r && r < dv && q < LimbPow(s)
  {
    var p, b := LimbPow(n), WordBase;
    var q0 := Estimate(x, dinv, n, s);
    EstimateBounds(x, dv, dinv, n, s);
    var prod := dv * q0;
    assert 0 <= x - prod < p * b by {
      MulMonotone(5, b, p);
    }
    var (cy, r0) := SubLowLimbs(x, prod, n);
    q, r := Correct(x, dv, n, s, q0, cy, r0);
  }

  /** flint_mpn_divrem_preinvn: a = (hi B^(m-n) + q) d + r with r < d, where
      hi is 1 exactly when the top n limbs of a are at least d. */
  method DivremPreinvn(a: seq<Word>, d: seq<Word>, dinv: seq<Word>)
    returns (hi: Word, q: seq<Word>, r: seq<Word>)
    requires |d| >= 1 && d[|d| - 1] >= HalfBase && |a| >= |d| && |dinv| == |d|
    requires Value(dinv) == Preinvn(d)
    ensures |q| == |a| - |d| && |r| == |d|
    ensures hi == (if Value(a[|a| - |d|..]) >= Value(d) then 1 else 0)
    ensures Value(a) == Quotient(hi, q) * Value(d) + Value(r)
    ensures Value(r) < Value(d)
  {
    var n, dv, di := |d|, Value(d), Value(dinv);
    Normalised(d);
    assert di == PreinvnOf(dv, n);
    var rem: nat;
    hi, rem := TopLimbs(a, n, dv);
    q, rem := DivideLimbs(a, n, dv, di, hi, rem);
    r := FromNat(rem, n);
    FromNatExact(rem, n);
    Finish(a, rem, dv, hi, q, r);
  }

  /** Lines 48-107: the quotient blocks below the top limbs, n limbs per
      step from the top down, then the leftover block of fewer limbs. */
  method DivideLimbs(a: seq<Word>, n: nat, dv: nat, di: nat, hi: nat, rem0: nat)
    returns (q: seq<Word>, rem: nat)
    requires 1 <= n <= |a| && rem0 < dv
    requires LimbPow(n) <= 2 * dv && dv < LimbPow(n) && di == PreinvnOf(dv, n)
    requires Pending(a, |a| - n, rem0, dv, hi, [])
    ensures |q| == |a| - n && rem < dv && Pending(a, 0, rem, dv, hi, q)
  {
    var m := |a|;
    q, rem := [], rem0;
    while m >= 2 * n
      invariant n <= m <= |a| && |q| == |a| - m && rem < dv
      invariant Pending(a, m - n, rem, dv, hi, q)
    {
      q, rem := DivideBlock(a, m - n, n, n, dv, di, hi, q, rem);
      m := m - n;
    }
    if m - n > 0 {
      q, rem := DivideBlock(a, m - n, m - n, n, dv, di, hi, q, rem);
    }
  }

  /** The state of the long division after the limbs of a from position l
      up have been divided: the running remainder rem and the quotient limbs
      so far (under the top quotient limb hi) account for all of them, and
      a[..l] is still to be brought down. */
  ghost predicate Pending(a: seq<Word>, l: nat, rem: nat, dv: nat, hi: nat, q: seq<Word>)
    requires l <= |a|
  {
    Value(a) == Value(a[..l]) + LimbPow(l) * (rem + dv * Quotient(hi, q))
  }

  /** Lines 34-41: the top n limbs of a, less d when they reach it; the
      remaining limbs of a still to be divided are a[..|a| - n]. */
  method TopLimbs(a: seq<Word>, n: nat, dv: nat) returns (hi: Word, rem: nat)
    requires n <= |a| && LimbPow(n) <= 2 * dv
    ensures hi == (if Value(a[|a| - n..]) >= dv then 1 else 0) && rem < dv
    ensures Pending(a, |a| - n, rem, dv, hi, [])
  {
    var top := Value(a[|a| - n..]);
    ValueBound(a[|a| - n..]);
    if top >= dv {
      hi, rem := 1, top - dv;
    } else {
      hi, rem := 0, top;
    }
    TopBlock(a, |a| - n, top, rem, dv, hi);
  }

  /** One quotient block (lines 50-75, and 80-106 for the short leftover):
      the k limbs below position l are brought down under the running
      remainder, divided by d, and their quotient limbs put in front of q. */
  method DivideBlock(a: seq<Word>, l: nat, k: nat, n: nat, dv: nat, di: nat,
                     hi: nat, q: seq<Word>, rem: nat)
    returns (q': seq<Word>, rem': nat)
    requires 1 <= k <= n && k <= l <= |a| && rem < dv
    requires LimbPow(n) <= 2 * dv && dv < LimbPow(n) && di == PreinvnOf(dv, n)
    requires Pending(a, l, rem, dv, hi, q)
    ensures |q'| == |q| + k && rem' < dv
    ensures Pending(a, l - k, rem', dv, hi, q')
  {
    var block := Value(a[l - k..l]);
    ValueBound(a[l - k..l]);
    BlockBelow(rem, block, dv, LimbPow(k));
    var x := rem * LimbPow(k) + block;
    var qb, rb := Step(x, dv, di, n, k);
    q' := FromNat(qb, k) + q;
    PendingStep(a, l, k, rem, block, dv, qb, rb, q, q', hi);
    rem' := rb;
  }

  /** One block keeps the state of the long division. */
  lemma PendingStep(a: seq<Word>, l: nat, k: nat, rem: nat, block: nat, dv: nat,
                    qb: nat, rb: nat, before: seq<Word>, after: seq<Word>, hi: nat)
    requires k <= l <= |a| && Pending(a, l, rem, dv, hi, before)
    requires block == Value(a[l - k..l]) && qb < LimbPow(k)
    requires rem * LimbPow(k) + block == qb * dv + rb
    requires after == FromNat(qb, k) + before
    ensures Pending(a, l - k, rb, dv, hi, after)
  {
    BlockStepValue(a, l, k, rem, block, dv, qb, rb, before, after, hi);
  }

  lemma TopBlock(a: seq<Word>, k: nat, top: nat, rem: nat, dv: nat, hi: nat)
    requires k <= |a| && top == Value(a[k..]) && top == rem + dv * hi
    ensures Pending(a, k, rem, dv, hi, [])
  {
    ValueSplit(a, k);
    QuotientEmpty(hi);
    TopAlgebra(Value(a), Value(a[..k]), LimbPow(k), top, rem, dv, hi);
  }

  lemma QuotientEmpty(hi: nat)
    ensures Quotient(hi, []) == hi
  {
    LimbPowStep(0);
  }

  lemma TopAlgebra(va: int, low: int, pw: int, top: int, rem: int, dv: int, hi: int)
    requires va == low + pw * top && top == rem + dv * hi
    ensures va == low + pw * (rem + dv * hi)
  {
  }

  /** After the last block: a = Q d + rem. */
  lemma Finish(a: seq<Word>, rem: nat, dv: nat, hi: nat, q: seq<Word>, r: seq<Word>)
    requires Pending(a, 0, rem, dv, hi, q) && Value(r) == rem
    ensures Value(a) == Quotient(hi, q) * dv + Value(r)
  {
    LimbPowStep(0);
    assert a[..0] == [];
    FinishAlgebra(Value(a), Value(a[..0]), LimbPow(0), rem, dv, Quotient(hi, q));
  }

  lemma FinishAlgebra(va: int, low: int, pw: int, rem: int, dv: int, qt: int)
    requires low == 0 && pw == 1 && va == low + pw * (rem + dv * qt)
    ensures va == qt * dv + rem
  {
  }

  /** A top bit set in the top limb makes d at least B^n / 2. */
  lemma Normalised(d: seq<Word>)
    requires |d| >= 1 && d[|d| - 1] >= HalfBase
    ensures LimbPow(|d|) <= 2 * Value(d) && Value(d) < LimbPow(|d|)
  {
    var n := |d|;
    ValueTop(d);
    ValueBound(d);
    LimbPowStep(n - 1);
    MulMonotone(HalfBase, d[n - 1], LimbPow(n - 1));
  }

  /** A block below B^k under a remainder below d: rem B^k + block < d B^k. */
  lemma BlockBelow(rem: nat, block: nat, dv: nat, pk: nat)
    requires rem < dv && block < pk
    ensures 0 <= rem * pk + block < dv * pk
  {
    MulMonotone(rem + 1, dv, pk);
  }

  /** The whole quotient: hi above the limbs of q. */
  function Quotient(hi: nat, q: seq<Word>): nat
  {
    hi * LimbPow(|q|) + Value(q)
  }

  /** The loop invariant after one block: the k limbs below position m - k
      join the remainder, and the block quotient joins q at the bottom. */
  lemma BlockStepValue(a: seq<Word>, l: nat, k: nat, rem: nat, block: nat, dv: nat,
                       qb: nat, rb: nat, before: seq<Word>, after: seq<Word>, hi: nat)
    requires k <= l <= |a|
    requires block == Value(a[l - k..l]) && qb < LimbPow(k)
    requires rem * LimbPow(k) + block == qb * dv + rb
    requires after == FromNat(qb, k) + before
    ensures Value(a[..l]) + LimbPow(l) * (rem + dv * Quotient(hi, before))
            == Value(a[..l - k]) + LimbPow(l - k) * (rb + dv * Quotient(hi, after))
  {
    var j := l - k;
    var pk, pj := LimbPow(k), LimbPow(j);
    SliceValue(a, j, l);
    LimbPowAdd(j, k);
    QuotientPrepend(hi, qb, k, before);
    BlockAlgebra(pj, pk, rem, block, dv, qb, rb, Quotient(hi, before));
  }

  /** Value(a[..e]) splits at j into Value(a[..j]) and the block a[j..e]. */
  lemma SliceValue(a: seq<Word>, j: nat, e: nat)
    requires j <= e <= |a|
    ensures Value(a[..e]) == Value(a[..j]) + LimbPow(j) * Value(a[j..e])
  {
    assert a[..e][..j] == a[..j] && a[..e][j..] == a[j..e];
    ValueSplit(a[..e], j);
  }

  /** Putting a k-limb block qb below q: the quotient becomes qb + B^k Q. */
  lemma QuotientPrepend(hi: nat, qb: nat, k: nat, q: seq<Word>)
    requires qb < LimbPow(k)
    ensures Quotient(hi, FromNat(qb, k) + q) == qb + LimbPow(k) * Quotient(hi, q)
  {
    var f := FromNat(qb, k);
    var s := f + q;
    ValueAppend(f, q);
    FromNatExact(qb, k);
    LimbPowAdd(k, |q|);
    assert |s| == k + |q|;
    PrependAlgebra(Quotient(hi, s), Value(s), LimbPow(|s|), hi, qb, LimbPow(k), LimbPow(|q|),
                   Value(q), Quotient(hi, q));
  }

  lemma PrependAlgebra(qs: int, vs: int, ps: int, hi: int, qb: int, pk: int, pq: int, v: int, qq: int)
    requires vs == qb + pk * v && ps == pk * pq && qs == hi * ps + vs && qq == hi * pq + v
    ensures qs == qb + pk * qq
  {
    assert hi * (pk * pq) == pk * (hi * pq);
  }

  lemma BlockAlgebra(pj: int, pk: int, rem: int, block: int, dv: int, qb: int, rb: int, w: int)
    requires rem * pk + block == qb * dv + rb
    ensures pj * block + (pj * pk) * (rem + dv * w) == pj * (rb + dv * (qb + pk * w))
  {
    assert pj * block + (pj * pk) * (rem + dv * w) == pj * (rem * pk + block) + pj * pk * dv * w;
  }
}

/** s_reduce: Barrett reduction. */
module Barrett {
  import opened Digits
  import opened Buffers
  import opened Powers
  import opened Karatsuba
  import opened Squaring
  import opened MpInts
  import opened Signed
  import opened Shifts

  predicate Distinct(a: MpInt, b: MpInt)
    reads a, b
  {
    a != b && a.digits != b.digits
  }

  // ---- The estimate, in numbers -------------------------------------------

  /** N * u <= N * v lets the positive factor go. */
  lemma {:induction false} CancelLe(n: int, u: int, v: int)
    requires n > 0 && n * u <= n * v
    ensures u <= v
  {
    if u > v {
      MulMono(v + 1, u, n);
      MulComm(n, u);
      MulComm(n, v);
      MulDist(v, 1, n);
      assert false;
    }
  }

  lemma {:induction false} DivBounds(x: int, d: int)
    requires d > 0
    ensures d * (x / d) <= x < d * (x / d) + d
  {
  }

  /** The two floors give too small a product: q m <= x. */
  lemma {:induction false} NotAbove(x: int, m: int, mu: int, q1: int, q: int, b1: int, b2: int)
    requires b1 > 0 && b2 > 0 && 0 <= x && m > 0 && 0 <= mu && 0 <= q1
    requires mu * m <= b1 * b2 && b1 * q1 <= x && b2 * q <= q1 * mu
    ensures q * m <= x
  {
    var n := b1 * b2;
    assert n > 0 by { MulMono(1, b1, b2); }
    calc {
      n * (q * m);
      { Rearrange4(b1, b2, q, m); }
      (b2 * q) * (m * b1);
    <= { MulMono(0, m, b1); MulMono(b2 * q, q1 * mu, m * b1); }
      (q1 * mu) * (m * b1);
      { Rearrange4(b1, q1, mu, m); }
      (b1 * q1) * (mu * m);
    <= { MulMono(0, mu, m); MulMono(b1 * q1, x, mu * m); }
      x * (mu * m);
    <= { MulMono(mu * m, n, x); MulComm(x, mu * m); MulComm(x, n); }
      n * x;
    }
    CancelLe(n, q * m, x);
  }

  lemma {:induction false} Rearrange4(a: int, b: int, c: int, d: int)
    ensures (a * b) * (c * d) == (b * c) * (d * a)
  {
    MulAssoc(a * b, c, d);
    MulComm(a, b);
    MulAssoc(b, a, c);
    MulComm(a, c);
    MulAssoc(b, c, a);
    MulAssoc(b * c, a, d);
    MulComm(a, d);
  }

  /** The second floor loses less than one m. */
  lemma {:induction false} SecondFloor(m: int, mu: int, q1: int, q: int, b1: int, b2: int)
    requires b1 > 0 && m > 0 && q1 * mu <= b2 * q + b2
    ensures (b1 * q1) * (mu * m) <= (b1 * b2) * (q * m) + (b1 * b2) * m
  {
    calc {
      (b1 * q1) * (mu * m);
      { Rearrange4(b1, q1, mu, m); }
      (q1 * mu) * (m * b1);
    <= { MulMono(0, m, b1); MulMono(q1 * mu, b2 * q + b2, m * b1); }
      (b2 * q + b2) * (m * b1);
      { MulDist(b2 * q, b2, m * b1); }
      (b2 * q) * (m * b1) + b2 * (m * b1);
      { Rearrange4(b1, b2, q, m); MulComm(m, b1); MulAssoc(b2, b1, m); MulComm(b1, b2); }
      (b1 * b2) * (q * m) + (b1 * b2) * m;
    }
  }

  /** The first floor and the floor in mu lose less than one m each. */
  lemma {:induction false} FirstFloors(x: int, m: int, n: int, b1: int, u: int, v: int)
    requires 0 < b1 <= m && 0 <= u <= x < n && x < u + b1 && n - m <= v
    ensures x * n - 2 * (m * n) < u * v
  {
    MulMono(n - m, v, u);
    MulDist(n, -m, u);
    NegMul(m, u);
    MulMono(x - b1 + 1, u, n);
    MulDist(x - b1, 1, n);
    MulDist(x, -b1, n);
    NegMul(b1, n);
    MulMono(b1, m, n);
    MulMono(u, n - 1, m);
    MulDist(n, -1, m);
    MulComm(u, v);
    MulComm(u, n);
    MulComm(u, m);
    MulComm(m, n);
  }

  lemma {:induction false} NegMul(a: int, b: int)
    ensures (-a) * b == -(a * b)
  {
  }

  /** The estimate is short of the quotient by at most two: x < (q + 3) m. */
  lemma {:induction false} NotFarBelow(x: int, m: int, mu: int, q1: int, q: int, b1: int, b2: int)
    requires b1 > 0 && b2 > 0 && m >= b1 && 0 <= mu && 0 <= q1 && 0 <= q
    requires 0 <= x < b1 * b2
    requires b1 * b2 < mu * m + m && b1 * q1 <= x < b1 * q1 + b1 && q1 * mu < b2 * q + b2
    ensures x < q * m + 3 * m
  {
    var n := b1 * b2;
    SecondFloor(m, mu, q1, q, b1, b2);
    MulMono(0, b1, q1);
    FirstFloors(x, m, n, b1, b1 * q1, mu * m);
    MulComm(n, m);
    MulComm(n, q * m);
    if q * m + 3 * m <= x {
      MulMono(q * m + 3 * m, x, n);
      MulDist(q * m, 3 * m, n);
      MulDist(m, 2 * m, n);
      MulDist(m, m, n);
      assert false;
    }
  }

  /** floor(floor(x / B^(k-1)) * mu / B^(k+1)), the guess for x / m. */
  ghost function Guess(x: int, mu: int, k: nat): int
    requires k >= 1
  {
    ((x / Exp(k - 1)) * mu) / Exp(k + 1)
  }

  /** The guess is at most the quotient and short by at most two. */
  lemma {:induction false} GuessClose(x: int, m: int, mu: int, k: nat)
    requires k >= 1 && Exp(k - 1) <= m && mu == Exp(2 * k) / m && 0 <= x < Exp(2 * k)
    ensures 0 <= x - Guess(x, mu, k) * m < 3 * m && 0 <= Guess(x, mu, k)
  {
    hide Shift;
    var b1, b2, q1, q := Exp(k - 1), Exp(k + 1), x / Exp(k - 1), Guess(x, mu, k);
    ShiftShift(1, k + 1, k - 1);
    ShiftTimes(1, b2, k - 1);
    DivBounds(Exp(2 * k), m);
    DivBounds(x, b1);
    DivBounds(q1 * mu, b2);
    QuotientNonneg(Exp(2 * k), m);
    QuotientNonneg(x, b1);
    MulMono(0, q1, mu);
    QuotientNonneg(q1 * mu, b2);
    MulComm(m, mu);
    NotAbove(x, m, mu, q1, q, b1, b2);
    NotFarBelow(x, m, mu, q1, q, b1, b2);
  }

  lemma {:induction false} QuotientNonneg(x: int, d: int)
    requires 0 <= x && d > 0
    ensures 0 <= x / d
  {
    if x / d < 0 {
      DivBounds(x, d);
      MulMono(x / d, -1, d);
      MulComm(d, x / d);
      assert false;
    }
  }

  // ---- The digit algorithm ------------------------------------------------

  /** UMUL: the product of the magnitudes into a third number. */
  method UMulInto(threshold: nat, x: MpInt, y: MpInt, z: MpInt)
    requires threshold == 0 || threshold >= 4
    requires x.Valid() && y.Valid() && Distinct(x, z) && Distinct(y, z)
    requires Span(threshold, x.used, y.used) <= z.digits.Length
    modifies z`used, z.digits
    ensures z.Valid() && z.Mag() == x.Mag() * y.Mag() && z.used <= x.used + y.used
  {
    hide Val, Shift, Run, Clamped;
    var o := x.used + y.used;
    Clear(z.digits, 0, o);
    KMul(threshold, x.digits, 0, y.digits, 0, z.digits, 0, x.used, y.used);
    AtLeastOne(x.digits[..], x.used);
    z.used := o;
    Clamp(z);
  }

  lemma {:induction false} AtLeastOne(d: seq<digit>, n: nat)
    requires n <= |d| && Clamped(Run(d, 0, n))
    ensures n >= 1
  {
  }

  /** USQR: the square of a magnitude into another number. */
  method USqrInto(threshold: nat, x: MpInt, z: MpInt)
    requires threshold == 0 || threshold >= 4
    requires x.Valid() && Distinct(x, z) && SqrSpan(threshold, x.used) <= z.digits.Length
    modifies z`used, z.digits
    ensures z.Valid() && z.Mag() == x.Mag() * x.Mag() && z.used <= 2 * x.used
  {
    hide Val, Shift, Run, Clamped;
    var o := x.used + x.used;
    Clear(z.digits, 0, o);
    KSqr(threshold, x.digits, 0, z.digits, 0, x.used);
    AtLeastOne(x.digits[..], x.used);
    z.used := o;
    Clamp(z);
  }

  /** A clamped number below RADIX^n has at most n digits. */
  lemma {:induction false} LengthBound(s: seq<digit>, n: nat)
    requires Clamped(s) && Val(s) < Exp(n) && n >= 1
    ensures |s| <= n
  {
    hide Val, Shift;
    if |s| > n {
      ValTop(s);
      ExpMono(n, |s| - 1);
      assert false;
    }
  }

  lemma {:induction false} ExpIsPow2(n: nat)
    ensures Pow2(32 * n) == Exp(n)
  {
    hide Shift;
    Pow2Digits(n, 0);
  }

  lemma {:induction false} DivDrops(x: int, m: nat, n: nat)
    requires 0 <= x < Exp(m + n)
    ensures 0 <= x / Exp(m) < Exp(n)
  {
    hide Shift;
    QuotientNonneg(x, Exp(m));
    DivBounds(x, Exp(m));
    ShiftShift(1, n, m);
    ShiftTimes(1, Exp(n), m);
    if x / Exp(m) >= Exp(n) {
      MulMono(Exp(n), x / Exp(m), Exp(m));
      MulComm(Exp(m), x / Exp(m));
      MulComm(Exp(m), Exp(n));
      assert false;
    }
  }

  /** m is a modulus of k digits and mu its reduction constant floor(B^(2k) / m). */
  ghost predicate Modulus(m: MpInt, mu: MpInt)
    reads m, m.digits, mu, mu.digits
  {
    && m.Valid() && mu.Valid() && !m.negative && m.Mag() > 0
    && mu.Mag() == Exp(2 * m.used) / m.Mag()
  }

  lemma {:induction false} ModulusBounds(m: MpInt, mu: MpInt)
    requires Modulus(m, mu)
    ensures m.used >= 1 && Exp(m.used - 1) <= m.Mag() < Exp(m.used)
    ensures m.used < mu.used
  {
    hide Val, Shift;
    var M := Run(m.digits[..], 0, m.used);
    ValBound(M);
    if m.used > 1 {
      ValTop(M);
    } else {
      ShiftNone(1);
    }
    MuLarge(m.Mag(), m.used);
    var U := Run(mu.digits[..], 0, mu.used);
    ValBound(U);
    if mu.used <= m.used {
      ExpMono(mu.used, m.used);
      assert false;
    }
  }

  /** The reduction constant needs more digits than the modulus. */
  lemma {:induction false} MuLarge(m: int, k: nat)
    requires 0 < m < Exp(k)
    ensures Exp(2 * k) / m >= Exp(k)
  {
    hide Shift;
    var q := Exp(2 * k) / m;
    DivBounds(Exp(2 * k), m);
    ShiftShift(1, k, k);
    ShiftTimes(1, Exp(k), k);
    if q < Exp(k) {
      MulMono(q, Exp(k) - 1, m);
      MulDist(Exp(k), -1, m);
      MulMono(m, Exp(k), Exp(k));
      MulComm(m, q);
      MulComm(m, Exp(k));
      assert false;
    }
  }

  /** The first half of s_reduce: the guess for x / m into q2. */
  method Estimate(threshold: nat, x: MpInt, m: MpInt, mu: MpInt, q1: MpInt, q2: MpInt)
    requires threshold == 0 || threshold >= 4
    requires Modulus(m, mu) && x.Valid() && q1.Valid() && q2.Valid() && x.Mag() < Exp(2 * m.used)
    requires Distinct(x, q1) && Distinct(x, q2) && Distinct(m, q1) && Distinct(m, q2)
    requires Distinct(mu, q1) && Distinct(mu, q2) && Distinct(q1, q2)
    requires Touched(threshold, mu.used) <= q1.digits.Length && Touched(threshold, mu.used) <= q2.digits.Length
    modifies q1, q1.digits, q2`used, q2`negative, q2.digits
    ensures q1.Valid() && q2.Valid() && q2.Mag() == Guess(x.Mag(), mu.Mag(), m.used)
    ensures Moved(q1) && q1.negative == (x.negative && x.Mag() / Exp(m.used - 1) != 0)
    ensures Touched(threshold, mu.used) <= q1.digits.Length
  {
    hide Val, Shift, Run, Clamped, Pow2, Guess;
    ModulusBounds(m, mu);
    UpperDigits(x, m.used, q1);
    GuessIs(x.Mag(), mu.Mag(), m.used);
    SpanTouched(threshold, q1.used, mu.used, mu.used);
    UMulInto(threshold, q1, mu, q2);
    ExpIsPow2(m.used + 1);
    QDiv(q2, 32 * (m.used + 1));
  }

  lemma {:induction false} GuessIs(x: int, mu: int, k: nat)
    requires k >= 1
    ensures Exp(k - 1) > 0 && Exp(k + 1) > 0 && Guess(x, mu, k) == ((x / Exp(k - 1)) * mu) / Exp(k + 1)
  {
  }

  /** floor(x / B^(k-1)), in at most k + 1 digits. */
  method UpperDigits(x: MpInt, k: nat, q1: MpInt)
    requires x.Valid() && q1.Valid() && Distinct(x, q1) && k >= 1 && x.Mag() < Exp(2 * k)
    modifies q1, q1.digits
    ensures q1.Valid() && q1.Mag() == x.Mag() / Exp(k - 1) && q1.used <= k + 1
    ensures Moved(q1) && q1.negative == (x.negative && q1.Mag() != 0) && q1.digits.Length >= old(q1.digits.Length)
  {
    hide Val, Shift, Run, Clamped, Pow2;
    CopyTo(x, q1);
    ExpIsPow2(k - 1);
    QDiv(q1, 32 * (k - 1));
    RunBound(x.digits[..], x.used);
    DivDrops(x.Mag(), k - 1, k + 1);
    LengthBound(Run(q1.digits[..], 0, q1.used), k + 1);
  }

  lemma {:induction false} RunBound(d: seq<digit>, n: nat)
    requires n <= |d|
    ensures 0 <= Val(Run(d, 0, n)) < Exp(n)
  {
    ValBound(Run(d, 0, n));
  }

  /** The difference of two residues is the residue of the difference, or that less the modulus. */
  lemma {:induction false} ResidueDifference(x: int, y: int, e: int)
    requires e > 0 && 0 <= y <= x && x - y < e
    ensures x % e - y % e == x - y || x % e - y % e == x - y - e
    ensures x < e ==> x % e - y % e == x - y
  {
    var a, b := x / e, y / e;
    assert x == e * a + x % e && y == e * b + y % e;
    if a == b {
    } else if a == b + 1 {
      MulComm(e, a);
      MulComm(e, b);
      MulDist(b, 1, e);
    } else if a > b + 1 {
      MulComm(e, a);
      MulComm(e, b);
      MulMono(b + 2, a, e);
      MulDist(b, 2, e);
      assert false;
    } else {
      MulComm(e, a);
      MulComm(e, b);
      MulMono(a + 1, b, e);
      MulDist(a, 1, e);
      assert false;
    }
    if x < e {
      DivUnique(x, e, 0, x);
      DivUnique(y, e, 0, y);
    }
  }

  lemma {:induction false} GuessShort(x: int, m: int, q: int, k: nat)
    requires k >= 1 && Exp(k - 1) <= m < Exp(k) && 0 <= q && q * m <= x < Exp(2 * k)
    ensures q < Exp(k + 1) && 3 * m + Exp(k) < Exp(k + 1)
  {
    assert Exp(k + 1) == RADIX * Exp(k);
    hide Shift;
    if q >= Exp(k + 1) {
      MulMono(0, Exp(k - 1), m);
      MulMono(Exp(k + 1), q, m);
      MulMono(Exp(k - 1), m, Exp(k + 1));
      MulComm(m, Exp(k + 1));
      ShiftTimes(1, Exp(k + 1), k - 1);
      ShiftShift(1, k + 1, k - 1);
      assert false;
    }
  }

  /** The second part of s_reduce: x becomes x - q2 m, computed modulo B^(k+1) only. When that comes out
      negative it has exactly k + 1 digits, which is what makes s_qsub restore the true difference. */
  method WrapDifference(threshold: nat, x: MpInt, m: MpInt, q1: MpInt, q2: MpInt)
    requires threshold == 0 || threshold >= 4
    requires x.Valid() && m.Valid() && q1.Valid() && q2.Valid() && !x.negative && !q1.negative
    requires Distinct(x, m) && Distinct(x, q1) && Distinct(x, q2) && Distinct(m, q1) && Distinct(m, q2) && Distinct(q1, q2)
    requires Exp(m.used - 1) <= m.Mag() < Exp(m.used) && Touched(threshold, m.used + 1) <= q1.digits.Length
    requires x.Mag() < Exp(2 * m.used) && 0 <= x.Mag() - q2.Mag() * m.Mag() < 3 * m.Mag()
    modifies x, x.digits, q1`used, q1.digits
    ensures x.Valid() && !x.negative && x.Mag() == old(x.Mag() - q2.Mag() * m.Mag())
    ensures q1.Valid() && x.digits == old(x.digits)
  {
    hide Val, Shift, Run, Clamped, Pow2;
    var um := m.used;
    ghost var X, M, q, e := x.Mag(), m.Mag(), q2.Mag(), Exp(um + 1);
    RunBound(q2.digits[..], q2.used);
    GuessShort(X, M, q, um);
    LengthBound(Run(q2.digits[..], 0, q2.used), um + 1);
    ExpIsPow2(um + 1);
    ResidueDifference(X, q * M, e);
    RunBound(x.digits[..], x.used);
    ghost var long := x.used >= um + 2;
    assert long || X < e by {
      if !long {
        ExpMono(x.used, um + 1);
      }
    }
    OneIsNoShift();
    QMod(x, 32 * (um + 1));
    assert x.Mag() == X % e && (long ==> x.digits[um + 1] == 0 && x.digits.Length >= um + 2);
    ModBelow(X, e);
    LengthBound(Run(x.digits[..], 0, x.used), um + 1);
    SpanTouched(threshold, q2.used, m.used, um + 1);
    UMulInto(threshold, q2, m, q1);
    assert q1.Mag() == q * M;
    QMod(q1, 32 * (um + 1));
    assert q1.Mag() == (q * M) % e;
    ModBelow(q * M, e);
    LengthBound(Run(q1.digits[..], 0, q1.used), um + 1);
    Unwrap(x, q1, um, X - q * M);
  }

  lemma {:induction false} ModBelow(x: int, e: int)
    requires e > 0
    ensures 0 <= x % e < e
  {
  }

  /** Subtracts the residues and undoes the wrap by B^(k+1). */
  method Unwrap(x: MpInt, q1: MpInt, k: nat, ghost r: int)
    requires x.Valid() && q1.Valid() && !x.negative && !q1.negative && Distinct(x, q1) && k >= 1
    requires x.used <= k + 1 && q1.used <= k + 1
    requires 0 <= r && r + Exp(k) < Exp(k + 1)
    requires x.Mag() - q1.Mag() == r || x.Mag() - q1.Mag() == r - Exp(k + 1)
    requires x.Mag() < q1.Mag() ==> x.digits.Length >= k + 2 && x.digits[k + 1] == 0
    modifies x, x.digits
    ensures x.Valid() && !x.negative && x.Mag() == r && x.digits == old(x.digits)
  {
    hide Val, Shift, Run, Clamped, Pow2;
    ghost var e := Exp(k + 1);
    if q1.used > x.used {
      LongerIsLarger(Run(q1.digits[..], 0, q1.used), Run(x.digits[..], 0, x.used));
    }
    Sub(x, q1, x);
    var cmp := Cmpz(x);
    RunBound(x.digits[..], x.used);
    if cmp < 0 {
      assert x.Mag() == e - r;
      if x.used <= k {
        ExpMono(x.used, k);
        assert false;
      }
      ExpIsPow2(k + 1);
      QSub(x, 32 * (k + 1));
    }
  }

  /** The end of s_reduce: two conditional subtractions bring 0 <= x < 3m below m. */
  method Settle(x: MpInt, m: MpInt)
    requires x.Valid() && m.Valid() && !x.negative && !m.negative && Distinct(x, m)
    requires 0 < m.Mag() && x.Mag() < 3 * m.Mag()
    modifies x, x.digits
    ensures x.Valid() && !x.negative && x.Mag() == old(x.Mag()) % m.Mag() && Moved(x)
    ensures x.digits.Length >= old(x.digits.Length)
  {
    hide Val, Shift, Run, Clamped;
    RunBound(x.digits[..], x.used);
    ghost var X, M := x.Mag(), m.Mag();
    var cmp := Compare(x, m);
    if cmp >= 0 {
      Sub(x, m, x);
    }
    cmp := Compare(x, m);
    if cmp >= 0 {
      Sub(x, m, x);
    }
    RunBound(x.digits[..], x.used);
    ThreeCases(X, M, x.Mag());
  }

  lemma {:induction false} ThreeCases(x: int, m: int, r: int)
    requires 0 <= r < m && (x == r || x == r + m || x == r + 2 * m)
    ensures x % m == r
  {
    var q := if x == r then 0 else if x == r + m then 1 else 2;
    assert m * q == if q == 0 then 0 else if q == 1 then m else 2 * m;
    DivUnique(x, m, q, r);
  }

  /** s_reduce: leaves exactly x mod m, for every modulus of k digits and every 0 <= x < B^(2k). */
  method Reduce(threshold: nat, x: MpInt, m: MpInt, mu: MpInt, q1: MpInt, q2: MpInt)
    requires threshold == 0 || threshold >= 4
    requires Modulus(m, mu) && x.Valid() && q1.Valid() && q2.Valid() && !x.negative && x.Mag() < Exp(2 * m.used)
    requires Distinct(x, m) && Distinct(x, mu) && Distinct(x, q1) && Distinct(x, q2) && Distinct(m, q1) && Distinct(m, q2)
    requires Distinct(mu, q1) && Distinct(mu, q2) && Distinct(q1, q2)
    requires Touched(threshold, mu.used) <= q1.digits.Length && Touched(threshold, mu.used) <= q2.digits.Length
    modifies x, x.digits, q1, q1.digits, q2`used, q2`negative, q2.digits
    ensures x.Valid() && !x.negative && x.Mag() == old(x.Mag()) % m.Mag()
    ensures q1.Valid() && q2.Valid() && Moved(x) && Moved(q1) && Distinct(x, q1)
    ensures x.digits.Length >= old(x.digits.Length) && Touched(threshold, mu.used) <= q1.digits.Length
  {
    hide Val, Shift, Run, Clamped, Guess;
    ghost var X, M := x.Mag(), m.Mag();
    ModulusBounds(m, mu);
    RunBound(x.digits[..], x.used);
    GuessClose(X, M, mu.Mag(), m.used);
    Estimate(threshold, x, m, mu, q1, q2);
    ghost var q := q2.Mag();
    TouchedMono(threshold, m.used + 1, mu.used);
    WrapDifference(threshold, x, m, q1, q2);
    Settle(x, m);
    MultipleGone(X, M, q);
  }

  lemma {:induction false} MultipleGone(x: int, m: int, q: int)
    requires m > 0
    ensures (x - q * m) % m == x % m
  {
    var y := x - q * m;
    DivBounds(y, m);
    MulComm(m, y / m + q);
    MulDist(y / m, q, m);
    MulComm(m, y / m);
    DivUnique(x, m, y / m + q, y % m);
  }
}

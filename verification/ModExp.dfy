/** s_embar: modular exponentiation over Barrett reduction. */
module ModExp {
  import opened Digits
  import opened Buffers
  import opened Powers
  import opened Karatsuba
  import opened Squaring
  import opened MpInts
  import opened Shifts
  import opened Barrett
  import opened Quotients
  import opened QuotientRoom
  import opened Division

  ghost function Power(a: int, n: nat): int {
    if n == 0 then 1 else a * Power(a, n - 1)
  }

  /** c a^e mod m: what the exponentiation keeps while it consumes e. */
  ghost function Residual(c: int, a: int, e: nat, m: int): int
    requires m > 0
  {
    (c * Power(a, e)) % m
  }

  lemma {:induction false} PowerEven(a: int, h: nat)
    ensures Power(a, 2 * h) == Power(a * a, h)
  {
    if h > 0 {
      PowerEven(a, h - 1);
      assert Power(a, 2 * h) == a * Power(a, 2 * h - 1);
      MulAssoc(a, a, Power(a, 2 * h - 2));
    }
  }

  lemma {:induction false} ModFactor(x: int, y: int, m: int)
    requires m > 0
    ensures ((x % m) * y) % m == (x * y) % m
  {
    var q, r := x / m, x % m;
    assert x == m * q + r;
    MulDist(m * q, r, y);
    MulAssoc(m, q, y);
    MulComm(m, q * y);
    MultipleGone(x * y, m, q * y);
  }

  lemma {:induction false} PowerMod(a: int, n: nat, m: int)
    requires m > 0
    ensures Power(a % m, n) % m == Power(a, n) % m
  {
    if n > 0 {
      var p, p' := Power(a, n - 1), Power(a % m, n - 1);
      PowerMod(a, n - 1, m);
      ModFactor(a, p', m);
      ModFactor(p', a, m);
      ModFactor(p, a, m);
      MulComm(a, p');
      MulComm(a, p);
    }
  }

  /** A set bit moves one factor from the power to the product. */
  lemma {:induction false} MulStepMod(c: int, a: int, e: nat, m: int)
    requires m > 0 && e % 2 == 1
    ensures Residual((c * a) % m, a, e - 1, m) == Residual(c, a, e, m)
  {
    ModFactor(c * a, Power(a, e - 1), m);
    MulAssoc(c, a, Power(a, e - 1));
  }

  /** Squaring the base halves an even exponent. */
  lemma {:induction false} SquareStepMod(c: int, a: int, e: nat, m: int)
    requires m > 0 && e % 2 == 0
    ensures Residual(c, (a * a) % m, e / 2, m) == Residual(c, a, e, m)
  {
    var h := e / 2;
    var p, p' := Power(a * a, h), Power((a * a) % m, h);
    PowerEven(a, h);
    PowerMod(a * a, h, m);
    ModFactor(p, c, m);
    ModFactor(p', c, m);
    MulComm(c, p);
    MulComm(c, p');
  }

  lemma {:induction false} SqrSpanTouched(threshold: nat, size: nat, n: nat)
    requires size <= n
    ensures SqrSpan(threshold, size) <= Touched(threshold, n)
  {
    hide Evened;
    EvenedIs(size);
    EvenedMono(size, n);
  }

  /** The temporaries have the room the products touch. */
  predicate Scratched(threshold: nat, n: nat, t0: MpInt, t1: MpInt, t2: MpInt)
    reads t0, t1, t2
  {
    var r := Touched(threshold, n);
    r <= t0.digits.Length && r <= t1.digits.Length && r <= t2.digits.Length
  }

  /** Everything a step of the exponentiation relies on and keeps. */
  ghost predicate Env(threshold: nat, a: MpInt, m: MpInt, mu: MpInt, c: MpInt, t0: MpInt, t1: MpInt, t2: MpInt)
    reads a, a.digits, m, m.digits, mu, mu.digits, c, c.digits, t0, t0.digits, t1, t1.digits, t2, t2.digits
  {
    && Modulus(m, mu) && a.Valid() && c.Valid() && t0.Valid() && t1.Valid() && t2.Valid()
    && !c.negative && !t0.negative && a.Mag() < m.Mag() && c.Mag() <= m.Mag()
    && Scratched(threshold, mu.used, t0, t1, t2)
    && Distinct(a, m) && Distinct(a, mu) && Distinct(a, c) && Distinct(m, c) && Distinct(mu, c)
    && Distinct(t0, a) && Distinct(t0, m) && Distinct(t0, mu) && Distinct(t0, c)
    && Distinct(t1, a) && Distinct(t1, m) && Distinct(t1, mu) && Distinct(t1, c)
    && Distinct(t2, a) && Distinct(t2, m) && Distinct(t2, mu) && Distinct(t2, c)
    && Distinct(t0, t1) && Distinct(t0, t2) && Distinct(t1, t2)
  }

  lemma {:induction false} ResidueProduct(d: seq<digit>, n: nat, e: seq<digit>, l: nat, m: int, k: nat)
    requires n <= |d| && l <= |e| && k >= 1 && Clamped(Run(d, 0, n)) && Clamped(Run(e, 0, l))
    requires Val(Run(d, 0, n)) <= m && Val(Run(e, 0, l)) <= m && m < Exp(k)
    ensures n <= k && l <= k
    ensures 0 <= Val(Run(d, 0, n)) * Val(Run(e, 0, l)) < Exp(2 * k)
  {
    hide Val, Shift, Run;
    LengthBound(Run(d, 0, n), k);
    LengthBound(Run(e, 0, l), k);
    RunBound(d, n);
    RunBound(e, l);
    ProductBound(Val(Run(d, 0, n)), Val(Run(e, 0, l)), k, k);
  }

  /** c := c * a mod m. */
  method MulMod(threshold: nat, a: MpInt, m: MpInt, mu: MpInt, c: MpInt, t0: MpInt, t1: MpInt, t2: MpInt)
    requires threshold == 0 || threshold >= 4
    requires Env(threshold, a, m, mu, c, t0, t1, t2)
    modifies c, c.digits, t0, t0.digits, t1, t1.digits, t2`used, t2`negative, t2.digits
    ensures Env(threshold, a, m, mu, c, t0, t1, t2) && Moved(c) && Moved(t0) && Moved(t1)
    ensures c.Mag() == old(c.Mag() * a.Mag()) % m.Mag() < m.Mag()
  {
    hide Val, Shift, Run, Clamped;
    ModulusBounds(m, mu);
    ResidueProduct(c.digits[..], c.used, a.digits[..], a.used, m.Mag(), m.used);
    SpanTouched(threshold, c.used, a.used, mu.used);
    UMulInto(threshold, c, a, t0);
    Reduce(threshold, t0, m, mu, t1, t2);
    ModBelow(old(c.Mag() * a.Mag()), m.Mag());
    CopyTo(t0, c);
  }

  /** a := a * a mod m. */
  method SqrMod(threshold: nat, a: MpInt, m: MpInt, mu: MpInt, c: MpInt, t0: MpInt, t1: MpInt, t2: MpInt)
    requires threshold == 0 || threshold >= 4
    requires Env(threshold, a, m, mu, c, t0, t1, t2)
    modifies a, a.digits, t0, t0.digits, t1, t1.digits, t2`used, t2`negative, t2.digits
    ensures Env(threshold, a, m, mu, c, t0, t1, t2) && Moved(a) && Moved(t0) && Moved(t1)
    ensures a.Mag() == old(a.Mag() * a.Mag()) % m.Mag()
  {
    hide Val, Shift, Run, Clamped;
    ModulusBounds(m, mu);
    ResidueProduct(a.digits[..], a.used, a.digits[..], a.used, m.Mag(), m.used);
    SqrSpanTouched(threshold, a.used, mu.used);
    USqrInto(threshold, a, t0);
    Reduce(threshold, t0, m, mu, t1, t2);
    ModBelow(old(a.Mag() * a.Mag()), m.Mag());
    CopyTo(t0, a);
  }

  /** The exponent is none of the numbers the exponentiation writes. */
  predicate Away(b: MpInt, a: MpInt, c: MpInt, t0: MpInt, t1: MpInt, t2: MpInt)
    reads b, a, c, t0, t1, t2
  {
    Distinct(b, a) && Distinct(b, c) && Distinct(b, t0) && Distinct(b, t1) && Distinct(b, t2)
  }

  /** The factor of a set bit. */
  method OddStep(threshold: nat, bit: bool, a: MpInt, m: MpInt, mu: MpInt, c: MpInt, t0: MpInt, t1: MpInt, t2: MpInt, ghost e: nat)
    requires threshold == 0 || threshold >= 4
    requires Env(threshold, a, m, mu, c, t0, t1, t2) && bit == (e % 2 == 1)
    modifies c, c.digits, t0, t0.digits, t1, t1.digits, t2`used, t2`negative, t2.digits
    ensures Env(threshold, a, m, mu, c, t0, t1, t2) && Moved(c) && Moved(t0) && Moved(t1) && m.Mag() == old(m.Mag())
    ensures if bit then c.Mag() < m.Mag() else c.Mag() == old(c.Mag())
    ensures Residual(c.Mag(), a.Mag(), 2 * (e / 2), m.Mag()) == old(Residual(c.Mag(), a.Mag(), e, m.Mag()))
    ensures a.Mag() == old(a.Mag())
  {
    hide Val, Shift, Run, Clamped, Power, Residual;
    if bit {
      MulStepMod(c.Mag(), a.Mag(), e, m.Mag());
      MulMod(threshold, a, m, mu, c, t0, t1, t2);
    }
  }

  /** One bit of a low-order digit: multiply when it is set, and always square. */
  method BitStep(threshold: nat, bit: bool, a: MpInt, m: MpInt, mu: MpInt, c: MpInt, t0: MpInt, t1: MpInt, t2: MpInt,
                 ghost b: MpInt, ghost e: nat)
    requires threshold == 0 || threshold >= 4
    requires Env(threshold, a, m, mu, c, t0, t1, t2) && Away(b, a, c, t0, t1, t2) && bit == (e % 2 == 1)
    modifies a, a.digits, c, c.digits, t0, t0.digits, t1, t1.digits, t2`used, t2`negative, t2.digits
    ensures Env(threshold, a, m, mu, c, t0, t1, t2) && Away(b, a, c, t0, t1, t2)
    ensures Moved(a) && Moved(c) && Moved(t0) && Moved(t1)
    ensures Residual(c.Mag(), a.Mag(), e / 2, m.Mag()) == old(Residual(c.Mag(), a.Mag(), e, m.Mag()))
  {
    hide Val, Shift, Run, Clamped, Power, Residual;
    OddStep(threshold, bit, a, m, mu, c, t0, t1, t2, e);
    SquareStepMod(c.Mag(), a.Mag(), 2 * (e / 2), m.Mag());
    SqrMod(threshold, a, m, mu, c, t0, t1, t2);
  }

  lemma {:induction false} HalfExponent(d: int, i: nat, v: int)
    requires i >= 1 && 0 <= d < Pow2(i) && 0 <= v
    ensures 0 <= d + Pow2(i) * v && (d + Pow2(i) * v) % 2 == d % 2
    ensures (d + Pow2(i) * v) / 2 == d / 2 + Pow2(i - 1) * v && d / 2 < Pow2(i - 1)
    ensures 0 <= Pow2(i - 1) * v
  {
    var p := Pow2(i - 1);
    MulAssoc(2, p, v);
    MulMono(0, p, v);
    HalfSum(d, p * v);
  }

  lemma {:induction false} HalfSum(d: int, w: int)
    ensures (d + 2 * w) % 2 == d % 2 && (d + 2 * w) / 2 == d / 2 + w
  {
  }

  /** A whole low-order digit: its 32 bits, the lowest first. */
  method LowDigit(threshold: nat, d0: digit, a: MpInt, m: MpInt, mu: MpInt, c: MpInt, t0: MpInt, t1: MpInt, t2: MpInt,
                  ghost b: MpInt, ghost v: nat)
    requires threshold == 0 || threshold >= 4
    requires Env(threshold, a, m, mu, c, t0, t1, t2) && Away(b, a, c, t0, t1, t2)
    modifies a, a.digits, c, c.digits, t0, t0.digits, t1, t1.digits, t2`used, t2`negative, t2.digits
    ensures Env(threshold, a, m, mu, c, t0, t1, t2) && Away(b, a, c, t0, t1, t2)
    ensures Moved(a) && Moved(c) && Moved(t0) && Moved(t1)
    ensures Residual(c.Mag(), a.Mag(), v, m.Mag()) == old(Residual(c.Mag(), a.Mag(), d0 + RADIX * v, m.Mag()))
  {
    hide Val, Shift, Run, Clamped, Residual, Pow2, Distinct, Away;
    ghost var e := d0 + RADIX * v;
    ghost var T := Residual(c.Mag(), a.Mag(), e, m.Mag());
    Pow2Radix();
    OneIsNoShift();
    var d: int := d0;
    var i := 32;
    while i > 0
      invariant 0 <= i <= 32 && 0 <= d < Pow2(i)
      invariant e == d + Pow2(i) * v
      invariant Env(threshold, a, m, mu, c, t0, t1, t2) && Away(b, a, c, t0, t1, t2)
      invariant Moved(a) && Moved(c) && Moved(t0) && Moved(t1)
      invariant Residual(c.Mag(), a.Mag(), e, m.Mag()) == T
    {
      HalfExponent(d, i, v);
      BitStep(threshold, d % 2 == 1, a, m, mu, c, t0, t1, t2, b, e);
      d := d / 2;
      i := i - 1;
      e := e / 2;
    }
    assert e == v;
  }

  lemma {:induction false} ResidualEnds(c: int, a: int, b: nat, m: int)
    requires 0 < m
    ensures 0 <= c < m ==> Residual(c, a, 0, m) == c
    ensures Residual(1, a, b, m) == Power(a, b) % m
  {
    if 0 <= c < m {
      DivUnique(c, m, 0, c);
    }
  }

  /** The highest-order digit: bits until nothing is left, without a last squaring. */
  method TopDigit(threshold: nat, d0: digit, a: MpInt, m: MpInt, mu: MpInt, c: MpInt, t0: MpInt, t1: MpInt, t2: MpInt)
    requires threshold == 0 || threshold >= 4
    requires Env(threshold, a, m, mu, c, t0, t1, t2)
    modifies a, a.digits, c, c.digits, t0, t0.digits, t1, t1.digits, t2`used, t2`negative, t2.digits
    ensures Env(threshold, a, m, mu, c, t0, t1, t2) && Moved(a) && Moved(c)
    ensures Residual(c.Mag(), a.Mag(), 0, m.Mag()) == old(Residual(c.Mag(), a.Mag(), d0, m.Mag()))
    ensures if d0 == 0 then c.Mag() == old(c.Mag()) else c.Mag() < m.Mag()
  {
    hide Val, Shift, Run, Clamped, Residual;
    ghost var T := Residual(c.Mag(), a.Mag(), d0, m.Mag());
    var d: nat := d0;
    while true
      invariant Env(threshold, a, m, mu, c, t0, t1, t2)
      invariant Moved(a) && Moved(c) && Moved(t0) && Moved(t1)
      invariant Residual(c.Mag(), a.Mag(), d, m.Mag()) == T
      invariant if d0 == 0 then d == 0 && c.Mag() == old(c.Mag()) else d > 0
      decreases d
    {
      OddStep(threshold, d % 2 == 1, a, m, mu, c, t0, t1, t2, d);
      d := d / 2;
      if d == 0 {
        break;
      }
      SquareStepMod(c.Mag(), a.Mag(), 2 * d, m.Mag());
      SqrMod(threshold, a, m, mu, c, t0, t1, t2);
    }
  }

  /** The three temporaries. */
  method Scratch(n: nat) returns (t0: MpInt, t1: MpInt, t2: MpInt)
    ensures fresh(t0) && fresh(t1) && fresh(t2) && fresh(t0.digits) && fresh(t1.digits) && fresh(t2.digits)
    ensures t0.Valid() && t1.Valid() && t2.Valid() && !t0.negative
    ensures Capacity(n) == t0.digits.Length == t1.digits.Length == t2.digits.Length
    ensures Distinct(t0, t1) && Distinct(t0, t2) && Distinct(t1, t2)
  {
    t0 := new MpInt(n);
    t1 := new MpInt(n);
    t2 := new MpInt(n);
  }

  /** All digits of the exponent, lowest first. */
  method AllDigits(threshold: nat, a: MpInt, b: MpInt, m: MpInt, mu: MpInt, c: MpInt, t0: MpInt, t1: MpInt, t2: MpInt)
    requires threshold == 0 || threshold >= 4
    requires Env(threshold, a, m, mu, c, t0, t1, t2) && Away(b, a, c, t0, t1, t2) && b.Valid()
    modifies a, a.digits, c, c.digits, t0, t0.digits, t1, t1.digits, t2`used, t2`negative, t2.digits
    ensures Env(threshold, a, m, mu, c, t0, t1, t2) && Moved(a) && Moved(c) && m.Mag() == old(m.Mag())
    ensures Residual(c.Mag(), a.Mag(), 0, m.Mag()) == old(Residual(c.Mag(), a.Mag(), b.Mag(), m.Mag()))
    ensures if b.Mag() == 0 then c.Mag() == old(c.Mag()) else c.Mag() < m.Mag()
  {
    hide Val, Shift, Run, Clamped, Residual;
    ghost var S, T := Run(b.digits[..], 0, b.used), Residual(c.Mag(), a.Mag(), b.Mag(), m.Mag());
    assert S[0..] == S;
    var db := 0;
    while db < b.used - 1
      invariant 0 <= db < b.used && Run(b.digits[..], 0, b.used) == S
      invariant Env(threshold, a, m, mu, c, t0, t1, t2) && Away(b, a, c, t0, t1, t2)
      invariant Moved(a) && Moved(c) && Moved(t0) && Moved(t1)
      invariant db == 0 ==> c.Mag() == old(c.Mag())
      invariant Val(S[db..]) >= 0 && Residual(c.Mag(), a.Mag(), Val(S[db..]), m.Mag()) == T
    {
      SuffixParts(b.digits[..], b.used, db);
      LowDigit(threshold, b.digits[db], a, m, mu, c, t0, t1, t2, b, Val(S[db + 1..]));
      db := db + 1;
    }
    SuffixParts(b.digits[..], b.used, db);
    TopIsZero(b.digits[..], b.used);
    TopDigit(threshold, b.digits[db], a, m, mu, c, t0, t1, t2);
  }

  /** Only zero has a zero on top, and then no other digit. */
  lemma {:induction false} TopIsZero(d: seq<digit>, used: nat)
    requires used <= |d| && Clamped(Run(d, 0, used))
    ensures used >= 1 && (Val(Run(d, 0, used)) == 0 <==> d[used - 1] == 0) && (d[used - 1] == 0 ==> used == 1)
  {
    ZeroMag(Run(d, 0, used));
    if d[used - 1] == 0 {
      assert Run(d, 0, used) == [0];
      ValOne(0);
    }
  }

  /** The exponent's digits from position i on: digit i and the rest. */
  lemma {:induction false} SuffixParts(d: seq<digit>, used: nat, i: nat)
    requires i < used <= |d|
    ensures var s := Run(d, 0, used);
      Val(s[i + 1..]) >= 0 && Val(s[i..]) == d[i] + RADIX * Val(s[i + 1..]) && (i == used - 1 ==> Val(s[i..]) == d[i])
  {
    hide Val;
    var s := Run(d, 0, used);
    ValBound(s[i + 1..]);
    ValCons(s[i..]);
    assert s[i..][1..] == s[i + 1..] && s[i..][0] == d[i];
    if i == used - 1 {
      assert s[i..] == [d[i]];
      ValOne(d[i]);
    }
  }

  /** a^b mod m as s_embar gives it: the power before the first reduction is 1, also for m = 1. */
  ghost function Embarked(a: int, b: nat, m: int): int
    requires m > 0
  {
    if b == 0 then 1 else Power(a, b) % m
  }

  /** s_embar: c becomes a^b mod m for every b >= 0, given 0 <= a < m and the reduction constant of m. */
  method Embar(threshold: nat, a: MpInt, b: MpInt, m: MpInt, mu: MpInt, c: MpInt)
    requires threshold == 0 || threshold >= 4
    requires Modulus(m, mu) && a.Valid() && b.Valid() && c.Valid() && a.Mag() < m.Mag()
    requires Touched(threshold, mu.used) <= Capacity(2 * mu.used)
    requires Distinct(a, m) && Distinct(a, mu) && Distinct(a, c) && Distinct(m, c) && Distinct(mu, c)
    requires Distinct(b, a) && Distinct(b, c)
    modifies a, a.digits, c, c.digits
    ensures c.Valid() && !c.negative && c.Mag() == Embarked(old(a.Mag()), old(b.Mag()), old(m.Mag()))
    ensures Moved(c)
  {
    hide Val, Shift, Run, Clamped, Residual, Power;
    ghost var A, B, M := a.Mag(), b.Mag(), m.Mag();
    ResidualEnds(0, A, B, M);
    SetOne(c);
    assert Modulus(m, mu) && a.Mag() == A && b.Mag() == B && m.Mag() == M && a.Valid() && b.Valid();
    var t0, t1, t2 := Scratch(2 * mu.used);
    assert Env(threshold, a, m, mu, c, t0, t1, t2);
    AllDigits(threshold, a, b, m, mu, c, t0, t1, t2);
    ResidualEnds(c.Mag(), a.Mag(), 0, M);
  }

  /** s_2expt: z becomes 2^k. */
  method Expt2(z: MpInt, k: nat)
    modifies z`digits, z`used, z.digits
    ensures z.Valid() && z.Mag() == Pow2(k) && Moved(z)
  {
    hide Val, Shift, Pow2, Run, Clamped;
    var ndig, rest := (k + 32) / 32, k % 32;
    Pad(z, ndig);
    Clear(z.digits, 0, ndig);
    DigitPower(rest);
    z.digits[ndig - 1] := Pow2(rest);
    z.used := ndig;
    TopAlone(z.digits[..], ndig);
    Pow2Digits(ndig - 1, rest);
    WindowClamped(z.digits[..], 0, ndig);
  }

  lemma {:induction false} DigitPower(i: nat)
    requires i < 32
    ensures 1 <= Pow2(i) < RADIX
  {
    hide Pow2;
    OnePower();
    if i > 0 {
      Pow2Between(i);
    }
  }

  /** B^2k, the dividend of s_brmu for a modulus of k digits. */
  ghost function PowerAbove(k: nat): nat { Exp(2 * k) }

  /** The digits of the reduction constant. */
  ghost function MuDigits(m: nat, k: nat): nat
    requires m > 0
  {
    QuotientNonneg(PowerAbove(k), m);
    |DigitsOf(PowerAbove(k) / m)|
  }

  lemma {:induction false} MuLength(m: MpInt, mu: MpInt)
    requires Modulus(m, mu)
    ensures mu.used == MuDigits(m.Mag(), m.used)
  {
    hide Val, Shift, Clamped, DigitsOf;
    DigitsAre(Run(mu.digits[..], 0, mu.used));
  }

  /** The temporaries of s_embar hold what the products touch exactly when these do not recurse, or the reduction constant has
      an even number of digits or at most 31. */
  lemma {:induction false} ScratchExactly(threshold: nat, n: nat)
    ensures Touched(threshold, n) <= Capacity(2 * n) <==> threshold == 0 || n < threshold || n % 2 == 0 || n <= 31
  {
    hide Evened;
    EvenedIs(n);
  }

  /** s_brmu: for a modulus m of k digits z becomes the reduction constant floor(B^(2k) / m), exactly when the long division
      does not tie. */
  method Brmu(z: MpInt, m: MpInt) returns (ok: bool)
    requires z.Valid() && m.Valid() && Distinct(z, m) && (m.Mag() > 0 ==> QuotientFits(PowerAbove(m.used), m.Mag()))
    modifies z, z.digits
    ensures ok == (m.Mag() != 0) && z.Valid() && Moved(z)
    ensures ok && !m.negative ==> (Modulus(m, z) <==> !Ties(PowerAbove(m.used), m.Mag()))
  {
    hide Val, Shift, Pow2, Run, Clamped, QuotientFits, Ties;
    var um := 2 * m.used;
    Pad(z, um);
    Expt2(z, 32 * um);
    Pow2Digits(um, 0);
    OnePower();
    ok := Div(z, m, z, null);
  }

  /** Powers of a residue, in the form s_embar gives them. */
  lemma {:induction false} EmbarkedResidue(a: int, b: nat, m: int)
    requires m > 0
    ensures Embarked(a % m, b, m) == Embarked(a, b, m)
    ensures m > 1 || b > 0 ==> Embarked(a, b, m) == Power(a, b) % m
  {
    PowerMod(a, b, m);
    if m > 1 {
      DivUnique(1, m, 0, 1);
    }
  }

  /** The residue of a, its power into s. */
  method ExptInto(threshold: nat, a: MpInt, b: MpInt, m: MpInt, s: MpInt)
    requires threshold == 0 || threshold >= 4
    requires a.Valid() && b.Valid() && m.Valid() && s.Valid() && Sep(a, m) && Sep(a, s) && Distinct(b, s) && Distinct(m, s)
    requires m.Value() > 0 && b.Value() >= 0 && QuotientFits(a.Mag(), m.Mag()) && !Ties(PowerAbove(m.used), m.Mag())
    requires var n := MuDigits(m.Mag(), m.used); Touched(threshold, n) <= Capacity(2 * n)
    modifies s, s.digits
    ensures s.Valid() && Moved(s) && s.Value() == Embarked(old(a.Value()), old(b.Mag()), old(m.Mag()))
  {
    hide Val, Shift, Run, Clamped, QuotientFits, Ties, Power, Embarked, MuDigits;
    EmbarkedResidue(a.Value(), b.Mag(), m.Mag());
    var t0, t1 := Reduced(a, m);
    MuLength(m, t1);
    Embar(threshold, t0, b, m, t1, s);
  }

  /** The residue of a, and the reduction constant of m. */
  method Reduced(a: MpInt, m: MpInt) returns (t0: MpInt, t1: MpInt)
    requires a.Valid() && m.Valid() && Sep(a, m)
    requires m.Value() > 0 && QuotientFits(a.Mag(), m.Mag()) && !Ties(PowerAbove(m.used), m.Mag())
    ensures fresh(t0) && fresh(t0.digits) && fresh(t1) && fresh(t1.digits) && Distinct(t0, t1)
    ensures t0.Valid() && t0.Mag() == a.Value() % m.Mag() && Modulus(m, t1)
  {
    hide Val, Shift, Run, Clamped, QuotientFits, Ties;
    var um := m.used;
    t0 := new MpInt(2 * um);
    t1 := new MpInt(2 * um);
    NoTieFits(PowerAbove(m.used), m.Mag());
    var ok := Mod(a, m, t0);
    ok := Brmu(t1, m);
  }

  /** mp_int_exptmod: a^b mod m for every signed a, every b >= 0 and every m > 0 whose reduction constant comes out of the
      division, but 1 and not 0 for m = 1 and b = 0; each error exactly in its case. */
  method ExptMod(threshold: nat, a: MpInt, b: MpInt, m: MpInt, c: MpInt) returns (res: Status)
    requires threshold == 0 || threshold >= 4
    requires a.Valid() && b.Valid() && m.Valid() && c.Valid() && Sep(a, m) && Sep(a, c) && Sep(b, c) && Sep(m, c)
    requires m.Value() >= 0
    requires m.Value() > 0 && b.Value() >= 0 ==> QuotientFits(a.Mag(), m.Mag()) && !Ties(PowerAbove(m.used), m.Mag())
    requires m.Value() > 0 && b.Value() >= 0 ==> var n := MuDigits(m.Mag(), m.used); Touched(threshold, n) <= Capacity(2 * n)
    modifies c, c.digits
    ensures c.Valid() && Moved(c)
    ensures res == Undef <==> old(m.Value()) == 0
    ensures res == Range <==> old(m.Value()) > 0 && old(b.Value()) < 0
    ensures res == Ok && (old(m.Value()) > 1 || old(b.Value()) > 0) ==>
      c.Value() == Power(old(a.Value()), old(b.Value())) % old(m.Value())
    ensures res == Ok && old(m.Value()) == 1 && old(b.Value()) == 0 ==> c.Value() == 1
  {
    hide Val, Shift, Run, Clamped, QuotientFits, Ties, Power, MuDigits;
    var cm := Cmpz(m);
    if cm == 0 {
      return Undef;
    }
    var cb := Cmpz(b);
    if cb < 0 {
      return Range;
    }
    EmbarkedResidue(a.Value(), b.Mag(), m.Mag());
    var s := c;
    if c == b || c == m {
      s := new MpInt(2 * m.used);
    }
    ExptInto(threshold, a, b, m, s);
    CopyTo(s, c);
    res := Ok;
  }
}

/** The rows of mp_int_egcd in numbers: what its loop computes, and what that is good for. */
module EgcdRows {
  import opened Digits
  import opened Powers
  import opened Barrett
  import opened GcdTheory

  /** a times b, as a sum of b terms; what is said in its terms stays linear. */
  ghost function Times(a: int, b: int): int
    decreases if b < 0 then -b else b
  {
    if b == 0 then 0 else if b > 0 then Times(a, b - 1) + a else Times(a, b + 1) - a
  }

  lemma {:induction false} TimesIs(a: int, b: int)
    ensures Times(a, b) == a * b
    decreases if b < 0 then -b else b
  {
    if b > 0 {
      TimesIs(a, b - 1);
      MulComm(a, b);
      MulDist(b - 1, 1, a);
      MulComm(a, b - 1);
    } else if b < 0 {
      TimesIs(a, b + 1);
      MulComm(a, b);
      MulDist(b, 1, a);
      MulComm(a, b + 1);
    }
  }

  /** a ou + b ov. */
  ghost function Combo(a: int, b: int, ou: int, ov: int): int { Times(a, ou) + Times(b, ov) }

  lemma {:induction false} ComboIs(a: int, b: int, ou: int, ov: int)
    ensures Combo(a, b, ou, ov) == a * ou + b * ov
  {
    TimesIs(a, ou);
    TimesIs(b, ov);
  }

  /** The fix-up before a halving: whatever the parities, both coefficients become even and the sum stays. */
  lemma {:induction false} ParityFix(a: int, b: int, ou: int, ov: int, u: int)
    requires Combo(a, b, ou, ov) == u && u % 2 == 0 && (ou % 2 == 1 || ov % 2 == 1)
    ensures Combo(a + ov, b - ou, ou, ov) == u
    ensures if a % 2 == 1 || b % 2 == 1 then (a + ov) % 2 == 0 && (b - ou) % 2 == 0 else a % 2 == 0 && b % 2 == 0
  {
    hide Combo;
    ComboIs(a, b, ou, ov);
    FixKeepsSum(a, b, ou, ov);
    OddFactors(a, ou);
    OddFactors(b, ov);
    ParityCases(a % 2, b % 2, ou % 2, ov % 2, (a * ou) % 2, (b * ov) % 2);
    EvenSum(a * ou, b * ov, u);
    EvenSum(a, ov, a + ov);
    EvenSum(b, -ou, b - ou);
  }

  lemma {:induction false} EvenSum(x: int, y: int, s: int)
    requires s == x + y
    ensures s % 2 == 0 <==> x % 2 == y % 2
  {
  }

  lemma {:induction false} ParityCases(a: int, b: int, ou: int, ov: int, p: int, q: int)
    requires (p == 1 <==> a == 1 && ou == 1) && (q == 1 <==> b == 1 && ov == 1)
    requires 0 <= a < 2 && 0 <= b < 2 && 0 <= ou < 2 && 0 <= ov < 2 && (ou == 1 || ov == 1)
    ensures (p == 1 <==> q == 1) && (a == 1 || b == 1) ==> a == ov && b == ou
  {
  }

  lemma {:induction false} FixKeepsSum(a: int, b: int, ou: int, ov: int)
    ensures Combo(a + ov, b - ou, ou, ov) == Combo(a, b, ou, ov)
  {
    hide Combo;
    ComboIs(a, b, ou, ov);
    ComboIs(a + ov, b - ou, ou, ov);
    MulDist(a, ov, ou);
    MulDist(b, -ou, ov);
    NegMul(ou, ov);
    MulComm(ou, ov);
  }

  lemma {:induction false} HalvedSum(a: int, b: int, ou: int, ov: int, u: int)
    requires Combo(2 * a, 2 * b, ou, ov) == 2 * u
    ensures Combo(a, b, ou, ov) == u
  {
    hide Combo;
    ComboIs(a, b, ou, ov);
    ComboIs(2 * a, 2 * b, ou, ov);
    MulAssoc(2, a, ou);
    MulAssoc(2, b, ov);
  }

  /** Subtracting one row from the other subtracts what they express. */
  lemma {:induction false} RowDifference(a: int, b: int, c: int, d: int, ou: int, ov: int)
    ensures Combo(a - c, b - d, ou, ov) == Combo(a, b, ou, ov) - Combo(c, d, ou, ov)
  {
    hide Combo;
    ComboIs(a, b, ou, ov);
    ComboIs(c, d, ou, ov);
    ComboIs(a - c, b - d, ou, ov);
    MulDist(a, -c, ou);
    MulDist(b, -d, ov);
    NegMul(c, ou);
    NegMul(d, ov);
  }

  /** A number expresses itself. */
  lemma {:induction false} Unit(ou: int, ov: int)
    ensures Combo(1, 0, ou, ov) == ou && Combo(0, 1, ou, ov) == ov
  {
    hide Combo;
    ComboIs(1, 0, ou, ov);
    ComboIs(0, 1, ou, ov);
  }

  lemma {:induction false} OddDifference(u: nat, v: nat, g: nat)
    requires u % 2 == 1 && v % 2 == 1 && Gcd(u, v) == g && v <= u
    ensures Gcd(u - v, v) == g && Gcd(v, u - v) == g
  {
    GcdSub(u, v);
    GcdSym(u - v, v);
  }

  /** A relation between numbers holds between their doubles. */
  lemma {:induction false} ComboScale(p: int, a: int, b: int, ou: int, ov: int)
    ensures Combo(a, b, p * ou, p * ov) == p * Combo(a, b, ou, ov)
  {
    hide Combo;
    ComboIs(a, b, p * ou, p * ov);
    ComboIs(a, b, ou, ov);
    MulComm(a, p * ou);
    MulAssoc(p, ou, a);
    MulComm(ou, a);
    MulComm(b, p * ov);
    MulAssoc(p, ov, b);
    MulComm(ov, b);
    MulComm(p, a * ou + b * ov);
    MulDist(a * ou, b * ov, p);
    MulComm(p, a * ou);
    MulComm(p, b * ov);
  }

  // ---- The loop, in numbers -------------------------------------------------

  /** A number and the coefficients that express it. */
  datatype Line = Line(n: int, a: int, b: int)

  ghost predicate Expresses(r: Line, ou: int, ov: int) { Combo(r.a, r.b, ou, ov) == r.n }

  /** The coefficients after the fix-up. */
  function Fixed(a: int, b: int, ou: int, ov: int): (int, int) {
    if a % 2 == 1 || b % 2 == 1 then (a + ov, b - ou) else (a, b)
  }

  function Halve(r: Line, ou: int, ov: int): Line {
    var (a, b) := Fixed(r.a, r.b, ou, ov);
    Line(r.n / 2, a / 2, b / 2)
  }

  /** A halving loop. */
  function Halved(r: Line, ou: int, ov: int): (h: Line)
    requires r.n > 0
    ensures 0 < h.n <= r.n && h.n % 2 == 1
    decreases r.n
  {
    if r.n % 2 == 1 then r else Halved(Halve(r, ou, ov), ou, ov)
  }

  function Minus(r: Line, s: Line): Line { Line(r.n - s.n, r.a - s.a, r.b - s.b) }

  /** One turn of the loop. */
  function Turned(r: Line, s: Line, ou: int, ov: int): (p: (Line, Line))
    requires r.n > 0 && s.n > 0
    ensures p.0.n >= 0 && p.1.n > 0 && p.0.n + p.1.n < r.n + s.n
  {
    var x, y := Halved(r, ou, ov), Halved(s, ou, ov);
    if x.n >= y.n then (Minus(x, y), y) else (x, Minus(y, x))
  }

  /** The row the loop ends with. */
  function Loop(r: Line, s: Line, ou: int, ov: int): Line
    requires r.n > 0 && s.n > 0
    decreases r.n + s.n
  {
    var (x, y) := Turned(r, s, ou, ov);
    if x.n == 0 then y else Loop(x, y, ou, ov)
  }

  /** The whole run: common twos out, then the loop from the two unit rows. */
  function EgcdOf(a: int, b: int): Line
    requires a > 0 && b > 0
  {
    if a % 2 == 0 && b % 2 == 0 then EgcdOf(a / 2, b / 2) else Loop(Line(a, 1, 0), Line(b, 0, 1), a, b)
  }

  /** The coefficients mp_int_egcd gives. */
  function Coefficients(a: int, b: int): (int, int) {
    if a == 0 then (0, 1) else if b == 0 then (1, 0)
    else var r := EgcdOf(AbsOf(a), AbsOf(b)); (r.a, r.b)
  }

  function AbsOf(a: int): (n: nat)
    ensures n == 0 <==> a == 0
  {
    if a < 0 then -a else a
  }

  /** A halving keeps what a row expresses, and divides exactly. */
  lemma {:induction false} HalveKeeps(r: Line, ou: int, ov: int)
    requires Expresses(r, ou, ov) && r.n % 2 == 0 && (ou % 2 == 1 || ov % 2 == 1)
    ensures Fixed(r.a, r.b, ou, ov).0 % 2 == 0 && Fixed(r.a, r.b, ou, ov).1 % 2 == 0
    ensures Expresses(Halve(r, ou, ov), ou, ov)
  {
    hide Combo;
    ParityFix(r.a, r.b, ou, ov, r.n);
    var h := Halve(r, ou, ov);
    var (a, b) := Fixed(r.a, r.b, ou, ov);
    assert a == 2 * h.a && b == 2 * h.b && r.n == 2 * h.n;
    HalvedSum(h.a, h.b, ou, ov, h.n);
  }

  lemma {:induction false} HalvedKeeps(r: Line, ou: int, ov: int)
    requires Expresses(r, ou, ov) && r.n > 0 && (ou % 2 == 1 || ov % 2 == 1)
    ensures Expresses(Halved(r, ou, ov), ou, ov)
    decreases r.n
  {
    hide Expresses;
    if r.n % 2 == 0 {
      HalveKeeps(r, ou, ov);
      HalvedKeeps(Halve(r, ou, ov), ou, ov);
    }
  }

  lemma {:induction false} HalvedStep(r: Line, ou: int, ov: int)
    requires r.n > 0 && r.n % 2 == 0
    ensures 0 < Halve(r, ou, ov).n < r.n && Halved(r, ou, ov) == Halved(Halve(r, ou, ov), ou, ov)
  {
  }

  lemma {:induction false} HalvedGcd(r: Line, ou: int, ov: int, w: nat)
    requires r.n > 0 && (r.n % 2 == 1 || w % 2 == 1)
    ensures Gcd(Halved(r, ou, ov).n, w) == Gcd(r.n, w)
    decreases r.n
  {
    hide Gcd;
    if r.n % 2 == 0 {
      GcdHalve(r.n / 2, w);
      HalvedGcd(Halve(r, ou, ov), ou, ov, w);
    }
  }

  lemma {:induction false} MinusKeeps(r: Line, s: Line, ou: int, ov: int)
    requires Expresses(r, ou, ov) && Expresses(s, ou, ov)
    ensures Expresses(Minus(r, s), ou, ov)
  {
    RowDifference(r.a, r.b, s.a, s.b, ou, ov);
  }

  /** Both rows at the head of the loop. */
  ghost predicate Heads(r: Line, s: Line, ou: int, ov: int) {
    && r.n > 0 && s.n > 0 && (r.n % 2 == 1 || s.n % 2 == 1) && (ou % 2 == 1 || ov % 2 == 1)
    && Expresses(r, ou, ov) && Expresses(s, ou, ov)
  }

  /** A turn keeps what both rows express, and the gcd. */
  lemma {:induction false} TurnKeeps(r: Line, s: Line, ou: int, ov: int)
    requires Heads(r, s, ou, ov)
    ensures var (x, y) := Turned(r, s, ou, ov);
      && Expresses(x, ou, ov) && Expresses(y, ou, ov) && (x.n % 2 == 1 || y.n % 2 == 1)
      && Gcd(x.n, y.n) == Gcd(r.n, s.n)
  {
    hide Gcd, Expresses;
    var x, y := Halved(r, ou, ov), Halved(s, ou, ov);
    HalvedKeeps(r, ou, ov);
    HalvedKeeps(s, ou, ov);
    HalvedGcd(r, ou, ov, s.n);
    GcdSym(x.n, s.n);
    HalvedGcd(s, ou, ov, x.n);
    GcdSym(x.n, y.n);
    if x.n >= y.n {
      OddDifference(x.n, y.n, Gcd(x.n, y.n));
      MinusKeeps(x, y, ou, ov);
    } else {
      OddDifference(y.n, x.n, Gcd(x.n, y.n));
      MinusKeeps(y, x, ou, ov);
    }
  }

  /** The loop ends with the gcd and coefficients that express it. */
  lemma {:induction false} LoopIsGcd(r: Line, s: Line, ou: int, ov: int)
    requires Heads(r, s, ou, ov)
    ensures var z := Loop(r, s, ou, ov); Expresses(z, ou, ov) && z.n == Gcd(r.n, s.n)
    decreases r.n + s.n
  {
    hide Gcd, Expresses, Turned;
    TurnKeeps(r, s, ou, ov);
    var (x, y) := Turned(r, s, ou, ov);
    GcdZero(y.n);
    if x.n > 0 {
      LoopIsGcd(x, y, ou, ov);
    }
  }

  lemma {:induction false} FirstHeads(a: int, b: int)
    requires a > 0 && b > 0 && (a % 2 == 1 || b % 2 == 1)
    ensures Heads(Line(a, 1, 0), Line(b, 0, 1), a, b)
    ensures EgcdOf(a, b) == Loop(Line(a, 1, 0), Line(b, 0, 1), a, b)
  {
    Unit(a, b);
  }

  /** The run gives the gcd, common twos taken out of it, as a combination of both numbers. */
  lemma {:induction false} RunIsGcd(a: int, b: int)
    requires a > 0 && b > 0
    ensures Combo(EgcdOf(a, b).a, EgcdOf(a, b).b, a, b) == Gcd(a, b)
    decreases a
  {
    hide Combo, Gcd, Loop;
    if a % 2 == 0 && b % 2 == 0 {
      RunIsGcd(a / 2, b / 2);
      GcdDouble(a / 2, b / 2);
      ComboScale(2, EgcdOf(a, b).a, EgcdOf(a, b).b, a / 2, b / 2);
    } else {
      FirstHeads(a, b);
      LoopIsGcd(Line(a, 1, 0), Line(b, 0, 1), a, b);
    }
  }

  /** Common factors of two do not count. */
  lemma {:induction false} TwosOut(k: nat, a: int, b: int)
    requires a > 0 && b > 0
    ensures Pow2(k) * a > 0 && Pow2(k) * b > 0 && EgcdOf(Pow2(k) * a, Pow2(k) * b) == EgcdOf(a, b)
  {
    hide Loop;
    MulMono(1, Pow2(k), a);
    MulMono(1, Pow2(k), b);
    if k > 0 {
      TwosOut(k - 1, a, b);
      MulAssoc(2, Pow2(k - 1), a);
      MulAssoc(2, Pow2(k - 1), b);
    }
  }

  lemma {:induction false} ZeroCoefficients(a: int, b: int)
    ensures a == 0 ==> Coefficients(a, b) == (0, 1)
    ensures a != 0 && b == 0 ==> Coefficients(a, b) == (1, 0)
  {
  }

  /** The coefficients express the gcd in the absolute values. */
  lemma {:induction false} CoefficientsExpress(a: int, b: int)
    requires a != 0 || b != 0
    ensures var (x, y) := Coefficients(a, b); Combo(x, y, AbsOf(a), AbsOf(b)) == Gcd(AbsOf(a), AbsOf(b))
  {
    hide Combo, Gcd, EgcdOf;
    var p, q := AbsOf(a), AbsOf(b);
    Unit(p, q);
    GcdZero(p);
    GcdZero(q);
    if a != 0 && b != 0 {
      RunIsGcd(p, q);
    }
  }

  // ---- When a coefficient is zero -------------------------------------------

  /** Halving keeps an odd divisor. */
  lemma {:induction false} HalvedDivides(d: int, r: Line, ou: int, ov: int)
    requires r.n > 0 && d % 2 == 1 && d > 0 && Divides(d, r.n)
    ensures Divides(d, Halved(r, ou, ov).n) && d <= Halved(r, ou, ov).n
    decreases r.n
  {
    hide Divides;
    DivisorBound(d, r.n);
    if r.n % 2 == 0 {
      OddDivisor(d, r.n / 2);
      HalvedDivides(d, Halve(r, ou, ov), ou, ov);
    }
  }

  lemma {:induction false} DividesDifference(d: int, x: int, y: int)
    requires Divides(d, x) && Divides(d, y)
    ensures Divides(d, x - y)
  {
    DividesSum(d, x, y, -1);
  }

  /** An odd second number that divides the first is only ever subtracted, so its row stays. */
  lemma {:induction false} SecondStays(r: Line, ou: int, ov: int)
    requires r.n > 0 && ov > 0 && ov % 2 == 1 && Divides(ov, r.n)
    ensures Loop(r, Line(ov, 0, 1), ou, ov) == Line(ov, 0, 1)
    decreases r.n
  {
    hide Divides;
    var s, x := Line(ov, 0, 1), Halved(r, ou, ov);
    HalvedDivides(ov, r, ou, ov);
    DividesSelf(ov);
    DividesDifference(ov, x.n, ov);
    if x.n > ov {
      SecondStays(Minus(x, s), ou, ov);
    }
  }

  lemma {:induction false} EvenDivides(d: int, n: int)
    ensures Divides(d, n) && d % 2 == 0 ==> n % 2 == 0 && Divides(d / 2, n / 2)
  {
    if Divides(d, n) && d % 2 == 0 {
      var k :| n == d * k;
      MulAssoc(2, d / 2, k);
      assert n / 2 == d / 2 * k;
    }
  }

  /** The first coefficient is zero exactly when the second number divides the first. */
  lemma {:induction false} FirstIsZero(a: int, b: int)
    requires a > 0 && b > 0
    ensures EgcdOf(a, b).a == 0 <==> Divides(b, a)
  {
    hide Divides, Gcd;
    if EgcdOf(a, b).a == 0 {
      RunIsGcd(a, b);
      ComboIs(EgcdOf(a, b).a, EgcdOf(a, b).b, a, b);
      MulComm(EgcdOf(a, b).b, b);
      GcdDivides(a, b);
      MultipleDivides(b, EgcdOf(a, b).b, Gcd(a, b));
      MutualDivisors(b, Gcd(a, b));
    }
    if Divides(b, a) {
      FirstZeroRun(a, b);
    }
  }

  lemma {:induction false} MultipleDivides(d: int, k: int, n: int)
    requires n == d * k
    ensures Divides(d, n)
  {
  }

  lemma {:induction false} FirstZeroRun(a: int, b: int)
    requires a > 0 && b > 0 && Divides(b, a)
    ensures EgcdOf(a, b).a == 0
    decreases a
  {
    hide Divides;
    EvenDivides(b, a);
    if a % 2 == 0 && b % 2 == 0 {
      FirstZeroRun(a / 2, b / 2);
    } else {
      SecondStays(Line(a, 1, 0), a, b);
    }
  }

  /** d times some power of two is 1 modulo ou. */
  ghost predicate Invertible(d: int, ou: int) {
    exists j: nat, z: int :: InvertibleBy(d, ou, j, z)
  }

  ghost predicate InvertibleBy(d: int, ou: int, j: nat, z: int) { Times(Pow2(j), d) == 1 + Times(z, ou) }

  lemma {:induction false} HalfInvertible(d: int, h: int, ou: int)
    requires Invertible(d, ou) && (2 * h == d || 2 * h == d - ou)
    ensures Invertible(h, ou)
  {
    hide Pow2;
    var j: nat, z: int :| InvertibleBy(d, ou, j, z);
    var p: int := Pow2(j);
    TimesIs(p, d);
    TimesIs(z, ou);
    TimesIs(2 * p, h);
    TimesIs(z - p, ou);
    Pow2Add(j, 1);
    OnePower();
    MulAssoc(p, 2, h);
    MulComm(p, d - ou);
    MulDist(d, -ou, p);
    NegMul(ou, p);
    MulComm(p, d);
    MulComm(p, ou);
    MulDist(z, -p, ou);
    NegMul(p, ou);
    assert InvertibleBy(h, ou, j + 1, if 2 * h == d then z else z - p);
  }

  lemma {:induction false} OnePower()
    ensures Pow2(0) == 1 && Pow2(1) == 2
  {
    assert Pow2(1) == 2 * Pow2(0);
  }

  lemma {:induction false} HalvedInvertible(r: Line, ou: int, ov: int)
    requires r.n > 0 && Expresses(r, ou, ov) && ou % 2 == 1 && Invertible(r.b, ou)
    ensures Invertible(Halved(r, ou, ov).b, ou)
    decreases r.n
  {
    hide Invertible, Expresses;
    if r.n % 2 == 0 {
      HalveKeeps(r, ou, ov);
      HalfInvertible(r.b, Halve(r, ou, ov).b, ou);
      HalvedInvertible(Halve(r, ou, ov), ou, ov);
    }
  }

  /** An odd first number that divides the second is only ever subtracted, so modulo it the second coefficient stays
      invertible. */
  lemma {:induction false} StaysInvertible(s: Line, ou: int, ov: int)
    requires s.n > 0 && ou > 0 && ou % 2 == 1 && Divides(ou, s.n) && Expresses(s, ou, ov) && Invertible(s.b, ou)
    ensures Invertible(Loop(Line(ou, 1, 0), s, ou, ov).b, ou)
    decreases s.n
  {
    hide Divides, Invertible, Expresses;
    var r, y := Line(ou, 1, 0), Halved(s, ou, ov);
    HalvedDivides(ou, s, ou, ov);
    HalvedInvertible(s, ou, ov);
    HalvedKeeps(s, ou, ov);
    DividesSelf(ou);
    DividesDifference(ou, y.n, ou);
    FirstRow(ou, ov);
    MinusKeeps(y, r, ou, ov);
    if y.n > ou {
      StaysInvertible(Minus(y, r), ou, ov);
    }
  }

  lemma {:induction false} FirstRow(ou: int, ov: int)
    ensures Expresses(Line(ou, 1, 0), ou, ov) && Expresses(Line(ov, 0, 1), ou, ov)
  {
    Unit(ou, ov);
  }

  lemma {:induction false} ZeroInvertible(ou: int)
    requires Invertible(0, ou) && ou > 0
    ensures ou == 1
  {
    hide Pow2, Times;
    var j: nat, z: int :| InvertibleBy(0, ou, j, z);
    TimesIs(Pow2(j), 0);
    TimesIs(z, ou);
    MulComm(Pow2(j), 0);
    MulComm(z, ou);
    NegMul(z, ou);
    MulComm(-z, ou);
    MultipleDivides(ou, -z, 1);
    DivisorBound(ou, 1);
  }

  /** Where the second row can be when the first number is one: its second coefficient is zero after the first halving. */
  ghost predicate OneRow(s: Line, b: int) {
    || (s.b == 0 && s.a == s.n)
    || s == Line(b, 0, 1)
    || (b % 2 == 1 && s == Line(b - 1, -1, 1))
  }

  lemma {:induction false} HalvedToZero(s: Line, b: int)
    requires s.n > 0 && s.b == 0 && s.a == s.n
    ensures Halved(s, 1, b).b == 0 && Halved(s, 1, b).a == Halved(s, 1, b).n
    decreases s.n
  {
    if s.n % 2 == 0 {
      HalvedToZero(Halve(s, 1, b), b);
    }
  }

  lemma {:induction false} OneRowHalved(s: Line, b: int)
    requires s.n > 0 && OneRow(s, b) && b > 1
    ensures var y := Halved(s, 1, b); (y.b == 0 && y.a == y.n) || (y == Line(b, 0, 1) && b % 2 == 1)
  {
    if s.b == 0 {
      HalvedToZero(s, b);
    } else if s.n % 2 == 0 {
      HalvedToZero(Halve(s, 1, b), b);
    }
  }

  /** With one as first number and more than one as second, the second coefficient ends as zero. */
  lemma {:induction false} OneEndsZero(s: Line, b: int)
    requires s.n > 0 && OneRow(s, b) && b > 1
    ensures Loop(Line(1, 1, 0), s, 1, b).b == 0
    decreases s.n
  {
    var y := Halved(s, 1, b);
    OneRowHalved(s, b);
    if y.n > 1 {
      OneEndsZero(Minus(y, Line(1, 1, 0)), b);
    }
  }

  ghost predicate IsPower(a: int) {
    exists j: nat :: a == Pow2(j)
  }

  lemma {:induction false} HalfPower(a: int)
    requires a > 0
    ensures a % 2 == 0 ==> (IsPower(a) <==> IsPower(a / 2))
    ensures a % 2 == 1 ==> (IsPower(a) <==> a == 1)
  {
    OnePower();
    if IsPower(a) {
      var j: nat :| a == Pow2(j);
      if j > 0 {
        assert a / 2 == Pow2(j - 1);
      }
    }
    if a % 2 == 0 && IsPower(a / 2) {
      var j: nat :| a / 2 == Pow2(j);
      assert a == Pow2(j + 1);
    }
    assert a == 1 ==> a == Pow2(0);
  }

  lemma {:induction false} HalvesDivide(a: int, b: int)
    requires a % 2 == 0 && b % 2 == 0
    ensures Divides(a / 2, b / 2) <==> Divides(a, b)
  {
    EvenDivides(a, b);
    if Divides(a / 2, b / 2) {
      var k :| b / 2 == a / 2 * k;
      MulAssoc(2, a / 2, k);
      assert b == a * k;
    }
  }

  lemma {:induction false} SecondZeroNeeds(a: int, b: int)
    requires a > 0 && b > 0 && (a % 2 == 1 || b % 2 == 1) && EgcdOf(a, b).b == 0
    ensures a == 1 && Divides(a, b) && a < b
  {
    hide Divides, Gcd, Loop, Invertible;
    RunIsGcd(a, b);
    ComboIs(EgcdOf(a, b).a, EgcdOf(a, b).b, a, b);
    MulComm(EgcdOf(a, b).a, a);
    GcdDivides(a, b);
    MultipleDivides(a, EgcdOf(a, b).a, Gcd(a, b));
    MutualDivisors(a, Gcd(a, b));
    EvenDivides(a, b);
    OneInvertible(a);
    FirstRow(a, b);
    StaysInvertible(Line(b, 0, 1), a, b);
    ZeroInvertible(a);
    if b == 1 {
      OneByOne();
    }
  }

  lemma {:induction false} OneInvertible(ou: int)
    ensures Invertible(1, ou)
  {
    TimesIs(1, 1);
    TimesIs(0, ou);
    OnePower();
    assert InvertibleBy(1, ou, 0, 0);
  }

  lemma {:induction false} OneByOne()
    ensures EgcdOf(1, 1) == Line(1, 0, 1)
  {
  }

  /** The second coefficient is zero exactly when the first number is a power of two that divides the second and is less. */
  lemma {:induction false} SecondIsZero(a: int, b: int)
    requires a > 0 && b > 0
    ensures EgcdOf(a, b).b == 0 <==> IsPower(a) && Divides(a, b) && a < b
    decreases a
  {
    hide Divides, Gcd, IsPower, Loop;
    HalfPower(a);
    if a % 2 == 0 && b % 2 == 0 {
      SecondIsZero(a / 2, b / 2);
      HalvesDivide(a, b);
    } else {
      EvenDivides(a, b);
      if EgcdOf(a, b).b == 0 {
        SecondZeroNeeds(a, b);
      }
      if IsPower(a) && Divides(a, b) && a < b {
        OneEndsZero(Line(b, 0, 1), b);
      }
    }
  }

  lemma {:induction false} Negated(x: int, a: int)
    ensures x * (-a) == -(x * a)
  {
    MulComm(x, -a);
    NegMul(a, x);
    MulComm(a, x);
  }

  /** When the sum with one sign changed is still g, the changed part was zero. */
  lemma {:induction false} SignedSum(x: int, y: int, a: int, b: int)
    ensures Combo(x, y, -a, b) == Combo(x, y, a, b) - 2 * (x * a)
    ensures Combo(x, y, a, -b) == Combo(x, y, a, b) - 2 * (y * b)
    ensures Combo(x, y, -a, -b) == -Combo(x, y, a, b)
    ensures (a != 0 ==> (x * a == 0 <==> x == 0)) && (b != 0 ==> (y * b == 0 <==> y == 0))
  {
    hide Combo;
    ComboIs(x, y, a, b);
    ComboIs(x, y, -a, b);
    ComboIs(x, y, a, -b);
    ComboIs(x, y, -a, -b);
    Negated(x, a);
    Negated(y, b);
    ZeroProduct(x, a);
    ZeroProduct(y, b);
  }

  lemma {:induction false} ZeroProduct(x: int, a: int)
    ensures x * a == 0 <==> x == 0 || a == 0
  {
  }

  lemma {:induction false} NegatedDivides(d: int, n: int)
    ensures Divides(d, n) <==> Divides(d, -n)
  {
    if Divides(d, n) {
      var k :| n == d * k;
      Negated(d, k);
      assert -n == d * (-k);
    }
    if Divides(d, -n) {
      var k :| -n == d * k;
      Negated(d, k);
      assert n == d * (-k);
    }
  }

  /** What the comment of mp_int_egcd promises, c = ax + by with the signed operands, holds exactly for operands that are not
      negative, for a negative a that b divides, and for a negative b larger than a power of two a that divides it. */
  lemma {:induction false} PromiseHoldsExactly(a: int, b: int)
    requires a != 0 || b != 0
    ensures var (x, y) := Coefficients(a, b);
      Combo(x, y, a, b) == Gcd(AbsOf(a), AbsOf(b)) <==>
        || (a >= 0 && b >= 0)
        || (a < 0 < b && Divides(b, a))
        || (b < 0 < a && IsPower(a) && Divides(a, b) && a < -b)
  {
    hide Combo, Gcd, Divides, IsPower;
    var (x, y) := Coefficients(a, b);
    var p, q := AbsOf(a), AbsOf(b);
    CoefficientsExpress(a, b);
    if a != 0 && b != 0 {
      FirstIsZero(p, q);
      SecondIsZero(p, q);
    }
    SignedSum(x, y, p, q);
    NegatedDivides(b, a);
    NegatedDivides(a, b);
  }

  // ---- How large a coefficient can get --------------------------------------

  /** The loop adds at most half the second number to a bound of the first coefficient in every halving loop. */
  lemma {:induction false} HalvedBound(r: Line, ou: int, ov: int, x: int)
    requires r.n > 0 && Expresses(r, ou, ov) && (ou % 2 == 1 || ov % 2 == 1) && 0 < ov <= x && -x <= r.a <= x
    ensures var h := Halved(r, ou, ov).a; if r.n % 2 == 1 then h == r.a else -(x + ov) <= 2 * h <= x + ov
    decreases r.n
  {
    hide Expresses;
    if r.n % 2 == 0 {
      var h := Halve(r, ou, ov);
      HalveKeeps(r, ou, ov);
      assert 2 * h.a == Fixed(r.a, r.b, ou, ov).0;
      if h.n % 2 == 0 {
        HalvedBound(h, ou, ov, (x + ov) / 2);
      }
    }
  }

  /** A row at the head of the loop: within x, and within half of it when its number is odd. */
  ghost predicate Within(r: Line, x: int) {
    -x <= r.a <= x && (r.n % 2 == 1 ==> -x <= 2 * r.a <= x)
  }

  /** The numbers without one factor of two; their sum is halved by every turn. */
  ghost function Size(r: Line): int { if r.n % 2 == 0 then r.n / 2 else r.n }

  lemma {:induction false} HalvedSize(r: Line, ou: int, ov: int)
    requires r.n > 0
    ensures Halved(r, ou, ov).n <= Size(r)
  {
  }

  lemma {:induction false} MinusBound(y: Line, z: Line, x: int)
    requires y.n % 2 == 1 && z.n % 2 == 1 && 0 < z.n <= y.n && -x <= 2 * y.a <= x && -x <= 2 * z.a <= x
    ensures Within(Minus(y, z), x) && Within(z, x) && 2 * (Size(Minus(y, z)) + Size(z)) == y.n + z.n
  {
  }

  lemma {:induction false} TurnBound(r: Line, s: Line, ou: int, ov: int, x: int)
    requires Heads(r, s, ou, ov) && 0 < ov <= x && Within(r, x) && Within(s, x)
    ensures var (y, z) := Turned(r, s, ou, ov);
      Within(y, x + ov) && Within(z, x + ov) && 2 * (Size(y) + Size(z)) <= Size(r) + Size(s)
      && (y.n == 0 ==> -(x + ov) <= 2 * z.a <= x + ov)
  {
    hide Expresses, Halved, Size;
    var y, z := Halved(r, ou, ov), Halved(s, ou, ov);
    HalvedBound(r, ou, ov, x);
    HalvedBound(s, ou, ov, x);
    HalvedSize(r, ou, ov);
    HalvedSize(s, ou, ov);
    if y.n >= z.n {
      MinusBound(y, z, x + ov);
    } else {
      MinusBound(z, y, x + ov);
    }
  }

  /** The loop makes at most as many turns as the sum of the numbers has bits. */
  lemma {:induction false} LoopBound(r: Line, s: Line, ou: int, ov: int, x: int, w: nat)
    requires Heads(r, s, ou, ov) && 0 < ov <= x && Within(r, x) && Within(s, x) && Size(r) + Size(s) <= Pow2(w)
    ensures var z := Loop(r, s, ou, ov).a; -(x + Times(ov, w)) <= 2 * z <= x + Times(ov, w)
    decreases w
  {
    hide Expresses, Turned, Within, Size;
    var (y, z) := Turned(r, s, ou, ov);
    TurnKeeps(r, s, ou, ov);
    TurnBound(r, s, ou, ov, x);
    SizePositive(r);
    SizePositive(s);
    assert w >= 1 by {
      OnePower();
    }
    TimesIs(ov, w - 1);
    MulMono(0, w - 1, ov);
    MulComm(ov, w - 1);
    if y.n > 0 {
      LoopBound(y, z, ou, ov, x + ov, w - 1);
    }
  }

  lemma {:induction false} SizePositive(r: Line)
    requires r.n > 0
    ensures Size(r) >= 1
  {
  }

  /** The first coefficient is at most half as many times the second number as both have bits. */
  lemma {:induction false} CoefficientBound(a: int, b: int, w: nat)
    requires a > 0 && b > 0 && a + b <= Pow2(w)
    ensures -((w + 2) * b) <= 2 * EgcdOf(a, b).a <= (w + 2) * b
    decreases a
  {
    hide Loop, Expresses;
    if a % 2 == 0 && b % 2 == 0 {
      CoefficientBound(a / 2, b / 2, w);
      MulMono(b / 2, b, w + 2);
      MulComm(b, w + 2);
      MulComm(b / 2, w + 2);
    } else {
      FirstHeads(a, b);
      TimesIs(b, w);
      MulComm(b, w);
      MulDist(w, 2, b);
      LoopBound(Line(a, 1, 0), Line(b, 0, 1), a, b, 2 * b, w);
    }
  }
}

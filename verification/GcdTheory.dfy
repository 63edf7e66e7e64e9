/** Divisibility, the greatest common divisor, and the steps binary gcd algorithms take. */
module GcdTheory {
  import opened Digits
  import opened Powers
  import opened Barrett

  ghost predicate Divides(d: int, n: int) {
    exists k: int :: n == d * k
  }

  /** Euclid's gcd of natural numbers; the reference for the binary algorithms. */
  ghost function Gcd(a: nat, b: nat): (g: nat)
    ensures a > 0 || b > 0 ==> g > 0
    decreases b
  {
    if b == 0 then a else Gcd(b, a % b)
  }

  lemma {:induction false} DividesSum(d: int, x: int, y: int, s: int)
    requires Divides(d, x) && Divides(d, y)
    ensures Divides(d, x + s * y)
  {
    var j :| x == d * j;
    var k :| y == d * k;
    MulAssoc(s, d, k);
    MulComm(s, d);
    MulAssoc(d, s, k);
    MulComm(d, j + s * k);
    MulDist(j, s * k, d);
    MulComm(d, j);
    MulComm(d, s * k);
    assert x + s * y == d * (j + s * k);
  }

  lemma {:induction false} DividesSelf(d: int)
    ensures Divides(d, d) && Divides(d, 0)
  {
    assert d == d * 1;
    assert 0 == d * 0;
  }

  /** The gcd divides both numbers. */
  lemma {:induction false} GcdDivides(a: nat, b: nat)
    ensures Divides(Gcd(a, b), a) && Divides(Gcd(a, b), b)
    decreases b
  {
    if b == 0 {
      DividesSelf(a);
    } else {
      GcdDivides(b, a % b);
      DividesSum(Gcd(a, b), a % b, b, a / b);
      MulComm(b, a / b);
    }
  }

  /** Every common divisor divides the gcd. */
  lemma {:induction false} GcdGreatest(d: int, a: nat, b: nat)
    requires Divides(d, a) && Divides(d, b)
    ensures Divides(d, Gcd(a, b))
    decreases b
  {
    if b > 0 {
      DividesSum(d, a, b, -(a / b));
      MulComm(b, a / b);
      NegMul(a / b, b);
      assert a + -(a / b) * b == a % b;
      GcdGreatest(d, b, a % b);
    }
  }

  lemma {:induction false} MutualDivisors(x: int, y: int)
    requires 0 < x && 0 < y && Divides(x, y) && Divides(y, x)
    ensures x == y
  {
    DivisorBound(x, y);
    DivisorBound(y, x);
  }

  lemma {:induction false} DivisorBound(d: int, n: int)
    requires 0 < d && 0 < n && Divides(d, n)
    ensures d <= n
  {
    var k :| n == d * k;
    MulComm(d, k);
    if k <= 0 {
      MulMono(k, 0, d);
      assert false;
    }
    MulMono(1, k, d);
  }

  /** What divides both and is divided by every common divisor is the gcd. */
  lemma {:induction false} GcdUnique(g: int, a: nat, b: nat)
    requires g > 0 && Divides(g, a) && Divides(g, b) && (a > 0 || b > 0)
    requires Divides(Gcd(a, b), g)
    ensures g == Gcd(a, b)
  {
    GcdGreatest(g, a, b);
    MutualDivisors(g, Gcd(a, b));
  }

  lemma {:induction false} GcdSym(a: nat, b: nat)
    ensures Gcd(a, b) == Gcd(b, a)
  {
    if a == 0 && b == 0 {
    } else {
      GcdDivides(a, b);
      GcdDivides(b, a);
      GcdGreatest(Gcd(a, b), b, a);
      GcdGreatest(Gcd(b, a), a, b);
      MutualDivisors(Gcd(a, b), Gcd(b, a));
    }
  }

  lemma {:induction false} GcdZero(a: nat)
    ensures Gcd(a, 0) == a && Gcd(0, a) == a
  {
    GcdSym(a, 0);
  }

  lemma {:induction false} GcdSub(a: nat, b: nat)
    requires b <= a && (a > 0 || b > 0)
    ensures Gcd(a - b, b) == Gcd(a, b)
  {
    var g, h := Gcd(a, b), Gcd(a - b, b);
    GcdDivides(a, b);
    DividesSum(g, a, b, -1);
    GcdDivides(a - b, b);
    DividesSum(h, a - b, b, 1);
    GcdGreatest(g, a - b, b);
    GcdUnique(h, a, b);
  }

  lemma {:induction false} OddFactors(x: int, y: int)
    ensures (x * y) % 2 == 1 <==> x % 2 == 1 && y % 2 == 1
  {
    var h, k := x / 2, y / 2;
    var r, s := x % 2, y % 2;
    assert x == 2 * h + r && y == 2 * k + s;
    MulDist(2 * h, r, y);
    assert (2 * h) * y == 2 * (h * y);
    assert r * y == if r == 0 then 0 else y;
  }

  /** An odd divisor of 2a divides a. */
  lemma {:induction false} OddDivisor(d: int, a: int)
    requires d % 2 == 1 && Divides(d, 2 * a)
    ensures Divides(d, a)
  {
    var k :| 2 * a == d * k;
    OddFactors(d, k);
    var h := k / 2;
    assert k == 2 * h;
    MulAssoc(d, 2, h);
    assert a == d * h;
  }

  /** A factor 2 of one number does not count when the other is odd. */
  lemma {:induction false} GcdHalve(a: nat, b: nat)
    requires b % 2 == 1
    ensures Gcd(2 * a, b) == Gcd(a, b)
  {
    var g, h := Gcd(2 * a, b), Gcd(a, b);
    GcdDivides(2 * a, b);
    GcdDivides(a, b);
    var k :| b == g * k;
    OddFactors(g, k);
    OddDivisor(g, a);
    GcdGreatest(g, a, b);
    DividesSum(h, a, a, 1);
    assert a + 1 * a == 2 * a;
    GcdUnique(h, 2 * a, b);
  }

  lemma {:induction false} GcdHalves(k: nat, a: nat, b: nat)
    requires b % 2 == 1
    ensures Gcd(Pow2(k) * a, b) == Gcd(a, b)
  {
    if k > 0 {
      GcdHalves(k - 1, a, b);
      MulAssoc(2, Pow2(k - 1), a);
      GcdHalve(Pow2(k - 1) * a, b);
    }
  }

  /** A common power of two comes out. */
  lemma {:induction false} GcdDouble(a: nat, b: nat)
    ensures Gcd(2 * a, 2 * b) == 2 * Gcd(a, b)
    decreases b
  {
    if b > 0 {
      assert (2 * a) % (2 * b) == 2 * (a % b) by {
        MulAssoc(2, b, a / b);
        DivUnique(2 * a, 2 * b, a / b, 2 * (a % b));
      }
      GcdDouble(b, a % b);
    }
  }

  lemma {:induction false} GcdScale(k: nat, a: nat, b: nat)
    ensures Gcd(Pow2(k) * a, Pow2(k) * b) == Pow2(k) * Gcd(a, b)
  {
    if k > 0 {
      GcdScale(k - 1, a, b);
      MulAssoc(2, Pow2(k - 1), a);
      MulAssoc(2, Pow2(k - 1), b);
      MulAssoc(2, Pow2(k - 1), Gcd(a, b));
      GcdDouble(Pow2(k - 1) * a, Pow2(k - 1) * b);
    }
  }
}

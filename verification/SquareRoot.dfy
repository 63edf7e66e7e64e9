/** mp_int_sqrt: Newton's iteration, and exactly when its early exit misses the square root. */
module SquareRoot {
  import opened Digits
  import opened Buffers
  import opened Powers
  import opened MpInts
  import opened Signed
  import opened Squaring
  import opened Shifts
  import opened Barrett
  import opened Quotients
  import opened QuotientRoom
  import opened Division

  /** n times n, as a sum of odd numbers. */
  ghost function Square(n: nat): nat { if n == 0 then 0 else Square(n - 1) + 2 * n - 1 }

  lemma {:induction false} SquareIs(n: nat)
    ensures Square(n) == n * n
  {
    if n > 0 {
      SquareIs(n - 1);
      MulDist(n - 1, 1, n);
      MulComm(n - 1, n);
      MulDist(n, -1, n - 1);
    }
  }

  /** a / x, by subtraction. */
  ghost function Over(a: nat, x: nat): nat
    requires x > 0
  {
    if a < x then 0 else 1 + Over(a - x, x)
  }

  lemma {:induction false} OverIs(a: nat, x: nat)
    requires x > 0
    ensures Over(a, x) == a / x
    decreases a
  {
    if a >= x {
      OverIs(a - x, x);
      DivBounds(a - x, x);
      MulComm(x, (a - x) / x + 1);
      MulDist((a - x) / x, 1, x);
      MulComm(x, (a - x) / x);
      DivUnique(a, x, (a - x) / x + 1, a - x - x * ((a - x) / x));
    } else {
      DivUnique(a, x, 0, a);
    }
  }

  /** s is the square root of a, rounded down. */
  ghost predicate Root(a: nat, s: nat) {
    Square(s) <= a < Square(s + 1)
  }

  /** a is one less than the square after s. */
  ghost predicate OneShort(a: nat, s: nat) { a + 1 == Square(s + 1) }

  /** One step of the iteration. */
  ghost function Newton(a: nat, x: nat): nat
    requires x > 0
  {
    (x + Over(a, x)) / 2
  }

  /** The values the iteration goes through from a on. */
  ghost function Iterate(a: nat, n: nat): nat {
    if n == 0 then a
    else var x := Iterate(a, n - 1); if x == 0 then 0 else Newton(a, x)
  }

  /** a is one less than a square, and the iteration meets the number after that square's root. */
  ghost predicate Early(a: nat, s: nat) {
    s >= 1 && OneShort(a, s) && exists n: nat :: Iterate(a, n) == s + 2
  }

  lemma {:induction false} SquareMono(x: nat, y: nat)
    requires x <= y
    ensures Square(x) <= Square(y) && x <= Square(x)
    decreases y
  {
    if x < y {
      SquareMono(x, y - 1);
    } else if y > 0 {
      SquareMono(x - 1, y - 1);
    }
  }

  /** Of two numbers with a given sum the product is at most the square of half of it, and less when they differ. */
  lemma {:induction false} MeanSquare(x: int, y: int, s: int)
    requires x + y == 2 * s
    ensures x * y <= s * s && (x != s ==> x * y < s * s)
  {
    NegProduct(s, s - x);
    SquarePositive(s - x);
  }

  lemma {:induction false} NegProduct(s: int, d: int)
    ensures (s - d) * (s + d) == s * s - d * d
  {
  }

  lemma {:induction false} SquarePositive(d: int)
    ensures d * d >= 0 && (d != 0 ==> d * d > 0)
  {
  }

  /** A step does not fall below t when a is at least its square, nor, from elsewhere than t, when a is one less. */
  lemma {:induction false} NotBelow(a: nat, x: nat, t: nat)
    requires x > 0 && Square(t) <= a + 1 && (x != t || Square(t) <= a)
    ensures Newton(a, x) >= t
  {
    hide Over, Square;
    var q := a / x;
    OverIs(a, x);
    SquareIs(t);
    DivBounds(a, x);
    MulDist(q, 1, x);
    MulComm(x, q);
    assert (q + 1) * x >= a + 1;
    if x + q + 1 <= 2 * t {
      MeanSquare(x, 2 * t - x, t);
      MulMono(q + 1, 2 * t - x, x);
      MulComm(x, 2 * t - x);
      assert false;
    }
  }

  /** From above the square root a step goes down. */
  lemma {:induction false} Falls(a: nat, x: nat, s: nat)
    requires Root(a, s) && x > s
    ensures Newton(a, x) < x
  {
    hide Over, Square;
    OverIs(a, x);
    DivBounds(a, x);
    SquareMono(s + 1, x);
    SquareIs(x);
    if a / x >= x {
      MulMono(x, a / x, x);
      MulComm(x, a / x);
      assert false;
    }
  }

  /** At the square root a step stays, or goes up by one when a is one less than a square. */
  lemma {:induction false} AtRoot(a: nat, s: nat)
    requires Root(a, s) && s > 0
    ensures Newton(a, s) == if OneShort(a, s) then s + 1 else s
  {
    hide Over, Square;
    var q := a / s;
    OverIs(a, s);
    NextSquare(s);
    SquareIs(s);
    DivBounds(a, s);
    MulComm(s, q);
    MulDist(s, 2, s);
    MulDist(s, 3, s);
    if q < s {
      MulMono(q + 1, s, s);
      MulDist(q, 1, s);
      assert false;
    }
    if q >= s + 3 {
      MulMono(s + 3, q, s);
      assert false;
    }
    if OneShort(a, s) {
      MulComm(s, s + 2);
      DivUnique(a, s, s + 2, 0);
    } else if q == s + 2 {
      assert false;
    }
  }

  lemma {:induction false} NextSquare(s: nat)
    ensures Square(s + 1) == Square(s) + 2 * s + 1
  {
  }

  /** Where a step goes down by one, the number is at least one less than the square of where it arrives. */
  lemma {:induction false} LargeQuotient(a: nat, x: nat)
    requires x > 0 && Newton(a, x) == x - 1
    ensures a + 1 >= Square(x - 1)
  {
    hide Over, Square;
    var q := a / x;
    OverIs(a, x);
    DivBounds(a, x);
    if x >= 2 {
      MulMono(x - 2, q, x);
      MulComm(x, q);
      SquareIs(x - 2);
      NextSquare(x - 2);
      MulDist(x - 2, 2, x - 2);
      MulComm(x - 2, x);
    } else {
      SquareIs(0);
    }
  }

  /** A step down by one comes from just above the square root, or from two above when a is one less than a square. */
  lemma {:induction false} ByOne(a: nat, x: nat, s: nat)
    requires Root(a, s) && x > s && Newton(a, x) == x - 1
    ensures x == s + 1 || (x == s + 2 && OneShort(a, s))
  {
    hide Newton, Square;
    LargeQuotient(a, x);
    NextSquare(s + 1);
    if x >= s + 3 {
      SquareMono(s + 2, x - 1);
      assert false;
    }
  }

  lemma {:induction false} TwoAbove(a: nat, s: nat)
    requires OneShort(a, s)
    ensures Root(a, s) && Newton(a, s + 2) == s + 1 && Newton(a, s + 1) == s
  {
    hide Over, Square;
    NextSquare(s);
    SquareIs(s);
    MulDist(s, 2, s);
    MulComm(s + 2, s);
    OverIs(a, s + 2);
    DivUnique(a, s + 2, s, 0);
    MulDist(s, 1, s);
    MulComm(s + 1, s);
    OverIs(a, s + 1);
    DivUnique(a, s + 1, s, s);
  }

  lemma {:induction false} IterateStep(a: nat, n: nat)
    requires Iterate(a, n) > 0
    ensures Iterate(a, n + 1) == Newton(a, Iterate(a, n))
  {
  }

  /** Once just above the square root or at it, the iteration stays there. */
  lemma {:induction false} StaysLow(a: nat, s: nat, n: nat, m: nat)
    requires s >= 1 && OneShort(a, s) && Iterate(a, n) == s + 1 && m >= n
    ensures s <= Iterate(a, m) <= s + 1
  {
    hide Newton, Iterate, Root, OneShort;
    if m > n {
      StaysLow(a, s, n, m - 1);
      TwoAbove(a, s);
      AtRoot(a, s);
      IterateStep(a, m - 1);
    }
  }

  /** Where the iteration stands: above the square root, and not past the number that decides. */
  ghost predicate Standing(a: nat, s: nat, x: nat, n: nat) {
    && Root(a, s) && x == Iterate(a, n) && x >= s
    && (OneShort(a, s) && s >= 1 ==> x > s && forall m: nat :: m < n ==> Iterate(a, m) != s + 2)
  }

  lemma {:induction false} Starts(a: nat, s: nat)
    requires Root(a, s)
    ensures Standing(a, s, a, 0)
  {
    SquareMono(s, s);
    NextSquare(s);
  }

  /** The iteration ends on an exact square root. */
  lemma {:induction false} EndsExact(a: nat, s: nat, x: nat, n: nat)
    requires Standing(a, s, x, n) && Square(x) == a
    ensures x == s && !Early(a, s)
  {
    hide Iterate;
    NextSquare(s);
    if x > s {
      SquareMono(s + 1, x);
    }
  }

  /** The iteration ends when a step stays. */
  lemma {:induction false} EndsStill(a: nat, s: nat, x: nat, n: nat)
    requires Standing(a, s, x, n) && x > 0 && Newton(a, x) == x
    ensures x == s && !Early(a, s)
  {
    hide Newton, Iterate, Square;
    if x > s {
      Falls(a, x, s);
    } else {
      AtRoot(a, s);
    }
  }

  /** The iteration ends when a step goes down by one: where it arrives is the square root, or one more in the early case. */
  lemma {:induction false} EndsByOne(a: nat, s: nat, x: nat, n: nat)
    requires Standing(a, s, x, n) && x > 0 && Newton(a, x) == x - 1
    ensures x - 1 == if Early(a, s) then s + 1 else s
  {
    hide Newton, Iterate, Square;
    if x == s {
      NotBelow(a, x, s);
    }
    ByOne(a, x, s);
    if x == s + 2 {
      if s == 0 {
        ZeroStays(n);
        SquareIs(1);
        assert false;
      }
      assert Early(a, s);
    } else if Early(a, s) {
      var m: nat :| Iterate(a, m) == s + 2;
      StaysLow(a, s, n, m);
      assert false;
    }
  }

  lemma {:induction false} ZeroStays(n: nat)
    ensures Iterate(0, n) == 0
  {
    if n > 0 {
      ZeroStays(n - 1);
    }
  }

  /** Otherwise it goes on, and down. */
  lemma {:induction false} GoesOn(a: nat, s: nat, x: nat, n: nat)
    requires Standing(a, s, x, n) && x > 0 && Newton(a, x) != x && Newton(a, x) != x - 1
    ensures Standing(a, s, Newton(a, x), n + 1) && 0 < Newton(a, x) < x
  {
    hide Newton, Square;
    NotBelow(a, x, s);
    if x == s {
      AtRoot(a, s);
    }
    Falls(a, x, s);
    IterateStep(a, n);
    if OneShort(a, s) && s >= 1 {
      TwoAbove(a, s);
      NotBelow(a, x, s + 1);
    }
    StepPositive(a, x, s);
  }

  lemma {:induction false} StepPositive(a: nat, x: nat, s: nat)
    requires Root(a, s) && x > s && Newton(a, x) != x - 1
    ensures Newton(a, x) > 0
  {
    hide Square;
    if s >= 1 {
      NotBelow(a, x, s);
    } else {
      SquareIs(1);
      assert x != 1;
    }
  }

  /** Every number has a square root, rounded down. */
  lemma {:induction false} RootExists(a: nat) returns (s: nat)
    ensures Root(a, s)
  {
    s := 0;
    while Square(s + 1) <= a
      invariant Square(s) <= a
      decreases a - s
    {
      SquareMono(s + 1, s + 1);
      s := s + 1;
    }
  }

  /** Inputs on which the result is one too large: 3, 8 and 48. */
  lemma {:induction false} EarlyExamples(a: nat, s: nat)
    requires (a == 3 && s == 1) || (a == 8 && s == 2) || (a == 48 && s == 6)
    ensures Early(a, s)
  {
    hide Iterate, Newton, Square, Over;
    SquareIs(s + 1);
    IterateFirst(a);
    IterateNext(a, 0, a, if a == 3 then 2 else if a == 8 then 4 else 24);
    if a == 48 {
      IterateNext(a, 1, 24, 13);
      IterateNext(a, 2, 13, 8);
    }
  }

  lemma {:induction false} IterateFirst(a: nat)
    ensures Iterate(a, 0) == a
  {
  }

  lemma {:induction false} IterateNext(a: nat, n: nat, x: nat, y: nat)
    requires Iterate(a, n) == x && x > 0 && (x + a / x) / 2 == y
    ensures Iterate(a, n + 1) == y
  {
    hide Iterate, Over;
    IterateStep(a, n);
    OverIs(a, x);
  }

  /** No division of the iteration ties. */
  ghost predicate Divides(a: nat) {
    forall n: nat :: Iterate(a, n) > 0 ==> !Ties(a, Iterate(a, n))
  }

  /** Below (2^31 - 1)^2 none does. */
  lemma {:induction false} TwoDigitsDivide(a: nat)
    requires a < (RADIX / 2 - 1) * (RADIX / 2 - 1)
    ensures Divides(a)
  {
    hide Ties, Iterate, Square;
    var s := RootExists(a);
    forall n: nat | Iterate(a, n) > 0 ensures !Ties(a, Iterate(a, n)) {
      var x := Iterate(a, n);
      IterateAbove(a, s, n);
      SquareIs(RADIX / 2 - 1);
      if s > RADIX / 2 - 2 {
        SquareMono(RADIX / 2 - 1, s);
        assert false;
      }
      NextSquare(s);
      SquareIs(s);
      MulDist(s, 2, s);
      MulComm(s + 2, s);
      MulMono(s, x, s + 2);
      MulComm(s, s + 2);
      MulMono(s + 2, RADIX / 2, x);
      MulComm(x, s + 2);
      SmallNeverTies(a, x);
    }
  }

  /** The iteration stays at or above the square root. */
  lemma {:induction false} IterateAbove(a: nat, s: nat, n: nat)
    requires Root(a, s)
    ensures Iterate(a, n) > 0 ==> Iterate(a, n) >= s
  {
    if n > 0 {
      if Iterate(a, n - 1) > 0 {
        NotBelow(a, Iterate(a, n - 1), s);
      }
    } else {
      SquareMono(s, s);
    }
  }

  /** mp_int_sqr. */
  method Sqr(threshold: nat, a: MpInt, c: MpInt)
    requires threshold == 0 || threshold >= 4
    requires a.Valid() && c.Valid() && Distinct(a, c)
    modifies c, c.digits
    ensures c.Valid() && Moved(c) && !c.negative && c.Mag() == a.Mag() * a.Mag()
  {
    hide Val, Shift, Run, Clamped, SqrSpan;
    Pad(c, SqrSpan(threshold, a.used));
    USqrInto(threshold, a, c);
    c.negative := false;
  }

  /** One step of the iteration: t becomes the mean of x and a / x. */
  method Step(a: MpInt, x: MpInt, t: MpInt)
    requires a.Valid() && x.Valid() && t.Valid() && Distinct(a, t) && Distinct(x, t) && Sep(a, x)
    requires !a.negative && !x.negative && x.Mag() > 0 && !Ties(a.Mag(), x.Mag())
    modifies t, t.digits
    ensures t.Valid() && Moved(t) && !t.negative && t.Mag() == Newton(a.Mag(), x.Mag())
  {
    hide Val, Run, Clamped, Ties, Pow2, QuotientFits, Over;
    NoTieFits(a.Mag(), x.Mag());
    CopyTo(a, t);
    var ok := Div(t, x, t, null);
    QuotientNonneg(a.Mag(), x.Mag());
    OverIs(a.Mag(), x.Mag());
    assert t.Value() == a.Mag() / x.Mag();
    Add(x, t, t);
    OnePower();
    QDiv(t, 1);
  }

  /** TEMP(0) less one, and whether that is the new value. */
  method LessOne(x: MpInt, t: MpInt) returns (same: bool)
    requires x.Valid() && t.Valid() && Distinct(x, t) && !x.negative && x.Mag() > 0
    modifies x, x.digits
    ensures x.Valid() && Moved(x) && !x.negative && x.Mag() == old(x.Mag()) - 1 && same == (t.Mag() == x.Mag())
  {
    hide Val, Run, Clamped;
    var one := new MpInt(1);
    SetOne(one);
    Sub(x, one, x);
    var cmp := Ucmp(x, t);
    same := cmp == 0;
  }

  /** The loop: x ends as the square root of a, or one more in the early case. */
  method Iteration(threshold: nat, a: MpInt, x: MpInt, t: MpInt, ghost s: nat)
    requires threshold == 0 || threshold >= 4
    requires a.Valid() && x.Valid() && t.Valid() && Distinct(a, t) && Distinct(x, t) && Distinct(a, x)
    requires !a.negative && !x.negative && x.Mag() == a.Mag() && Root(a.Mag(), s) && Divides(a.Mag())
    modifies x, x.digits, t, t.digits
    ensures x.Valid() && !x.negative && Moved(x) && x.Mag() == if Early(a.Mag(), s) then s + 1 else s
  {
    hide Val, Run, Clamped, Ties, Root, Newton, Standing, Early;
    ghost var A, n := a.Mag(), 0;
    Starts(A, s);
    while true
      invariant a.Valid() && x.Valid() && t.Valid() && Distinct(a, t) && Distinct(x, t) && Distinct(a, x)
      invariant !a.negative && !x.negative && a.Mag() == A && Standing(A, s, x.Mag(), n)
      invariant Moved(x) && Moved(t)
      decreases x.Mag()
    {
      ghost var X := x.Mag();
      Sqr(threshold, x, t);
      SquareIs(X);
      var cmp := Ucmp(a, t);
      if cmp == 0 {
        EndsExact(A, s, X, n);
        break;
      }
      StandsAt(A, s, X, n);
      Step(a, x, t);
      cmp := Ucmp(x, t);
      if cmp == 0 {
        EndsStill(A, s, X, n);
        break;
      }
      var same := LessOne(x, t);
      if same {
        EndsByOne(A, s, X, n);
        break;
      }
      GoesOn(A, s, X, n);
      CopyTo(t, x);
      n := n + 1;
    }
  }

  lemma {:induction false} StandsAt(a: nat, s: nat, x: nat, n: nat)
    requires Standing(a, s, x, n) && Divides(a) && Square(x) != a
    ensures x > 0 && !Ties(a, x)
  {
    hide Iterate;
    NextSquare(s);
  }

  /** mp_int_sqrt: MP_UNDEF for a set sign field; otherwise the square root rounded down, or exactly in the early case one
      more, when the divisions on the way give their quotients. */
  method Sqrt(threshold: nat, a: MpInt, c: MpInt) returns (ok: bool)
    requires threshold == 0 || threshold >= 4
    requires a.Valid() && c.Valid() && Sep(a, c) && (!a.negative ==> Divides(a.Mag()))
    modifies c, c.digits
    ensures ok == !old(a.negative)
    ensures ok ==> c.Valid() && Moved(c)
    ensures ok ==> exists s: nat :: Root(old(a.Mag()), s) && c.Value() == if Early(old(a.Mag()), s) then s + 1 else s
  {
    hide Val, Run, Clamped, Root, Early, Divides;
    if a.negative {
      return false;
    }
    ghost var A := a.Mag();
    ghost var s := RootExists(A);
    var x := NewCopy(a);
    var t := new MpInt(64);
    Iteration(threshold, a, x, t, s);
    CopyTo(x, c);
    ok := true;
  }
}

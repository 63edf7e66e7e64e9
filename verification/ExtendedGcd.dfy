/** mp_int_egcd and mp_int_invmod. */
module ExtendedGcd {
  import opened Digits
  import opened Buffers
  import opened Powers
  import opened MpInts
  import opened Signed
  import opened Shifts
  import opened Barrett
  import opened Division
  import opened GcdTheory
  import opened BinaryGcd
  import opened EgcdRows
  import opened Quotients
  import opened QuotientRoom

  /** s_qdiv(z, 1) on an even number. */
  method HalveSigned(z: MpInt)
    requires z.Valid() && z.Value() % 2 == 0
    modifies z`used, z`negative, z.digits
    ensures z.Valid() && 2 * z.Value() == old(z.Value()) && (!old(z.negative) ==> !z.negative)
  {
    hide Val, Run, Clamped;
    assert Pow2(1) == 2;
    QDiv(z, 1);
  }

  /** A row of numbers: u and the coefficients that express it. */
  ghost predicate Row(u: MpInt, A: MpInt, B: MpInt)
    reads u, u.digits, A, A.digits, B, B.digits
  {
    u.Valid() && A.Valid() && B.Valid() && !u.negative && Distinct(u, A) && Distinct(u, B) && Distinct(A, B)
  }

  ghost function LineOf(u: MpInt, A: MpInt, B: MpInt): Line
    requires Row(u, A, B)
    reads u, u.digits, A, A.digits, B, B.digits
  {
    Line(u.Mag(), A.Value(), B.Value())
  }

  /** A read-only number apart from a row. */
  predicate Beside(o: MpInt, u: MpInt, A: MpInt, B: MpInt)
    reads o, u, A, B
  {
    Distinct(o, u) && Distinct(o, A) && Distinct(o, B)
  }

  /** The fix-up: where a coefficient is odd, ov is added to the first and ou taken from the second. */
  method FixParity(A: MpInt, B: MpInt, ou: MpInt, ov: MpInt)
    requires A.Valid() && B.Valid() && ou.Valid() && ov.Valid() && Distinct(A, B)
    requires Distinct(ou, A) && Distinct(ou, B) && Distinct(ov, A) && Distinct(ov, B)
    modifies A, A.digits, B, B.digits
    ensures A.Valid() && B.Valid() && Distinct(A, B) && Moved(A) && Moved(B)
    ensures (A.Value(), B.Value()) == Fixed(old(A.Value()), old(B.Value()), ou.Value(), ov.Value())
  {
    hide Val, Run, Clamped;
    var oddA := IsOdd(A);
    var oddB := IsOdd(B);
    if oddA || oddB {
      Add(A, ov, A);
      Sub(B, ou, B);
    }
  }

  /** One turn of a halving loop. */
  method HalveOnce(u: MpInt, A: MpInt, B: MpInt, ou: MpInt, ov: MpInt)
    requires ou.Valid() && ov.Valid() && Row(u, A, B) && Beside(ou, u, A, B) && Beside(ov, u, A, B)
    requires Expresses(LineOf(u, A, B), ou.Value(), ov.Value()) && (ou.Value() % 2 == 1 || ov.Value() % 2 == 1)
    requires u.Mag() % 2 == 0
    modifies u`used, u`negative, u.digits, A, A.digits, B, B.digits
    ensures Row(u, A, B) && Beside(ou, u, A, B) && Beside(ov, u, A, B) && Moved(A) && Moved(B)
    ensures LineOf(u, A, B) == Halve(old(LineOf(u, A, B)), ou.Value(), ov.Value())
  {
    hide Val, Run, Clamped, Expresses, Fixed;
    HalveKeeps(LineOf(u, A, B), ou.Value(), ov.Value());
    HalveSigned(u);
    FixParity(A, B, ou, ov);
    HalveSigned(A);
    HalveSigned(B);
  }

  /** A halving loop of mp_int_egcd. */
  method HalveRow(u: MpInt, A: MpInt, B: MpInt, ou: MpInt, ov: MpInt)
    requires ou.Valid() && ov.Valid() && Row(u, A, B) && Beside(ou, u, A, B) && Beside(ov, u, A, B)
    requires Expresses(LineOf(u, A, B), ou.Value(), ov.Value()) && (ou.Value() % 2 == 1 || ov.Value() % 2 == 1)
    requires u.Mag() > 0
    modifies u`used, u`negative, u.digits, A, A.digits, B, B.digits
    ensures Row(u, A, B) && Beside(ou, u, A, B) && Beside(ov, u, A, B) && Moved(A) && Moved(B)
    ensures LineOf(u, A, B) == Halved(old(LineOf(u, A, B)), ou.Value(), ov.Value())
    ensures Expresses(LineOf(u, A, B), ou.Value(), ov.Value())
    ensures ou.Value() == old(ou.Value()) && ov.Value() == old(ov.Value())
  {
    hide Val, Run, Clamped, Expresses, Halve;
    ghost var x, y := ou.Value(), ov.Value();
    ghost var T := Halved(LineOf(u, A, B), x, y);
    var odd := IsOdd(u);
    while !odd
      invariant ou.Valid() && ov.Valid() && Row(u, A, B) && Beside(ou, u, A, B) && Beside(ov, u, A, B)
      invariant Moved(A) && Moved(B) && ou.Value() == x && ov.Value() == y
      invariant u.Mag() > 0 && odd == (u.Mag() % 2 == 1) && Expresses(LineOf(u, A, B), x, y)
      invariant Halved(LineOf(u, A, B), x, y) == T
      decreases u.Mag()
    {
      HalveKeeps(LineOf(u, A, B), x, y);
      HalvedStep(LineOf(u, A, B), x, y);
      HalveOnce(u, A, B, ou, ov);
      odd := IsOdd(u);
    }
  }

  /** Row u minus row v. */
  method SubRow(u: MpInt, A: MpInt, B: MpInt, v: MpInt, C: MpInt, D: MpInt)
    requires Row(u, A, B) && Row(v, C, D) && v.Mag() <= u.Mag()
    requires Beside(v, u, A, B) && Beside(C, u, A, B) && Beside(D, u, A, B)
    modifies u, u.digits, A, A.digits, B, B.digits
    ensures Row(u, A, B) && Row(v, C, D) && LineOf(v, C, D) == old(LineOf(v, C, D))
    ensures LineOf(u, A, B) == Minus(old(LineOf(u, A, B)), LineOf(v, C, D))
    ensures Beside(v, u, A, B) && Beside(C, u, A, B) && Beside(D, u, A, B) && Moved(u) && Moved(A) && Moved(B)
  {
    hide Val, Run, Clamped;
    Sub(u, v, u);
    Sub(A, C, A);
    Sub(B, D, B);
  }

  /** Both rows of mp_int_egcd and the two numbers they are expressed in. */
  ghost predicate Matrix(u: MpInt, A: MpInt, B: MpInt, v: MpInt, C: MpInt, D: MpInt, ou: MpInt, ov: MpInt)
    reads u, u.digits, A, A.digits, B, B.digits, v, v.digits, C, C.digits, D, D.digits, ou, ou.digits, ov, ov.digits
  {
    && ou.Valid() && ov.Valid() && Row(u, A, B) && Row(v, C, D)
    && Beside(ou, u, A, B) && Beside(ov, u, A, B) && Beside(ou, v, C, D) && Beside(ov, v, C, D)
    && Beside(v, u, A, B) && Beside(C, u, A, B) && Beside(D, u, A, B)
  }

  /** Both halving loops. */
  method HalveBoth(u: MpInt, A: MpInt, B: MpInt, v: MpInt, C: MpInt, D: MpInt, ou: MpInt, ov: MpInt)
    requires Matrix(u, A, B, v, C, D, ou, ov)
    requires Heads(LineOf(u, A, B), LineOf(v, C, D), ou.Value(), ov.Value())
    modifies u`used, u`negative, u.digits, A, A.digits, B, B.digits, v`used, v`negative, v.digits, C, C.digits, D, D.digits
    ensures Matrix(u, A, B, v, C, D, ou, ov) && ou.Value() == old(ou.Value()) && ov.Value() == old(ov.Value())
    ensures LineOf(u, A, B) == Halved(old(LineOf(u, A, B)), ou.Value(), ov.Value())
    ensures LineOf(v, C, D) == Halved(old(LineOf(v, C, D)), ou.Value(), ov.Value())
    ensures Moved(A) && Moved(B) && Moved(C) && Moved(D)
  {
    hide Val, Run, Clamped, Expresses;
    HalveRow(u, A, B, ou, ov);
    HalveRow(v, C, D, ou, ov);
  }

  /** The smaller row is taken from the larger. */
  method SubtractRows(u: MpInt, A: MpInt, B: MpInt, v: MpInt, C: MpInt, D: MpInt)
    requires Row(u, A, B) && Row(v, C, D) && Beside(v, u, A, B) && Beside(C, u, A, B) && Beside(D, u, A, B)
    modifies u, u.digits, A, A.digits, B, B.digits, v, v.digits, C, C.digits, D, D.digits
    ensures Row(u, A, B) && Row(v, C, D) && Beside(v, u, A, B) && Beside(C, u, A, B) && Beside(D, u, A, B)
    ensures if old(u.Mag()) >= old(v.Mag())
      then LineOf(u, A, B) == old(Minus(LineOf(u, A, B), LineOf(v, C, D))) && LineOf(v, C, D) == old(LineOf(v, C, D))
      else LineOf(v, C, D) == old(Minus(LineOf(v, C, D), LineOf(u, A, B))) && LineOf(u, A, B) == old(LineOf(u, A, B))
    ensures Moved(u) && Moved(A) && Moved(B) && Moved(v) && Moved(C) && Moved(D)
  {
    hide Val, Run, Clamped, Minus;
    var cmp := Compare(u, v);
    if cmp >= 0 {
      SubRow(u, A, B, v, C, D);
    } else {
      SubRow(v, C, D, u, A, B);
    }
  }

  /** One turn of mp_int_egcd's loop. */
  method EgcdTurn(u: MpInt, A: MpInt, B: MpInt, v: MpInt, C: MpInt, D: MpInt, ou: MpInt, ov: MpInt)
    requires Matrix(u, A, B, v, C, D, ou, ov)
    requires Heads(LineOf(u, A, B), LineOf(v, C, D), ou.Value(), ov.Value())
    modifies u, u.digits, A, A.digits, B, B.digits, v, v.digits, C, C.digits, D, D.digits
    ensures Matrix(u, A, B, v, C, D, ou, ov) && ou.Value() == old(ou.Value()) && ov.Value() == old(ov.Value())
    ensures (LineOf(u, A, B), LineOf(v, C, D)) == old(Turned(LineOf(u, A, B), LineOf(v, C, D), ou.Value(), ov.Value()))
    ensures Moved(u) && Moved(A) && Moved(B) && Moved(v) && Moved(C) && Moved(D)
  {
    hide Val, Run, Clamped, Expresses, Halved, Minus;
    HalveBoth(u, A, B, v, C, D, ou, ov);
    SubtractRows(u, A, B, v, C, D);
  }

  /** The loop of mp_int_egcd. */
  method EgcdLoop(u: MpInt, A: MpInt, B: MpInt, v: MpInt, C: MpInt, D: MpInt, ou: MpInt, ov: MpInt)
    requires Matrix(u, A, B, v, C, D, ou, ov)
    requires Heads(LineOf(u, A, B), LineOf(v, C, D), ou.Value(), ov.Value())
    modifies u, u.digits, A, A.digits, B, B.digits, v, v.digits, C, C.digits, D, D.digits
    ensures Row(v, C, D) && LineOf(v, C, D) == old(Loop(LineOf(u, A, B), LineOf(v, C, D), ou.Value(), ov.Value()))
    ensures Expresses(LineOf(v, C, D), old(ou.Value()), old(ov.Value())) && v.Mag() == Gcd(old(u.Mag()), old(v.Mag()))
    ensures Moved(v) && Moved(C) && Moved(D)
  {
    hide Val, Run, Clamped, Expresses, Gcd, Turned;
    ghost var x, y := ou.Value(), ov.Value();
    ghost var T := Loop(LineOf(u, A, B), LineOf(v, C, D), x, y);
    LoopIsGcd(LineOf(u, A, B), LineOf(v, C, D), x, y);
    while true
      invariant Matrix(u, A, B, v, C, D, ou, ov) && ou.Value() == x && ov.Value() == y
      invariant Heads(LineOf(u, A, B), LineOf(v, C, D), x, y) && Loop(LineOf(u, A, B), LineOf(v, C, D), x, y) == T
      invariant Moved(u) && Moved(A) && Moved(B) && Moved(v) && Moved(C) && Moved(D)
      decreases u.Mag() + v.Mag()
    {
      TurnKeeps(LineOf(u, A, B), LineOf(v, C, D), x, y);
      EgcdTurn(u, A, B, v, C, D, ou, ov);
      var z := Cmpz(u);
      if z == 0 {
        break;
      }
    }
  }

  method NewOne() returns (z: MpInt)
    ensures fresh(z) && fresh(z.digits) && z.Valid() && z.Value() == 1 && !z.negative
  {
    z := new MpInt(64);
    SetOne(z);
  }

  /** A row expressing u by itself: coefficients 1, 0 when u is the first number, 0, 1 when it is the second. */
  method NewRow(u: MpInt, first: bool) returns (z: MpInt, A: MpInt, B: MpInt)
    requires u.Valid() && !u.negative
    ensures fresh(z) && fresh(z.digits) && fresh(A) && fresh(A.digits) && fresh(B) && fresh(B.digits)
    ensures Row(z, A, B) && LineOf(z, A, B) == if first then Line(u.Mag(), 1, 0) else Line(u.Mag(), 0, 1)
  {
    hide Val, Run, Clamped;
    z := NewCopy(u);
    A := NewOne();
    B := new MpInt(64);
    if !first {
      A, B := B, A;
    }
  }

  /** The rows the loop starts from. */
  method FirstRows(u: MpInt, v: MpInt) returns (w: MpInt, A: MpInt, B: MpInt, g: MpInt, x: MpInt, y: MpInt)
    requires u.Valid() && v.Valid() && !u.negative && !v.negative
    ensures fresh(w) && fresh(w.digits) && fresh(A) && fresh(A.digits) && fresh(B) && fresh(B.digits)
    ensures fresh(g) && fresh(g.digits) && fresh(x) && fresh(x.digits) && fresh(y) && fresh(y.digits)
    ensures Matrix(w, A, B, g, x, y, u, v)
    ensures LineOf(w, A, B) == Line(u.Mag(), 1, 0) && LineOf(g, x, y) == Line(v.Mag(), 0, 1)
  {
    hide Val, Run, Clamped;
    w, A, B := NewRow(u, true);
    g, x, y := NewRow(v, false);
  }

  /** The loop on two positive numbers that are not both even. */
  method EgcdOdd(u: MpInt, v: MpInt) returns (g: MpInt, x: MpInt, y: MpInt)
    requires u.Valid() && v.Valid() && !u.negative && !v.negative && u.Mag() > 0 && v.Mag() > 0
    requires u.Mag() % 2 == 1 || v.Mag() % 2 == 1
    ensures fresh(g) && fresh(g.digits) && fresh(x) && fresh(x.digits) && fresh(y) && fresh(y.digits)
    ensures Row(g, x, y) && LineOf(g, x, y) == EgcdOf(u.Mag(), v.Mag()) && g.Mag() == Gcd(u.Mag(), v.Mag())
  {
    hide Val, Run, Clamped, Gcd, Heads, Loop, EgcdOf;
    ghost var a, b := u.Mag(), v.Mag();
    FirstHeads(a, b);
    var w, A, B;
    w, A, B, g, x, y := FirstRows(u, v);
    assert u.Value() == a && v.Value() == b;
    EgcdLoop(w, A, B, g, x, y, u, v);
    assert u.Mag() == a && v.Mag() == b;
  }

  /** Copies of two positive numbers without their common power of two. */
  method OddCopies(a: MpInt, b: MpInt) returns (u: MpInt, v: MpInt, k: nat)
    requires a.Valid() && b.Valid() && a.Mag() > 0 && b.Mag() > 0
    ensures fresh(u) && fresh(u.digits) && fresh(v) && fresh(v.digits) && u.Valid() && v.Valid()
    ensures !u.negative && !v.negative && u.Mag() > 0 && v.Mag() > 0 && (u.Mag() % 2 == 1 || v.Mag() % 2 == 1)
    ensures a.Mag() == Pow2(k) * u.Mag() && b.Mag() == Pow2(k) * v.Mag()
    ensures Gcd(a.Mag(), b.Mag()) == Pow2(k) * Gcd(u.Mag(), v.Mag())
  {
    hide Val, Run, Clamped, Gcd, Pow2;
    u := AbsCopy(a);
    v := AbsCopy(b);
    k := TakeCommonTwos(u, v);
    GcdScale(k, u.Mag(), v.Mag());
  }

  /** gcd and coefficients of two numbers other than zero. */
  method EgcdCopies(a: MpInt, b: MpInt) returns (g: MpInt, x: MpInt, y: MpInt)
    requires a.Valid() && b.Valid() && a.Mag() > 0 && b.Mag() > 0
    ensures fresh(g) && fresh(g.digits) && fresh(x) && fresh(x.digits) && fresh(y) && fresh(y.digits)
    ensures Row(g, x, y) && g.Mag() == Gcd(a.Mag(), b.Mag())
    ensures (x.Value(), y.Value()) == Coefficients(a.Value(), b.Value())
  {
    hide Val, Run, Clamped, Gcd, Pow2, EgcdOf;
    var u, v, k := OddCopies(a, b);
    g, x, y := EgcdOdd(u, v);
    TwosOut(k, u.Mag(), v.Mag());
    QMul(g, k);
  }

  /** gcd(0, b) = |b| = 0 * 0 + 1 * |b|; z gets the coefficient of the zero. */
  method EgcdZero(b: MpInt, c: MpInt, z: MpInt, o: MpInt)
    requires b.Valid() && c.Valid() && z.Valid() && o.Valid() && Sep(b, c)
    requires Distinct(c, z) && Distinct(c, o) && Distinct(z, o)
    modifies c, c.digits, z`used, z`negative, z.digits, o`used, o`negative, o.digits
    ensures c.Valid() && z.Valid() && o.Valid() && !c.negative && Distinct(c, z) && Distinct(c, o)
    ensures c.Mag() == old(b.Mag()) && z.Value() == 0 && o.Value() == 1
  {
    hide Val, Run, Clamped;
    Abs(b, c);
    Zero(z);
    SetOne(o);
  }

  /** mp_int_egcd when one operand is zero. */
  method EgcdOneZero(a: MpInt, b: MpInt, c: MpInt, x: MpInt, y: MpInt)
    requires a.Valid() && b.Valid() && c.Valid() && x.Valid() && y.Valid() && (a.Value() == 0) != (b.Value() == 0)
    requires Sep(a, c) && Sep(b, c) && Distinct(c, x) && Distinct(c, y) && Distinct(x, y)
    modifies c, c.digits, x, x.digits, y, y.digits
    ensures c.Valid() && x.Valid() && y.Valid() && !c.negative && Moved(x) && Moved(y)
    ensures c.Mag() == Gcd(old(a.Mag()), old(b.Mag()))
    ensures (x.Value(), y.Value()) == Coefficients(old(a.Value()), old(b.Value()))
  {
    hide Val, Run, Clamped, Gcd, Coefficients;
    ZeroCoefficients(a.Value(), b.Value());
    GcdZero(a.Mag());
    GcdZero(b.Mag());
    var ca := Cmpz(a);
    if ca == 0 {
      EgcdZero(b, c, x, y);
    } else {
      EgcdZero(a, c, y, x);
    }
  }

  /** mp_int_egcd when neither is. */
  method EgcdNonzero(a: MpInt, b: MpInt, c: MpInt, x: MpInt?, y: MpInt?)
    requires a.Valid() && b.Valid() && c.Valid() && a.Mag() > 0 && b.Mag() > 0
    requires x != null ==> x.Valid() && Distinct(c, x)
    requires y != null ==> y.Valid() && Distinct(c, y)
    requires x != null && y != null ==> Distinct(x, y)
    modifies c, c.digits, if x != null then {x, x.digits} else {}, if y != null then {y, y.digits} else {}
    ensures c.Valid() && !c.negative && c.Mag() == Gcd(old(a.Mag()), old(b.Mag()))
    ensures x != null ==> x.Valid() && Moved(x) && x.Value() == Coefficients(old(a.Value()), old(b.Value())).0
    ensures y != null ==> y.Valid() && Moved(y) && y.Value() == Coefficients(old(a.Value()), old(b.Value())).1
  {
    hide Val, Run, Clamped, Gcd, Coefficients;
    var g, A, B := EgcdCopies(a, b);
    Deliver(g, A, B, c, x, y);
  }

  /** mp_int_egcd: the gcd of any two integers not both zero, and the coefficients X and Y of their absolute values. Either
      coefficient may be missing as an output, but not when an operand is zero. */
  method Egcd(a: MpInt, b: MpInt, c: MpInt, x: MpInt?, y: MpInt?) returns (ok: bool, ghost X: int, ghost Y: int)
    requires a.Valid() && b.Valid() && c.Valid() && Sep(a, c) && Sep(b, c) && (x != null || y != null)
    requires x != null ==> x.Valid() && Sep(a, x) && Sep(b, x) && Distinct(c, x)
    requires y != null ==> y.Valid() && Sep(a, y) && Sep(b, y) && Distinct(c, y)
    requires x != null && y != null ==> Distinct(x, y)
    requires (a.Value() == 0) != (b.Value() == 0) ==> x != null && y != null
    modifies c, c.digits, if x != null then {x, x.digits} else {}, if y != null then {y, y.digits} else {}
    ensures ok <==> old(a.Value()) != 0 || old(b.Value()) != 0
    ensures ok ==> c.Valid() && !c.negative && c.Mag() == Gcd(old(a.Mag()), old(b.Mag())) == Combo(X, Y, old(a.Mag()), old(b.Mag()))
    ensures ok ==> (X, Y) == Coefficients(old(a.Value()), old(b.Value()))
    ensures ok && x != null ==> x.Valid() && Moved(x) && x.Value() == X
    ensures ok && y != null ==> y.Valid() && Moved(y) && y.Value() == Y
  {
    hide Val, Run, Clamped, Combo, Gcd, Coefficients;
    X, Y := Coefficients(a.Value(), b.Value()).0, Coefficients(a.Value(), b.Value()).1;
    var ca := Cmpz(a);
    var cb := Cmpz(b);
    if ca == 0 && cb == 0 {
      ok := false;
      return;
    }
    CoefficientsExpress(a.Value(), b.Value());
    if ca == 0 || cb == 0 {
      EgcdOneZero(a, b, c, x, y);
    } else {
      EgcdNonzero(a, b, c, x, y);
    }
    ok := true;
  }

  /** Copies the results out. */
  method Deliver(g: MpInt, A: MpInt, B: MpInt, c: MpInt, x: MpInt?, y: MpInt?)
    requires g.Valid() && A.Valid() && B.Valid() && c.Valid() && Distinct(g, c) && Distinct(A, c) && Distinct(B, c)
    requires x != null ==> x.Valid() && Distinct(g, x) && Distinct(A, x) && Distinct(B, x) && Distinct(c, x)
    requires y != null ==> y.Valid() && Distinct(g, y) && Distinct(A, y) && Distinct(B, y) && Distinct(c, y)
    requires x != null && y != null ==> Distinct(x, y)
    modifies c, c.digits, if x != null then {x, x.digits} else {}, if y != null then {y, y.digits} else {}
    ensures c.Valid() && c.Mag() == old(g.Mag()) && c.negative == old(g.negative)
    ensures x != null ==> x.Valid() && Moved(x) && x.Value() == old(A.Value())
    ensures y != null ==> y.Valid() && Moved(y) && y.Value() == old(B.Value())
  {
    hide Val, Run, Clamped;
    if x != null {
      CopyTo(A, x);
    }
    if y != null {
      CopyTo(B, y);
    }
    CopyTo(g, c);
  }

  /** x p + y m = 1 makes the residue of x an inverse of p. */
  lemma {:induction false} InverseResidue(x: int, y: int, p: int, m: int)
    requires m > 0 && Combo(x, y, p, m) == 1
    ensures (p * (x % m) - 1) % m == 0 && (-p * (m - x % m) - 1) % m == 0
    ensures m > 1 ==> 1 <= x % m
  {
    ComboIs(x, y, p, m);
    var q, r := x / m, x % m;
    assert x * p == p * (m * q + r) by { MulComm(x, p); }
    MulComm(p, m * q + r);
    MulDist(m * q, r, p);
    MulAssoc(m, q, p);
    MulComm(r, p);
    MulComm(y, m);
    MulComm(m, q * p + y);
    MulDist(q * p, y, m);
    MulComm(q * p, m);
    var z := q * p + y;
    assert p * r - 1 == -(m * z);
    Multiple(p * r - 1, m, -z);
    MulComm(-p, m - r);
    MulDist(m, -r, -p);
    MulComm(-r, -p);
    NegNeg(p, r);
    MulComm(m, -p - z);
    MulDist(-p, -z, m);
    MulComm(-p, m);
    Multiple(-p * (m - r) - 1, m, -p - z);
    if r == 0 {
      assert m * z == 1;
      DivUnique(1, m, z, 0);
    }
  }

  lemma {:induction false} Multiple(n: int, m: int, z: int)
    requires m > 0 && (n == m * z || n == -(m * -z))
    ensures n % m == 0
  {
    NegMul(-z, m);
    MulComm(m, -z);
    MulComm(m, z);
    DivUnique(n, m, z, 0);
  }

  lemma {:induction false} NegNeg(p: int, r: int)
    ensures -p * -r == p * r
  {
  }

  /** The representative in range: the residue of t, counted from m when sa is set. */
  method Represent(t: MpInt, m: MpInt, c: MpInt, sa: bool)
    requires t.Valid() && m.Valid() && c.Valid() && Sep(m, c) && Distinct(t, c) && Distinct(t, m) && m.Value() > 0
    requires QuotientFits(t.Mag(), m.Mag())
    modifies c, c.digits, t, t.digits
    ensures c.Valid() && c.Value() == old(var r := t.Value() % m.Value(); if sa then m.Value() - r else r)
  {
    hide Val, Run, Clamped, QuotientFits;
    var ok := Mod(t, m, t);
    if sa {
      Sub(m, t, c);
    } else {
      CopyTo(t, c);
    }
  }

  /** Below this number of digits the loop makes fewer turns than the radix counts. */
  const MAXDIGITS: nat := 0x800_0000

  /** So the coefficient is less than half the radix times the modulus, and its division does not tie. */
  lemma {:induction false} CoefficientFits(d: seq<digit>, n: nat, e: seq<digit>, k: nat)
    requires n <= |d| && k <= |e| && n < MAXDIGITS && k < MAXDIGITS && Val(Run(d, 0, n)) > 0 && Val(Run(e, 0, k)) > 0
    ensures var a, m := Val(Run(d, 0, n)), Val(Run(e, 0, k)); QuotientFits(AbsOf(EgcdOf(a, m).a), m)
  {
    hide Val, Shift, Run, EgcdOf, QuotientFits, Ties, Pow2;
    var a, m, l := Val(Run(d, 0, n)), Val(Run(e, 0, k)), Max(n, k);
    RunBelow(d, n, l);
    RunBelow(e, k, l);
    Pow2Digits(l, 0);
    Pow2Add(1, 32 * l);
    PowerOne();
    CoefficientBound(a, m, 32 * l + 1);
    MulMono(32 * l + 3, RADIX, m);
    SmallNeverTies(AbsOf(EgcdOf(a, m).a), m);
    NoTieFits(AbsOf(EgcdOf(a, m).a), m);
  }

  lemma {:induction false} RunBelow(d: seq<digit>, n: nat, l: nat)
    requires n <= |d| && n <= l
    ensures 0 <= Val(Run(d, 0, n)) < Exp(l)
  {
    ValBound(Run(d, 0, n));
    ExpMono(n, l);
  }

  lemma {:induction false} PowerOne()
    ensures Pow2(0) == 1 && Pow2(1) == 2
  {
    assert Pow2(1) == 2 * Pow2(0);
  }

  /** mp_int_egcd for mp_int_invmod: the coefficient of a, when the gcd is 1. */
  method Coefficient(a: MpInt, m: MpInt) returns (one: bool, t: MpInt)
    requires a.Valid() && m.Valid() && a.Mag() > 0 && m.Value() > 0 && a.used < MAXDIGITS && m.used < MAXDIGITS
    ensures fresh(t) && fresh(t.digits) && t.Valid() && QuotientFits(t.Mag(), m.Mag())
    ensures one == (Gcd(a.Mag(), m.Mag()) == 1)
    ensures one ==> exists y :: Combo(t.Value(), y, a.Mag(), m.Value()) == 1
  {
    hide Val, Run, Clamped, Combo, Gcd, EgcdOf, QuotientFits;
    ghost var A, M := a.Mag(), m.Mag();
    CoefficientFits(a.digits[..], a.used, m.digits[..], m.used);
    var g := new MpInt(64);
    t := new MpInt(64);
    var ok: bool;
    ghost var X, Y;
    ok, X, Y := Egcd(a, m, g, t, null);
    one := IsOne(g);
    assert a.Mag() == A && m.Value() == M && t.Mag() == AbsOf(EgcdOf(A, M).a);
    if one {
      assert Combo(t.Value(), Y, a.Mag(), m.Value()) == 1;
    }
  }

  /** mp_int_compare with one. */
  method IsOne(g: MpInt) returns (one: bool)
    requires g.Valid() && !g.negative
    ensures one == (g.Mag() == 1)
  {
    hide Val, Run, Clamped;
    var u := NewOne();
    var cmp := Compare(g, u);
    one := cmp == 0;
  }

  lemma {:induction false} Inverts(x: int, a: int, p: nat, m: int, c: int)
    requires m > 0 && p == (if a < 0 then -a else a) && exists y :: Combo(x, y, p, m) == 1
    requires c == if a < 0 then m - x % m else x % m
    ensures (a * c - 1) % m == 0 && (m > 1 ==> 1 <= c < m)
  {
    hide Combo;
    var y :| Combo(x, y, p, m) == 1;
    InverseResidue(x, y, p, m);
  }

  /** mp_int_invmod: the inverse of every integer coprime to the modulus, and the exact error cases. */
  method InvMod(a: MpInt, m: MpInt, c: MpInt) returns (res: Status)
    requires a.Valid() && m.Valid() && c.Valid() && Sep(a, c) && Sep(m, c) && a.used < MAXDIGITS && m.used < MAXDIGITS
    modifies c, c.digits
    ensures res == Range <==> old(a.Value()) == 0 || old(m.Value()) <= 0
    ensures res == Undef <==> old(a.Value()) != 0 && old(m.Value()) > 0 && Gcd(old(a.Mag()), old(m.Mag())) != 1
    ensures res == Ok ==> c.Valid() && (old(a.Value()) * c.Value() - 1) % old(m.Value()) == 0
    ensures res == Ok && old(m.Value()) > 1 ==> 1 <= c.Value() < old(m.Value())
  {
    hide Val, Run, Clamped, Combo, Gcd, QuotientFits;
    var ca := Cmpz(a);
    var cm := Cmpz(m);
    if ca == 0 || cm <= 0 {
      return Range;
    }
    var sa := a.negative;
    var one, t := Coefficient(a, m);
    if !one {
      return Undef;
    }
    ghost var A, P, M, T := a.Value(), a.Mag(), m.Value(), t.Value();
    Represent(t, m, c, sa);
    Inverts(T, A, P, M, c.Value());
    res := Ok;
  }
}

/** mp_int_gcd: Stein's binary gcd. */
module BinaryGcd {
  import opened Digits
  import opened Buffers
  import opened Powers
  import opened MpInts
  import opened Signed
  import opened Shifts
  import opened Barrett
  import opened GcdTheory

  lemma {:induction false} ParityOfVal(s: seq<digit>)
    requires s != []
    ensures Val(s) % 2 == s[0] % 2
  {
    ValCons(s);
  }

  /** mp_int_is_odd. */
  method IsOdd(z: MpInt) returns (odd: bool)
    requires z.Valid()
    ensures odd == (z.Mag() % 2 == 1) && odd == (z.Value() % 2 == 1)
  {
    hide Val;
    ParityOfVal(Run(z.digits[..], 0, z.used));
    odd := z.digits[0] % 2 == 1;
  }

  /** Divides out all factors of two: s_qdiv(z, s_dp2k(z)). */
  method StripTwos(z: MpInt) returns (ghost k: nat)
    requires z.Valid() && z.Mag() > 0
    modifies z`used, z`negative, z.digits
    ensures z.Valid() && z.Mag() % 2 == 1 && old(z.Mag()) == Pow2(k) * z.Mag() && z.Mag() <= old(z.Mag())
    ensures z.negative == old(z.negative)
  {
    hide Val, Run, Clamped, Pow2;
    var p;
    ghost var odd;
    p, odd := Dp2k(z);
    k := p;
    DivUnique(z.Mag(), Pow2(k), odd, 0);
    MulMono(1, Pow2(k), odd);
    QDiv(z, p);
  }

  /** What the next turn starts from: the pending difference t and the operand it will not replace determine g. */
  ghost predicate Pending(t: int, u: nat, v: nat, g: nat) {
    && u > 0 && v > 0 && t != 0
    && (t > 0 ==> v % 2 == 1 && Gcd(t, v) == g)
    && (t < 0 ==> u % 2 == 1 && Gcd(u, -t) == g)
  }

  /** Both operands odd: their difference is pending again, or they are equal and the gcd. */
  lemma {:induction false} NextPending(u: nat, v: nat, g: nat)
    requires u % 2 == 1 && v % 2 == 1 && Gcd(u, v) == g
    ensures u == v ==> u == g
    ensures u != v ==> Pending(u - v, u, v, g)
  {
    if u > v {
      GcdSub(u, v);
    } else if u < v {
      GcdSub(v, u);
      GcdSym(v - u, u);
      GcdSym(v, u);
    } else {
      DivUnique(u, u, 1, 0);
    }
  }

  lemma {:induction false} StrippedGcd(k: nat, t: nat, v: nat)
    requires v % 2 == 1
    ensures Gcd(t, v) == Gcd(Pow2(k) * t, v) && Gcd(v, t) == Gcd(v, Pow2(k) * t)
  {
    GcdHalves(k, t, v);
    MulMono(0, Pow2(k), t);
    GcdSym(t, v);
    GcdSym(Pow2(k) * t, v);
  }

  /** One turn: t loses its factors of two and replaces the operand it came from. */
  method Turn(u: MpInt, v: MpInt, t: MpInt, ghost g: nat)
    requires u.Valid() && v.Valid() && t.Valid() && !u.negative && !v.negative
    requires Distinct(u, v) && Distinct(u, t) && Distinct(v, t)
    requires Pending(t.Value(), u.Mag(), v.Mag(), g)
    modifies u, u.digits, v, v.digits, t`used, t`negative, t.digits
    ensures u.Valid() && v.Valid() && t.Valid() && !u.negative && !v.negative
    ensures Distinct(u, v) && Distinct(u, t) && Distinct(v, t)
    ensures u.Mag() % 2 == 1 && v.Mag() % 2 == 1 && Gcd(u.Mag(), v.Mag()) == g
    ensures old(t.Value()) > 0 ==> u.Mag() <= old(t.Value()) && v.Mag() == old(v.Mag())
    ensures old(t.Value()) < 0 ==> v.Mag() <= -old(t.Value()) && u.Mag() == old(u.Mag())
    ensures Moved(u) && Moved(v)
  {
    hide Val, Run, Clamped, Pow2, Gcd;
    ghost var k := StripTwos(t);
    var z := Cmpz(t);
    if z > 0 {
      StrippedGcd(k, t.Mag(), v.Mag());
      CopyTo(t, u);
    } else {
      StrippedGcd(k, t.Mag(), u.Mag());
      Neg(t, v);
    }
  }

  /** The loop of mp_int_gcd. */
  method SteinLoop(u: MpInt, v: MpInt, t: MpInt, ghost g: nat)
    requires u.Valid() && v.Valid() && t.Valid() && !u.negative && !v.negative
    requires Distinct(u, v) && Distinct(u, t) && Distinct(v, t)
    requires Pending(t.Value(), u.Mag(), v.Mag(), g)
    modifies u, u.digits, v, v.digits, t, t.digits
    ensures u.Valid() && !u.negative && u.Mag() == g && Moved(u)
  {
    hide Val, Run, Clamped, Gcd;
    while true
      invariant u.Valid() && v.Valid() && t.Valid() && !u.negative && !v.negative
      invariant Distinct(u, v) && Distinct(u, t) && Distinct(v, t)
      invariant Pending(t.Value(), u.Mag(), v.Mag(), g)
      invariant Moved(u) && Moved(v) && Moved(t)
      decreases if t.Value() > 0 then t.Value() + v.Mag() else u.Mag() - t.Value()
    {
      Turn(u, v, t, g);
      NextPending(u.Mag(), v.Mag(), g);
      Sub(u, v, t);
      var z := Cmpz(t);
      if z == 0 {
        break;
      }
    }
  }

  /** Takes the common power of two out of two positive numbers; at least one is odd afterwards. */
  method TakeCommonTwos(u: MpInt, v: MpInt) returns (k: nat)
    requires u.Valid() && v.Valid() && Distinct(u, v) && u.Mag() > 0 && v.Mag() > 0
    modifies u`used, u`negative, u.digits, v`used, v`negative, v.digits
    ensures u.Valid() && v.Valid() && u.negative == old(u.negative) && v.negative == old(v.negative)
    ensures old(u.Mag()) == Pow2(k) * u.Mag() && old(v.Mag()) == Pow2(k) * v.Mag()
    ensures u.Mag() > 0 && v.Mag() > 0 && (u.Mag() % 2 == 1 || v.Mag() % 2 == 1)
  {
    hide Val, Run, Clamped, Pow2;
    var ku, kv;
    ghost var x, y;
    ku, x := Dp2k(u);
    kv, y := Dp2k(v);
    k := Min(ku, kv);
    PowerLeft(u.Mag(), ku, k, x);
    PowerLeft(v.Mag(), kv, k, y);
    QDiv(u, k);
    QDiv(v, k);
  }

  lemma {:induction false} PowerLeft(m: nat, n: nat, k: nat, x: nat)
    requires k <= n && m == Pow2(n) * x && x > 0
    ensures m / Pow2(k) == Pow2(n - k) * x && m == Pow2(k) * (m / Pow2(k)) && m / Pow2(k) > 0
    ensures k == n ==> m / Pow2(k) == x
  {
    Pow2Add(k, n - k);
    MulAssoc(Pow2(k), Pow2(n - k), x);
    DivUnique(m, Pow2(k), Pow2(n - k) * x, 0);
    MulMono(1, Pow2(n - k), x);
  }

  /** A fresh copy of a magnitude. */
  method AbsCopy(a: MpInt) returns (z: MpInt)
    requires a.Valid()
    ensures fresh(z) && fresh(z.digits) && z.Valid() && !z.negative && z.Mag() == a.Mag()
  {
    z := new MpInt(64);
    Abs(a, z);
  }

  /** The first pending value: the negated v when u is odd, u itself otherwise. */
  method Start(u: MpInt, v: MpInt) returns (t: MpInt)
    requires u.Valid() && v.Valid() && !u.negative && !v.negative
    requires u.Mag() > 0 && v.Mag() > 0 && (u.Mag() % 2 == 1 || v.Mag() % 2 == 1)
    ensures fresh(t) && fresh(t.digits) && t.Valid()
    ensures Pending(t.Value(), u.Mag(), v.Mag(), Gcd(u.Mag(), v.Mag()))
  {
    hide Val, Run, Clamped, Gcd;
    t := new MpInt(64);
    var odd := IsOdd(u);
    if odd {
      Neg(v, t);
    } else {
      CopyTo(u, t);
    }
  }

  /** The gcd of two positive numbers, computed on copies: u times 2^k. */
  method SteinCopies(a: MpInt, b: MpInt) returns (u: MpInt, k: nat)
    requires a.Valid() && b.Valid() && a.Mag() > 0 && b.Mag() > 0
    ensures fresh(u) && fresh(u.digits) && u.Valid() && !u.negative
    ensures Pow2(k) * u.Mag() == Gcd(a.Mag(), b.Mag())
  {
    hide Val, Run, Clamped, Pow2, Gcd;
    u := AbsCopy(a);
    var v := AbsCopy(b);
    k := TakeCommonTwos(u, v);
    ghost var U, V := u.Mag(), v.Mag();
    GcdScale(k, U, V);
    var t := Start(u, v);
    SteinLoop(u, v, t, Gcd(U, V));
  }

  /** mp_int_gcd: the gcd of every two integers that are not both zero. */
  method GcdInto(a: MpInt, b: MpInt, c: MpInt) returns (ok: bool)
    requires a.Valid() && b.Valid() && c.Valid() && Sep(a, c) && Sep(b, c)
    modifies c, c.digits
    ensures c.Valid() && Moved(c)
    ensures ok <==> old(a.Value()) != 0 || old(b.Value()) != 0
    ensures ok ==> c.Value() == Gcd(old(a.Mag()), old(b.Mag()))
  {
    hide Val, Run, Clamped, Pow2, Gcd;
    var ca := Cmpz(a);
    var cb := Cmpz(b);
    if ca == 0 && cb == 0 {
      return false;
    } else if ca == 0 {
      GcdZero(b.Mag());
      Abs(b, c);
      return true;
    } else if cb == 0 {
      GcdZero(a.Mag());
      Abs(a, c);
      return true;
    }
    var u, k := SteinCopies(a, b);
    Abs(u, c);
    QMul(c, k);
    ok := true;
  }
}

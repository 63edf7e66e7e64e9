/** mp_int_mul: signed products, also into one of the factors. */
module Multiply {
  import opened Digits
  import opened Buffers
  import opened Karatsuba
  import opened MpInts
  import opened Barrett

  lemma {:induction false} SignedProduct(x: int, y: int, p: int, q: int)
    requires (x == p || x == -p) && (y == q || y == -q) && p > 0 && q > 0
    ensures x * y == if (x < 0) == (y < 0) then p * q else -(p * q)
  {
    NegMul(p, q);
    MulComm(p, -q);
    MulComm(p, q);
    NegMul(q, p);
    MulComm(-p, -q);
    NegMul(p, -q);
  }

  lemma {:induction false} ZeroProduct(x: int, y: int)
    ensures x == 0 || y == 0 ==> x * y == 0
  {
  }

  /** The digits mp_int_mul asks for, rounded up as s_pad rounds them. */
  function Room(sizeA: nat, sizeB: nat): nat { 2 * ((sizeA + sizeB + 1) / 2) }

  /** That is as many as Karatsuba touches exactly when it does not recurse, or the longer size is even and the sizes differ
      by at most one. */
  lemma {:induction false} RoomExactly(threshold: nat, sizeA: nat, sizeB: nat)
    ensures var m, n := Max(sizeA, sizeB), Min(sizeA, sizeB);
      Span(threshold, sizeA, sizeB) <= Room(sizeA, sizeB) <==> !Recurses(threshold, m, n) || (m % 2 == 0 && m <= n + 1)
  {
  }

  /** Two numbers of 51 digits at the default threshold: Karatsuba touches two digits more than there are. */
  lemma {:induction false} RoomExample()
    ensures Room(51, 51) == 102 && Span(50, 51, 51) == 104
  {
  }

  /** The room mp_int_mul works in: a new buffer when the output is a factor, else the output's own, padded. */
  predicate Roomy(threshold: nat, a: MpInt, b: MpInt, c: MpInt)
    reads a, b, c
  {
    var osize := a.used + b.used;
    Span(threshold, a.used, b.used) <= if c == a || c == b then Capacity(osize) else Padded(osize, c.digits.Length)
  }

  /** The product of the magnitudes. */
  method MulMags(threshold: nat, a: MpInt, b: MpInt, c: MpInt, ghost product: int)
    requires threshold == 0 || threshold >= 4
    requires a.Valid() && b.Valid() && c.Valid() && Sep(a, c) && Sep(b, c) && Roomy(threshold, a, b, c)
    requires product == a.Mag() * b.Mag()
    modifies c`digits, c`used, c.digits
    ensures c.Valid() && Moved(c) && c.Mag() == product
  {
    hide Val, Shift, Run, Clamped, Span;
    var osize := a.used + b.used;
    if c == a || c == b {
      var out := new MpInt(osize);
      UMulInto(threshold, a, b, out);
      c.digits, c.used := out.digits, out.used;
    } else {
      Pad(c, osize);
      UMulInto(threshold, a, b, c);
    }
  }

  /** mp_int_mul, when the room it asks for is all that Karatsuba touches. */
  method Mul(threshold: nat, a: MpInt, b: MpInt, c: MpInt)
    requires threshold == 0 || threshold >= 4
    requires a.Valid() && b.Valid() && c.Valid() && Sep(a, c) && Sep(b, c)
    requires a.Value() != 0 && b.Value() != 0 ==> Roomy(threshold, a, b, c)
    modifies c, c.digits
    ensures c.Valid() && Moved(c) && c.Value() == old(a.Value()) * old(b.Value())
  {
    hide Val, Shift, Run, Clamped, Span;
    var ca := Cmpz(a);
    var cb := Cmpz(b);
    ghost var v, w: int := a.Value(), b.Value();
    ghost var x, y: int := a.Mag(), b.Mag();
    ghost var p := x * y;
    ghost var r := v * w;
    ZeroProduct(v, w);
    if ca == 0 || cb == 0 {
      Zero(c);
      return;
    }
    SignedProduct(v, w, x, y);
    var osign := a.negative != b.negative;
    MulMags(threshold, a, b, c, p);
    c.negative := osign;
  }
}

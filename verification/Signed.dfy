/** Signed addition, subtraction, negation and comparison of multi-precision integers. */
module Signed {
  import opened Digits
  import opened Buffers
  import opened MpInts

  lemma {:induction false} PrefixRun(d: seq<digit>, d': seq<digit>, n: nat)
    requires n <= |d| <= |d'| && Run(d', 0, |d|) == d
    ensures Run(d', 0, n) == Run(d, 0, n)
  {
    assert Run(d', 0, n) == Run(d', 0, |d|)[..n];
  }

  /** A number at least as large as its length demands has no zero on top. */
  lemma {:induction false} FillsLength(s: seq<digit>)
    requires |s| >= 1 && (|s| == 1 || Exp(|s| - 1) <= Val(s))
    ensures Clamped(s)
  {
    hide Val, Shift;
    if |s| > 1 && s[|s| - 1] == 0 {
      ValTrim(s, |s| - 1);
      ValBound(s[..|s| - 1]);
      assert false;
    }
  }

  lemma {:induction false} SumClamped(a: seq<digit>, b: seq<digit>, c: seq<digit>)
    requires Clamped(a) && Clamped(b) && |c| == Max(|a|, |b|) && Val(c) == Val(a) + Val(b)
    ensures Clamped(c)
  {
    hide Val, Shift;
    ValBound(a);
    ValBound(b);
    if |c| > 1 {
      ValTop(if |a| == |c| then a else b);
    }
    FillsLength(c);
  }

  /** The addition of magnitudes in mp_int_add and mp_int_sub. */
  method AddMags(a: MpInt, b: MpInt, c: MpInt)
    requires a.Valid() && b.Valid() && c.Valid() && Sep(a, c) && Sep(b, c)
    modifies c`digits, c`used, c.digits
    ensures c.Valid() && c.Mag() == old(a.Mag() + b.Mag())
    ensures Moved(c) && c.digits.Length >= old(c.digits.Length)
  {
    hide Val, Shift, Run, Clamped;
    var ua, ub := a.used, b.used;
    var max := Max(ua, ub);
    ghost var d, A, B := c.digits[..], Run(a.digits[..], 0, ua), Run(b.digits[..], 0, ub);
    Pad(c, max);
    PrefixRun(d, c.digits[..], c.used);
    var carry := UAdd(a.digits, 0, b.digits, 0, c.digits, 0, ua, ub);
    ghost var C := Run(c.digits[..], 0, max);
    ValSnoc(C, carry);
    if carry != 0 {
      d := c.digits[..];
      Pad(c, max + 1);
      PrefixRun(d, c.digits[..], max);
      RunGrows(c.digits[..], 0, max, carry);
      c.digits[max] := carry;
      c.used := max + 1;
      TopClamped(C, carry);
    } else {
      c.used := max;
      ShiftZero(max);
      SumClamped(A, B, C);
    }
  }

  lemma {:induction false} TopClamped(s: seq<digit>, d: digit)
    requires d != 0
    ensures Clamped(s + [d])
  {
  }

  /** The subtraction of magnitudes in mp_int_add and mp_int_sub, larger first. */
  method SubMags(x: MpInt, y: MpInt, c: MpInt)
    requires x.Valid() && y.Valid() && c.Valid() && Sep(x, c) && Sep(y, c) && y.Mag() <= x.Mag()
    modifies c`digits, c`used, c.digits
    ensures c.Valid() && c.Mag() == old(x.Mag() - y.Mag()) && c.used <= old(x.used)
    ensures Moved(c) && c.digits.Length >= old(c.digits.Length)
    ensures ZerosFrom(c.digits[..], c.used, old(x.used))
    ensures old(c.digits.Length >= x.used) ==>
              c.digits == old(c.digits) && OnlyRun(old(c.digits[..]), c.digits[..], 0, old(x.used))
  {
    var ux, uy := x.used, y.used;
    if uy > ux {
      LongerIsLarger(Run(y.digits[..], 0, uy), Run(x.digits[..], 0, ux));
      assert false;
    }
    hide Val, Shift, Run, Clamped;
    ghost var d := c.digits[..];
    Pad(c, ux);
    PrefixRun(d, c.digits[..], c.used);
    USub(x.digits, 0, y.digits, 0, c.digits, 0, ux, uy);
    c.used := ux;
    Clamp(c);
  }

  /** mp_int_add: the sum for every combination of signs, also when the output is one of the inputs. A sum of opposite
      values keeps the sign of the first, so it is a zero with the sign field set when that is negative. */
  method Add(a: MpInt, b: MpInt, c: MpInt)
    requires a.Valid() && b.Valid() && c.Valid() && Sep(a, c) && Sep(b, c)
    modifies c, c.digits
    ensures c.Valid() && c.Value() == old(a.Value() + b.Value())
    ensures c.Value() == 0 ==> c.negative == old(a.negative)
    ensures Moved(c) && c.digits.Length >= old(c.digits.Length)
  {
    hide Val, Run, Clamped;
    var sa, sb := a.negative, b.negative;
    if sa == sb {
      AddMags(a, b, c);
      c.negative := sa;
    } else {
      var cmp := Ucmp(a, b);
      if cmp >= 0 {
        SubMags(a, b, c);
        c.negative := sa;
      } else {
        SubMags(b, a, c);
        c.negative := sb;
      }
    }
  }

  /** mp_int_sub: the difference for every combination of signs; a zero difference of equals is not negative. */
  method Sub(a: MpInt, b: MpInt, c: MpInt)
    requires a.Valid() && b.Valid() && c.Valid() && Sep(a, c) && Sep(b, c)
    modifies c, c.digits
    ensures c.Valid() && c.Value() == old(a.Value() - b.Value())
    ensures old(!a.negative && !b.negative && a.Value() >= b.Value()) ==>
              !c.negative && c.used <= old(a.used) && ZerosFrom(c.digits[..], c.used, old(a.used))
    ensures old(!a.negative && !b.negative && a.Value() < b.Value()) ==> c.negative && c.used <= old(b.used)
    ensures old(!a.negative && !b.negative && c.digits.Length >= Max(a.used, b.used)) ==>
              c.digits == old(c.digits) && OnlyRun(old(c.digits[..]), c.digits[..], 0, old(Max(a.used, b.used)))
    ensures Moved(c) && c.digits.Length >= old(c.digits.Length)
  {
    hide Val, Run, Clamped;
    var sa, sb := a.negative, b.negative;
    if sa != sb {
      AddMags(a, b, c);
      c.negative := sa;
    } else {
      var cmp := Ucmp(a, b);
      var osign;
      if cmp >= 0 {
        osign := false;
        if sa && cmp != 0 {
          osign := true;
        }
        SubMags(a, b, c);
      } else {
        osign := true;
        if sa {
          osign := false;
        }
        SubMags(b, a, c);
      }
      c.negative := osign;
    }
  }

  /** mp_int_neg; a zero keeps its sign field. */
  method Neg(a: MpInt, c: MpInt)
    requires a.Valid() && c.Valid() && Sep(a, c)
    modifies c, c.digits
    ensures c.Valid() && c.Value() == -old(a.Value()) && c.Mag() == old(a.Mag())
    ensures c.negative == (if c.Value() == 0 then old(a.negative) else !old(a.negative))
    ensures Moved(c) && c.digits.Length >= old(c.digits.Length)
  {
    hide Val, Run, Clamped;
    var sa := a.negative;
    CopyTo(a, c);
    var z := Cmpz(c);
    if z != 0 {
      c.negative := !sa;
    }
  }

  /** mp_int_abs. */
  method Abs(a: MpInt, c: MpInt)
    requires a.Valid() && c.Valid() && Sep(a, c)
    modifies c, c.digits
    ensures c.Valid() && !c.negative && c.Value() == old(a.Mag())
    ensures Moved(c) && c.digits.Length >= old(c.digits.Length)
  {
    CopyTo(a, c);
    c.negative := false;
  }

  /** mp_int_compare: orders the values, except two zeros whose sign fields differ. */
  method Compare(a: MpInt, b: MpInt) returns (cmp: int)
    requires a.Valid() && b.Valid()
    ensures Orders(cmp, a.Value(), b.Value()) <==> !(a.Mag() == 0 && b.Mag() == 0 && a.negative != b.negative)
  {
    hide Val;
    ValBound(Run(a.digits[..], 0, a.used));
    ValBound(Run(b.digits[..], 0, b.used));
    if a.negative == b.negative {
      cmp := Ucmp(a, b);
      if a.negative {
        cmp := -cmp;
      }
    } else {
      cmp := if a.negative then -1 else 1;
    }
  }
}

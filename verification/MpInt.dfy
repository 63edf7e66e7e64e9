/** The multi-precision integer record and the operations every higher algorithm is built from. */
module MpInts {
  import opened Digits
  import opened Buffers
  import opened Karatsuba

  /** A run without superfluous zeros on top; zero is the single digit 0. */
  ghost predicate Clamped(s: seq<digit>) {
    |s| >= 1 && (|s| == 1 || s[|s| - 1] != 0)
  }

  /** The digits from position lo up to hi are zero. */
  ghost predicate ZerosFrom(d: seq<digit>, lo: nat, hi: nat) {
    forall i :: lo <= i < hi && i < |d| ==> d[i] == 0
  }

  /** cmp tells the order of x and y by its sign. */
  ghost predicate Orders(cmp: int, x: int, y: int) {
    (cmp < 0 <==> x < y) && (cmp == 0 <==> x == y)
  }

  /** ROUND_PREC and the default precision: the room of a number made for prec digits. */
  function Capacity(prec: nat): (n: nat)
    ensures prec <= n && 64 <= n
  {
    Max(2 * ((prec + 1) / 2), 64)
  }

  /** What the functions that can fail report. */
  datatype Status = Ok | Range | Undef

  /** mpz_t; alloc is the length of the digit array. */
  class MpInt {
    var digits: array<digit>
    var used: nat
    var negative: bool

    ghost predicate Valid()
      reads this, digits
    {
      1 <= used <= digits.Length && Clamped(Run(digits[..], 0, used))
    }

    ghost function Mag(): nat
      requires used <= digits.Length
      reads this, digits
    {
      ValBound(Run(digits[..], 0, used));
      Val(Run(digits[..], 0, used))
    }

    ghost function Value(): int
      requires used <= digits.Length
      reads this, digits
    {
      var m: int := Mag();
      if negative then -m else m
    }

    /** mp_int_init_size: zero, with room for prec digits. */
    constructor (prec: nat)
      ensures Valid() && Value() == 0 && !negative && fresh(digits) && digits.Length == Capacity(prec)
    {
      digits := new digit[Capacity(prec)](_ => 0);
      used := 1;
      negative := false;
      new;
      ValZeros(Run(digits[..], 0, 1));
    }
  }

  /** Distinct numbers do not share their digits. */
  predicate Sep(a: MpInt, b: MpInt)
    reads a, b
  {
    a == b || a.digits != b.digits
  }

  /** c's digits are where they were or freshly allocated. */
  twostate predicate Moved(c: MpInt)
    reads c
  {
    c.digits == old(c.digits) || fresh(c.digits)
  }

  /** The room s_pad leaves. */
  function Padded(min: nat, length: nat): nat { if length < min then 2 * ((min + 1) / 2) else length }

  /** s_pad: at least min digits of room; what was there stays. */
  method Pad(z: MpInt, min: nat)
    modifies z`digits
    ensures z.digits.Length >= min && z.digits.Length >= old(z.digits.Length)
    ensures Run(z.digits[..], 0, old(z.digits.Length)) == old(z.digits[..])
    ensures Moved(z) && (old(z.digits.Length) >= min ==> z.digits == old(z.digits))
    ensures z.digits.Length == Padded(min, old(z.digits.Length))
  {
    if z.digits.Length < min {
      var tmp := new digit[2 * ((min + 1) / 2)];
      Copy(z.digits, 0, tmp, 0, z.digits.Length);
      z.digits := tmp;
    }
  }

  /** CLAMP: drops zero digits from the top. */
  method Clamp(z: MpInt)
    requires 1 <= z.used <= z.digits.Length
    modifies z`used
    ensures z.Valid() && z.Mag() == old(z.Mag()) && z.used <= old(z.used)
    ensures ZerosFrom(z.digits[..], z.used, old(z.used))
  {
    hide Val;
    var uz := z.used;
    while uz > 1 && z.digits[uz - 1] == 0
      invariant 1 <= uz <= z.used
      invariant forall i :: uz <= i < z.used ==> z.digits[i] == 0
    {
      uz := uz - 1;
    }
    RunTrim(z.digits[..], 0, uz, z.used);
    z.used := uz;
  }

  /** A difference in the highest unequal digit decides. */
  lemma {:induction false} TopDecides(s: seq<digit>, t: seq<digit>, k: nat)
    requires k < |s| == |t| && s[k] < t[k] && s[k + 1..] == t[k + 1..]
    ensures Val(s) < Val(t)
  {
    hide Val, Shift;
    ValSplit(s, k + 1);
    ValSplit(t, k + 1);
    ValStep(s, k);
    ValStep(t, k);
    ValBound(s[..k]);
    ValBound(t[..k]);
    ShiftMono(s[k], t[k], k);
  }

  /** s_cdig: compares two runs of the same length. */
  method Cdig(da: array<digit>, ao: nat, db: array<digit>, bo: nat, len: nat) returns (cmp: int)
    requires ao + len <= da.Length && bo + len <= db.Length
    ensures Orders(cmp, Val(Run(da[..], ao, len)), Val(Run(db[..], bo, len)))
  {
    hide Val;
    ghost var A, B := Run(da[..], ao, len), Run(db[..], bo, len);
    var n := len;
    while n != 0
      invariant 0 <= n <= len && A[n..] == B[n..]
    {
      assert da[ao + n - 1] == A[n - 1] && db[bo + n - 1] == B[n - 1];
      if da[ao + n - 1] > db[bo + n - 1] {
        TopDecides(B, A, n - 1);
        return 1;
      } else if da[ao + n - 1] < db[bo + n - 1] {
        TopDecides(A, B, n - 1);
        return -1;
      }
      n := n - 1;
    }
    assert A == A[0..] && B == B[0..];
    return 0;
  }

  lemma {:induction false} LongerIsLarger(s: seq<digit>, t: seq<digit>)
    requires Clamped(s) && |t| >= 1 && |s| > |t|
    ensures Val(t) < Val(s)
  {
    hide Val, Shift;
    ValTop(s);
    ValBound(t);
    ExpMono(|t|, |s| - 1);
  }

  /** s_ucmp on runs. */
  method UcmpRun(da: array<digit>, ao: nat, ua: nat, db: array<digit>, bo: nat, ub: nat) returns (cmp: int)
    requires ao + ua <= da.Length && bo + ub <= db.Length
    requires Clamped(Run(da[..], ao, ua)) && Clamped(Run(db[..], bo, ub))
    ensures Orders(cmp, Val(Run(da[..], ao, ua)), Val(Run(db[..], bo, ub)))
  {
    hide Val;
    if ua > ub {
      LongerIsLarger(Run(da[..], ao, ua), Run(db[..], bo, ub));
      return 1;
    } else if ub > ua {
      LongerIsLarger(Run(db[..], bo, ub), Run(da[..], ao, ua));
      return -1;
    }
    cmp := Cdig(da, ao, db, bo, ua);
  }

  /** s_ucmp: compares magnitudes. */
  method Ucmp(a: MpInt, b: MpInt) returns (cmp: int)
    requires a.Valid() && b.Valid()
    ensures Orders(cmp, a.Mag(), b.Mag())
  {
    cmp := UcmpRun(a.digits, 0, a.used, b.digits, 0, b.used);
  }

  lemma {:induction false} ZeroMag(s: seq<digit>)
    requires Clamped(s)
    ensures Val(s) >= 0
    ensures Val(s) == 0 <==> |s| == 1 && s[0] == 0
  {
    ValBound(s);
    if |s| > 1 {
      ValTop(s);
    } else {
      assert Val(s[1..]) == 0;
    }
  }

  /** CMPZ: the sign of a value; a zero counts as zero whatever its sign field says. */
  method Cmpz(z: MpInt) returns (cmp: int)
    requires z.Valid()
    ensures Orders(cmp, z.Value(), 0)
  {
    hide Val;
    ZeroMag(Run(z.digits[..], 0, z.used));
    if z.used == 1 && z.digits[0] == 0 {
      return 0;
    }
    return if z.negative then -1 else 1;
  }

  /** mp_int_zero. */
  method Zero(z: MpInt)
    requires z.digits.Length >= 1
    modifies z`used, z`negative, z.digits
    ensures z.Valid() && z.Value() == 0 && !z.negative && z.used == 1
  {
    z.digits[0] := 0;
    z.used := 1;
    z.negative := false;
    ValZeros(Run(z.digits[..], 0, 1));
  }

  /** mp_int_copy. */
  method CopyTo(a: MpInt, c: MpInt)
    requires a.Valid() && c.Valid() && Sep(a, c)
    modifies c, c.digits
    ensures c.Valid() && c.Mag() == old(a.Mag()) && c.negative == old(a.negative) && c.used == old(a.used)
    ensures c.digits.Length >= old(c.digits.Length)
    ensures Moved(c)
  {
    hide Val;
    if a != c {
      Pad(c, a.used);
      Copy(a.digits, 0, c.digits, 0, a.used);
      c.used := a.used;
      c.negative := a.negative;
    }
  }

  /** mp_int_init_copy. */
  method NewCopy(a: MpInt) returns (z: MpInt)
    requires a.Valid()
    ensures fresh(z) && fresh(z.digits) && z.Valid() && z.Mag() == a.Mag() && z.negative == a.negative
  {
    z := new MpInt(a.used);
    CopyTo(a, z);
  }

  /** mp_int_set_value(z, 1). */
  method SetOne(z: MpInt)
    requires z.digits.Length >= 1
    modifies z`used, z`negative, z.digits
    ensures z.Valid() && z.Value() == 1 && !z.negative
  {
    hide Val;
    z.digits[0] := 1;
    z.used := 1;
    z.negative := false;
    ValOne(1);
    assert Run(z.digits[..], 0, 1) == [1];
  }
}

/** Long division and the remainder operations over it. */
module Division {
  import opened Digits
  import opened Buffers
  import opened Powers
  import opened Karatsuba
  import opened MpInts
  import opened Signed
  import opened Shifts
  import opened Barrett
  import opened Quotients
  import opened QuotientRoom

  /** s_dbmul: a run times one digit into a cleared buffer one digit longer. */
  method DbMul(da: array<digit>, b: digit, dc: array<digit>, size: nat)
    requires size <= da.Length && size < dc.Length && da != dc && dc[size] == 0
    modifies dc
    ensures Val(Run(dc[..], 0, size + 1)) == b * Val(Run(da[..], 0, size))
    ensures OnlyRun(old(dc[..]), dc[..], 0, size + 1)
  {
    hide Val, Shift, Carry, Lows;
    ghost var A := Run(da[..], 0, size);
    PropagateStart([], b, A);
    var w: word := 0;
    var i := 0;
    while i < size
      invariant i <= size && w < RADIX
      invariant w == Carry([], b, A, i)
      invariant Run(dc[..], 0, i) == Lows([], b, A, i)
      invariant OnlyRun(old(dc[..]), dc[..], 0, i)
    {
      assert da[i] == A[i];
      DigitProduct(da[i], b);
      MulComm(da[i], b);
      PropagateStep([], b, A, i, 0, da[i]);
      w := da[i] * b + w;
      RunGrows(dc[..], 0, i, w % RADIX);
      dc[i] := w % RADIX;
      w := w / RADIX;
      i := i + 1;
    }
    RunGrows(dc[..], 0, size, w);
    LowsVal([], b, A, size);
    ValZeros([]);
    if w != 0 {
      dc[size] := w;
    } else {
      assert dc[..][size := w] == dc[..];
    }
  }

  /** The CLAMP of the partial remainder, a window on the dividend's digits; the window may have just left
      the low end. */
  method ClampWindow(d: array<digit>, pos: int, n: nat) returns (m: nat)
    requires pos >= -1 && n >= 1 && 0 <= pos + n <= d.Length
    ensures 1 <= m <= n && (m == 1 || d[pos + m - 1] != 0)
    ensures forall i :: pos + m <= i < pos + n ==> d[i] == 0
  {
    m := n;
    while m > 1 && d[pos + m - 1] == 0
      invariant 1 <= m <= n
      invariant forall i :: pos + m <= i < pos + n ==> d[i] == 0
    {
      m := m - 1;
    }
  }

  /** The estimate of a quotient digit, at least 1 and below the radix. */
  method GuessDigit(d: array<digit>, pos: nat, used: nat, btop: digit) returns (q: digit)
    requires used >= 1 && pos + used <= d.Length && btop > 0 && d[pos + used - 1] != 0
    requires used == 1 ==> d[pos] >= btop
    ensures q >= 1 && q == Guessed(d[pos + used - 1], if used > 1 then d[pos + used - 2] else 0, used > 1, btop)
  {
    var pfx: word := d[pos + used - 1];
    if used > 1 && (pfx < btop || d[pos + used - 2] == 0) {
      pfx := pfx * RADIX;
      pfx := pfx + d[pos + used - 2];
    }
    var qdigit: word := WordDiv(pfx, btop);
    if qdigit > RADIX - 1 {
      qdigit := 1;
    }
    q := qdigit;
  }

  /** Word division; at least one when the dividend is not smaller. */
  function WordDiv(x: word, d: digit): (q: word)
    requires d > 0
    ensures q == x / d && (x >= d ==> q >= 1)
  {
    WordDivBounds(x, d);
    x / d
  }

  lemma {:induction false} WordDivBounds(x: word, d: digit)
    requires d > 0
    ensures 0 <= x / d < WORD && (x >= d ==> x / d >= 1)
  {
    QuotientNonneg(x, d);
    DivBounds(x, d);
    if x / d > x {
      MulMono(1, d, x / d);
      assert false;
    }
  }

  /** A positive multiple of b not above the window is taken off it. */
  method TakeMultiple(d: array<digit>, pos: nat, used: nat, b: MpInt, t: MpInt, btop: digit) returns (q: digit)
    requires b.Valid() && t.Valid() && Distinct(b, t) && b.digits != d && t.digits != d && !b.negative && !t.negative
    requires btop == b.digits[b.used - 1] && b.Mag() > 0
    requires used >= 1 && pos + used <= d.Length && Clamped(Run(d[..], pos, used)) && b.Mag() <= Val(Run(d[..], pos, used))
    requires b.used < t.digits.Length && forall i :: 0 <= i < t.digits.Length ==> t.digits[i] == 0
    modifies d, t, t.digits
    ensures q >= 1 && Val(Run(d[..], pos, used)) == old(Val(Run(d[..], pos, used))) - q * b.Mag()
    ensures q * b.Mag() >= b.Mag() && Val(Run(d[..], pos, used)) >= 0
    ensures btop >= RADIX / 2 && old(Val(Run(d[..], pos, used))) < Shift(btop, b.used) ==> Val(Run(d[..], pos, used)) < b.Mag()
    ensures Shift(btop, b.used) <= old(Val(Run(d[..], pos, used))) < RADIX * b.Mag() ==> q == 1
    ensures OnlyRun(old(d[..]), d[..], pos, used)
    ensures t.Valid() && !t.negative && t.digits == old(t.digits) && forall i :: 0 <= i < t.digits.Length ==> t.digits[i] == 0
  {
    hide Val, Shift, Run, Clamped;
    q := ChooseMultiple(d, pos, used, b, t, btop);
    MulDist(q, 1, b.Mag());
    NotLonger(t.digits[..], t.used, d[..], pos, used);
    USub(d, pos, t.digits, 0, d, pos, used, t.used);
    MulMono(1, q, b.Mag());
    WindowBound(d[..], pos, used);
    Clear(t.digits, 0, t.used);
    OneZero(t.digits[..]);
    t.used := 1;
  }

  lemma {:induction false} WindowBound(d: seq<digit>, pos: nat, used: nat)
    requires pos + used <= |d|
    ensures Val(Run(d, pos, used)) >= 0
  {
    ValBound(Run(d, pos, used));
  }

  lemma {:induction false} OneZero(d: seq<digit>)
    requires |d| >= 1
    ensures Clamped(Run(d, 0, 1))
  {
  }

  lemma {:induction false} NotLonger(e: seq<digit>, n: nat, d: seq<digit>, pos: nat, used: nat)
    requires n <= |e| && pos + used <= |d| && used >= 1 && Clamped(Run(e, 0, n)) && Val(Run(e, 0, n)) <= Val(Run(d, pos, used))
    ensures n <= used
  {
    if n > used {
      LongerIsLarger(Run(e, 0, n), Run(d, pos, used));
      assert false;
    }
  }

  /** The estimate times the divisor, lowered until it is not above the window. */
  method ChooseMultiple(d: array<digit>, pos: nat, used: nat, b: MpInt, t: MpInt, btop: digit) returns (q: digit)
    requires b.Valid() && t.Valid() && Distinct(b, t) && b.digits != d && t.digits != d && !b.negative && !t.negative
    requires btop == b.digits[b.used - 1] && b.Mag() > 0
    requires used >= 1 && pos + used <= d.Length && Clamped(Run(d[..], pos, used)) && b.Mag() <= Val(Run(d[..], pos, used))
    requires b.used < t.digits.Length && forall i :: 0 <= i < t.digits.Length ==> t.digits[i] == 0
    modifies t, t.digits
    ensures t.Valid() && !t.negative && t.digits == old(t.digits)
    ensures q >= 1 && t.Mag() == q * b.Mag() <= Val(Run(d[..], pos, used))
    ensures forall i :: t.used <= i < t.digits.Length ==> t.digits[i] == 0
    ensures btop >= RADIX / 2 && Val(Run(d[..], pos, used)) < Shift(btop, b.used) ==> Val(Run(d[..], pos, used)) < (q + 1) * b.Mag()
    ensures Shift(btop, b.used) <= Val(Run(d[..], pos, used)) < RADIX * b.Mag() ==> q == 1
  {
    hide Val, Shift, Guessed;
    TopsCompare(d[..], pos, used, b.digits[..], b.used);
    q := GuessDigit(d, pos, used, btop);
    GuessOfWindow(d[..], pos, used, b.digits[..], b.used);
    DbMul(b.digits, q, t.digits, b.used);
    t.used := b.used + 1;
    Clamp(t);
    q := LowerGuess(d, pos, used, b, t, q);
  }

  /** The estimate is high enough without a tie of top digits and one with a tie. */
  lemma {:induction false} GuessOfWindow(d: seq<digit>, pos: nat, used: nat, e: seq<digit>, ub: nat)
    requires used >= 1 && pos + used <= |d| && 1 <= ub <= |e| && Clamped(Run(d, pos, used)) && Clamped(Run(e, 0, ub))
    requires e[ub - 1] > 0 && Val(Run(e, 0, ub)) <= Val(Run(d, pos, used))
    ensures var g := Guessed(d[pos + used - 1], if used > 1 then d[pos + used - 2] else 0, used > 1, e[ub - 1]);
      && (e[ub - 1] >= RADIX / 2 && Val(Run(d, pos, used)) < Shift(e[ub - 1], ub) ==>
            Val(Run(d, pos, used)) < (g + 1) * Val(Run(e, 0, ub)))
      && (Shift(e[ub - 1], ub) <= Val(Run(d, pos, used)) < RADIX * Val(Run(e, 0, ub)) ==> g == 1)
  {
    hide Val, Shift, Guessed, Clamped;
    var r, b := Run(d, pos, used), Run(e, 0, ub);
    if e[ub - 1] >= RADIX / 2 && Val(r) < Shift(e[ub - 1], ub) {
      GuessHigh(r, b);
    }
    if Shift(e[ub - 1], ub) <= Val(r) < RADIX * Val(b) {
      GuessTie(r, b);
    }
  }

  lemma {:induction false} TopsCompare(d: seq<digit>, pos: nat, used: nat, e: seq<digit>, ub: nat)
    requires used >= 1 && pos + used <= |d| && 1 <= ub <= |e| && Clamped(Run(d, pos, used)) && Clamped(Run(e, 0, ub))
    requires 0 < Val(Run(e, 0, ub)) <= Val(Run(d, pos, used))
    ensures d[pos + used - 1] != 0 && e[ub - 1] > 0
    ensures used == 1 ==> d[pos] >= e[ub - 1]
  {
    var s, t := Run(d, pos, used), Run(e, 0, ub);
    ZeroMag(s);
    ZeroMag(t);
    if used == 1 {
      if ub > 1 {
        LongerIsLarger(t, s);
      } else {
        assert s == [d[pos]] && t == [e[0]];
        ValOne(d[pos]);
        ValOne(e[0]);
      }
    }
  }

  /** The correction loop of s_udiv: the guess is lowered until its multiple is not above the window. */
  method LowerGuess(d: array<digit>, pos: nat, used: nat, b: MpInt, t: MpInt, q0: digit) returns (q: digit)
    requires b.Valid() && t.Valid() && Distinct(b, t) && t.digits != d && !b.negative && !t.negative
    requires used >= 1 && pos + used <= d.Length && Clamped(Run(d[..], pos, used))
    requires 0 < b.Mag() <= Val(Run(d[..], pos, used)) && q0 >= 1 && t.Mag() == q0 * b.Mag()
    requires forall i :: t.used <= i < t.digits.Length ==> t.digits[i] == 0
    modifies t, t.digits
    ensures t.Valid() && !t.negative && t.digits == old(t.digits)
    ensures 1 <= q <= q0 && t.Mag() == q * b.Mag() <= Val(Run(d[..], pos, used))
    ensures q < q0 ==> Val(Run(d[..], pos, used)) < (q + 1) * b.Mag()
    ensures forall i :: t.used <= i < t.digits.Length ==> t.digits[i] == 0
  {
    hide Val, Run, Clamped;
    q := q0;
    var cmp := UcmpRun(t.digits, 0, t.used, d, pos, used);
    while cmp > 0
      invariant t.Valid() && !t.negative && t.digits == old(t.digits)
      invariant 1 <= q <= q0 && t.Mag() == q * b.Mag()
      invariant q < q0 ==> Val(Run(d[..], pos, used)) < (q + 1) * b.Mag()
      invariant forall i :: t.used <= i < t.digits.Length ==> t.digits[i] == 0
      invariant Orders(cmp, t.Mag(), Val(Run(d[..], pos, used)))
      decreases q
    {
      MulDist(q, -1, b.Mag());
      assert q > 1 by {
        if q == 1 {
          assert false;
        }
      }
      MulMono(1, q, b.Mag());
      if b.used > t.used {
        LongerIsLarger(Run(b.digits[..], 0, b.used), Run(t.digits[..], 0, t.used));
        assert false;
      }
      q := q - 1;
      Sub(t, b, t);
      cmp := UcmpRun(t.digits, 0, t.used, d, pos, used);
    }
  }

  /** s_norm: both operands times the power of two that brings the top digit of b to half the radix or more. */
  method Norm(a: MpInt, b: MpInt) returns (k: nat)
    requires a.Valid() && b.Valid() && Distinct(a, b) && b.Mag() > 0
    modifies a`digits, a`used, a.digits, b`digits, b`used, b.digits
    ensures a.Valid() && b.Valid() && Distinct(a, b) && Moved(a) && Moved(b)
    ensures a.Mag() == Pow2(k) * old(a.Mag()) && b.Mag() == Pow2(k) * old(b.Mag())
    ensures b.digits[b.used - 1] >= RADIX / 2 && b.used == old(b.used) && k < 32
  {
    hide Val, Shift, Pow2, Run, Clamped;
    ghost var B := Run(b.digits[..], 0, b.used);
    TopPositive(b.digits[..], b.used);
    k := NormShift(b.digits[b.used - 1]);
    OneIsNoShift();
    if k != 0 {
      QMul(a, k);
      QMul(b, k);
    }
    ghost var C := Run(b.digits[..], 0, b.used);
    TopNormal(B, C, k);
    RunAt(b.digits[..], 0, b.used, b.used - 1);
  }

  lemma {:induction false} TopPositive(d: seq<digit>, n: nat)
    requires n <= |d| && Clamped(Run(d, 0, n)) && Val(Run(d, 0, n)) > 0
    ensures n >= 1 && d[n - 1] > 0 && Run(d, 0, n)[n - 1] == d[n - 1]
  {
    ZeroMag(Run(d, 0, n));
  }

  /** How far a top digit must be shifted to reach half the radix. */
  method NormShift(top: digit) returns (k: nat)
    requires top > 0
    ensures RADIX / 2 <= Pow2(k) * top < RADIX && k < 32
  {
    hide Pow2;
    var d: int := top;
    k := 0;
    OneIsNoShift();
    while d < RADIX / 2
      invariant 0 < d < RADIX && d == Pow2(k) * top
      decreases RADIX - d
    {
      NormStep(k, top);
      d := 2 * d;
      k := k + 1;
    }
    PowerBelow(k, top);
  }

  lemma {:induction false} PowerBelow(k: nat, d: digit)
    requires d > 0 && Pow2(k) * d < RADIX
    ensures k < 32
  {
    hide Pow2;
    MulMono(1, d, Pow2(k));
    MulComm(d, Pow2(k));
    Pow2Radix();
    if k >= 32 {
      Pow2Mono(32, k);
      assert false;
    }
  }

  lemma {:induction false} NormStep(k: nat, d: int)
    ensures Pow2(k + 1) * d == 2 * (Pow2(k) * d)
  {
    MulAssoc(2, Pow2(k), d);
  }

  /** A multiple by a power of two that keeps the top digit below the radix keeps the length. */
  lemma {:induction false} TopNormal(b: seq<digit>, c: seq<digit>, k: nat)
    requires b != [] && Clamped(c) && RADIX / 2 <= Pow2(k) * b[|b| - 1] < RADIX && Val(c) == Pow2(k) * Val(b)
    ensures |c| == |b| && c[|c| - 1] >= RADIX / 2
  {
    hide Val, Shift, Pow2;
    var n, d: int, p := |b| - 1, b[|b| - 1], Pow2(k);
    TopBounds(b);
    TopBounds(c);
    MulMono(Shift(d, n), Val(b), p);
    MulComm(p, Val(b));
    ShiftTimes(d, p, n);
    MulComm(p, d);
    ShiftMono(RADIX / 2, p * d, n);
    PowerBound(b, k);
    if |c| > |b| {
      ValTop(c);
      ExpMono(|b|, |c| - 1);
      assert false;
    } else if |c| < |b| {
      ValBound(c);
      ExpMono(|c|, n);
      ShiftMono(1, RADIX / 2, n);
      assert false;
    }
    ShiftCancel(RADIX / 2, c[n] as int + 1, n);
  }

  lemma {:induction false} PowerBound(b: seq<digit>, k: nat)
    requires b != [] && 0 < b[|b| - 1] && Pow2(k) * b[|b| - 1] < RADIX
    ensures Pow2(k) * Val(b) < Exp(|b|)
  {
    hide Val, Shift, Pow2;
    var n, d: int, p := |b| - 1, b[|b| - 1], Pow2(k);
    TopBounds(b);
    SpareMultiple(k, d);
    MulMono(Val(b) + 1, Shift(d + 1, n), p);
    MulDist(Val(b), 1, p);
    MulComm(p, Val(b));
    ShiftTimes(d + 1, p, n);
    MulComm(p, d + 1);
    ShiftMono(p * (d + 1), RADIX, n);
    ShiftUp(1, n);
  }

  /** Below the radix a multiple of a power of two leaves room for another. */
  lemma {:induction false} SpareMultiple(k: nat, d: int)
    requires d > 0 && Pow2(k) * d < RADIX
    ensures Pow2(k) * (d + 1) <= RADIX
  {
    hide Pow2;
    var p := Pow2(k);
    MulMono(1, d, p);
    MulComm(p, d);
    Pow2Radix();
    Pow2Mono(32, k);
    assert k <= 32;
    Pow2Part(k);
    var r := Pow2(32 - k);
    if d >= r {
      MulMono(r, d, p);
      MulComm(p, r);
      assert false;
    }
    MulMono(d + 1, r, p);
    MulComm(p, r);
    MulComm(p, d + 1);
  }

  /** The window one position further down, before and after its zeros on top are dropped. */
  lemma {:induction false} WindowDown(d: seq<digit>, pos: nat, used: nat, used': nat)
    requires 1 <= pos && 1 <= used' <= used + 1 && pos + used <= |d|
    requires forall i :: pos - 1 + used' <= i < pos + used ==> d[i] == 0
    ensures Val(Run(d, pos - 1, used')) == d[pos - 1] + RADIX * Val(Run(d, pos, used))
  {
    RunTrim(d, pos - 1, used', used + 1);
    assert Run(d, pos - 1, used + 1)[1..] == Run(d, pos, used);
  }

  lemma {:induction false} FirstWindow(d: seq<digit>, ua: nat)
    requires 1 <= ua <= |d|
    ensures Val(Run(d, ua - 1, 1)) == d[ua - 1] && Run(d, 0, ua)[ua - 1] == d[ua - 1] && Run(d, 0, ua) == d[..ua]
  {
    assert Run(d, ua - 1, 1) == [d[ua - 1]];
    assert Val([d[ua - 1]]) == d[ua - 1];
  }

  /** Where the digit loop stands: the window at pos, zeros above it, the dividend's own digits below it. */
  ghost predicate AtWindow(d: seq<digit>, s: seq<digit>, m: int, t: int, pos: nat, used: nat, q: int, n: int, here: bool, once: bool) {
    && used >= 1 && pos + used <= |s| <= |d| && Clamped(Run(d, pos, used)) && d[..pos] == s[..pos]
    && ZerosFrom(d, pos + used, |s|) && Track(s, m, t, pos, Val(Run(d, pos, used)), q, n, here, once)
  }

  lemma {:induction false} WindowStarts(d: seq<digit>, ua: nat, m: int, t: int)
    requires 1 <= ua <= |d| && m > 0 && t > 0
    ensures AtWindow(d, Run(d, 0, ua), m, t, ua - 1, 1, 0, 0, false, true)
  {
    hide Track, Val;
    FirstWindow(d, ua);
    OneClamped(d, ua - 1);
    TrackStarts(Run(d, 0, ua), m, t);
  }

  lemma {:induction false} WindowMoves(d: seq<digit>, s: seq<digit>, m: int, t: int, pos: nat, used: nat, q: int, n: int, here: bool, once: bool,
                                       used': nat)
    requires AtWindow(d, s, m, t, pos, used, q, n, here, once) && Val(Run(d, pos, used)) < m && 2 * m <= RADIX * t && pos >= 1
    requires 1 <= used' <= used + 1 && (used' == 1 || d[pos - 1 + used' - 1] != 0)
    requires forall i :: pos - 1 + used' <= i < pos + used ==> d[i] == 0
    ensures AtWindow(d, s, m, t, pos - 1, used', RADIX * q, if here then n else RADIX * n, false, once)
  {
    hide Track, Val;
    TrackMoves(s, m, t, pos, Val(Run(d, pos, used)), q, n, here, once);
    assert d[pos - 1] == d[..pos][pos - 1] == s[pos - 1];
    assert d[..pos - 1] == d[..pos][..pos - 1];
    assert s[..pos - 1] == s[..pos][..pos - 1];
    WindowDown(d, pos, used, used');
    WindowClamped(d, pos - 1, used');
  }

  lemma {:induction false} WindowEnds(d: seq<digit>, s: seq<digit>, m: int, t: int, used: nat, q: int, n: int, here: bool, once: bool)
    requires AtWindow(d, s, m, t, 0, used, q, n, here, once) && Val(Run(d, 0, used)) < m && 2 * m <= RADIX * t && m > 0 && t > 0
    ensures |s| <= |d| && Val(Run(d, 0, |s|)) < m && Val(s) == Val(Run(d, 0, |s|)) + q * m && Val(s) >= 0
    ensures (if here then n else RADIX * n) >= q
    ensures (if here then n else RADIX * n) == q <==> NoTie(Val(s), m, t)
  {
    hide Track, Val;
    TrackEnds(s, m, t, Val(Run(d, 0, used)), q, n, here, once);
    RunTrim(d, 0, used, |s|);
    NoTieIs(s, m, t);
  }

  lemma {:induction false} WindowTakes(D: seq<digit>, d: seq<digit>, s: seq<digit>, m: int, t: int, pos: nat, used: nat, q: int, n: int,
                                       here: bool, once: bool, x: int, used': nat)
    requires AtWindow(D, s, m, t, pos, used, q, n, here, once) && 2 * m <= RADIX * t && m <= Val(Run(D, pos, used))
    requires |d| == |D| && OnlyRun(D, d, pos, used) && x >= 1
    requires Val(Run(d, pos, used)) == Val(Run(D, pos, used)) - x * m && Val(Run(d, pos, used)) >= 0
    requires Val(Run(D, pos, used)) < RADIX * t ==> Val(Run(d, pos, used)) < m
    requires RADIX * t <= Val(Run(D, pos, used)) < RADIX * m ==> x == 1
    requires 1 <= used' <= used && (used' == 1 || d[pos + used' - 1] != 0)
    requires forall i :: pos + used' <= i < pos + used ==> d[i] == 0
    ensures AtWindow(d, s, m, t, pos, used', q + x, RADIX * n + x, true, once && !here)
    ensures Val(Run(d, pos, used')) < Val(Run(D, pos, used)) && Val(Run(d, pos, used')) == Val(Run(d, pos, used))
  {
    hide Track, Val;
    TrackTakes(s, m, t, pos, Val(Run(D, pos, used)), q, n, here, once, x, Val(Run(d, pos, used)));
    assert d[..pos] == D[..pos];
    RunTrim(d, pos, used', used);
    WindowClamped(d, pos, used');
    MulMono(1, x, m);
  }

  lemma {:induction false} WindowFacts(d: seq<digit>, s: seq<digit>, m: int, t: int, pos: nat, used: nat, q: int, n: int, here: bool, once: bool)
    requires AtWindow(d, s, m, t, pos, used, q, n, here, once)
    ensures used >= 1 && pos + used <= |s| <= |d| && Clamped(Run(d, pos, used)) && Val(Run(d, pos, used)) >= 0
  {
  }

  /** q.digits[qpos++] = x. */
  method Put(q: array<digit>, qpos: nat, x: digit)
    requires qpos < q.Length
    modifies q
    ensures q[..qpos + 1] == old(q[..qpos]) + [x]
  {
    q[qpos] := x;
  }

  /** How many digits the loop puts out. */
  ghost function PushedBy(a: MpInt, b: MpInt): int
    requires a.Valid() && b.Valid() && b.Mag() > 0
    reads a, a.digits, b, b.digits
  {
    Pushed(Run(a.digits[..], 0, a.used), b.Mag(), Shift(b.digits[b.used - 1], b.used - 1))
  }

  /** How far the loop is: the quotient so far, and of the window's position whether it has a digit, how many, and whether no
      position has got two. */
  datatype Progress = Progress(quotient: int, here: bool, once: bool, j: int)

  /** Where the loop stands with the digits Q put out. */
  ghost predicate Stands(d: seq<digit>, s: seq<digit>, m: int, t: int, pos: nat, used: nat, Q: seq<digit>, g: Progress) {
    && AtWindow(d, s, m, t, pos, used, g.quotient, Emitted(Q), g.here, g.once)
    && Counted(s, m, t, pos, Val(Run(d, pos, used)), |Q|, g.here, g.j)
  }

  /** What the loop leaves of the digits s. */
  ghost predicate Divided(d: seq<digit>, s: seq<digit>, m: int, t: int, Q: seq<digit>, quotient: int) {
    && s != [] && m > 0 && |s| <= |d| && Val(s) >= 0
    && Val(Run(d, 0, |s|)) < m && Val(s) == Val(Run(d, 0, |s|)) + quotient * m
    && Emitted(Q) >= quotient && (Emitted(Q) == quotient <==> NoTie(Val(s), m, t)) && |Q| == Pushed(s, m, t)
  }

  lemma {:induction false} StandsFirst(d: seq<digit>, ua: nat, m: int, t: int)
    requires 1 <= ua <= |d| && m > 0 && t > 0
    ensures Stands(d, Run(d, 0, ua), m, t, ua - 1, 1, [], Progress(0, false, true, 0))
  {
    hide Val, AtWindow, Counted;
    WindowStarts(d, ua, m, t);
    WindowCounts(d, ua, m, t);
    EmittedNone();
  }

  lemma {:induction false} StandsFacts(d: seq<digit>, s: seq<digit>, m: int, t: int, pos: nat, used: nat, Q: seq<digit>, g: Progress)
    requires Stands(d, s, m, t, pos, used, Q, g)
    ensures used >= 1 && pos + used <= |s| <= |d| && Clamped(Run(d, pos, used)) && Val(Run(d, pos, used)) >= 0
    ensures pos == |s| - 1 && !g.here ==> |Q| == 0
  {
    hide Val, Track, Emitted, Surplus, Start;
    WindowFacts(d, s, m, t, pos, used, g.quotient, Emitted(Q), g.here, g.once);
    if pos == |s| - 1 {
      NoneAbove(s, m, t);
    }
  }

  lemma {:induction false} NoneAbove(s: seq<digit>, m: int, t: int)
    requires m > 0
    ensures SurplusFrom(s, m, t, |s|) == 0
  {
  }

  /** Below the divisor the window moves down, or the loop is done; Q' has a zero for a position left without a digit. */
  lemma {:induction false} StandsDown(d: seq<digit>, s: seq<digit>, m: int, t: int, pos: nat, used: nat, Q: seq<digit>, g: Progress,
                                      Q': seq<digit>, used': nat)
    requires Stands(d, s, m, t, pos, used, Q, g) && Val(Run(d, pos, used)) < m && 2 * m <= RADIX * t && m > 0 && t > 0
    requires Q' == if !g.here && pos < |s| - 1 then Q + [0] else Q
    requires 1 <= used' <= used + 1 && (used' == 1 || d[pos - 1 + used' - 1] != 0)
    requires forall i :: pos - 1 + used' <= i < pos + used ==> d[i] == 0
    ensures s != [] && |Q'| <= Pushed(s, m, t)
    ensures if pos == 0 then Divided(d, s, m, t, Q', g.quotient)
      else Stands(d, s, m, t, pos - 1, used', Q', Progress(RADIX * g.quotient, false, g.once, 0))
  {
    hide Val, AtWindow, Counted, Emitted, NoTie, Pushed, Start;
    StandsFacts(d, s, m, t, pos, used, Q, g);
    WindowStart(d, s, m, t, pos, used, g.quotient, Emitted(Q), g.here, g.once);
    EmittedNone();
    CountMoves(s, m, t, pos, Val(Run(d, pos, used)), |Q|, g.here, g.j);
    EmittedSnoc(Q, 0);
    if pos == 0 {
      WindowEnds(d, s, m, t, used, g.quotient, Emitted(Q), g.here, g.once);
    } else {
      WindowMoves(d, s, m, t, pos, used, g.quotient, Emitted(Q), g.here, g.once, used');
      WindowStart(d, s, m, t, pos - 1, used', RADIX * g.quotient, Emitted(Q'), false, g.once);
    }
  }

  /** Otherwise x times the divisor is taken off the window, and x put out. */
  lemma {:induction false} StandsTaking(D: seq<digit>, d: seq<digit>, s: seq<digit>, m: int, t: int, pos: nat, used: nat, Q: seq<digit>,
                                        g: Progress, x: digit, used': nat)
    requires Stands(D, s, m, t, pos, used, Q, g) && 2 * m <= RADIX * t && m <= Val(Run(D, pos, used))
    requires |d| == |D| && OnlyRun(D, d, pos, used) && x >= 1
    requires Val(Run(d, pos, used)) == Val(Run(D, pos, used)) - x * m && Val(Run(d, pos, used)) >= 0
    requires Val(Run(D, pos, used)) < RADIX * t ==> Val(Run(d, pos, used)) < m
    requires RADIX * t <= Val(Run(D, pos, used)) < RADIX * m ==> x == 1
    requires 1 <= used' <= used && (used' == 1 || d[pos + used' - 1] != 0)
    requires forall i :: pos + used' <= i < pos + used ==> d[i] == 0
    ensures s != [] && m > 0 && |Q| < Pushed(s, m, t) && pos + used' <= |d| && Val(Run(d, pos, used')) < Val(Run(D, pos, used))
    ensures Stands(d, s, m, t, pos, used', Q + [x], Progress(g.quotient + x, true, g.once && !g.here, g.j + 1))
  {
    hide Val, AtWindow, Counted, Emitted, Pushed, Start;
    StandsFacts(D, s, m, t, pos, used, Q, g);
    WindowStart(D, s, m, t, pos, used, g.quotient, Emitted(Q), g.here, g.once);
    WindowTakes(D, d, s, m, t, pos, used, g.quotient, Emitted(Q), g.here, g.once, x, used');
    CountTakes(s, m, t, pos, Val(Run(D, pos, used)), |Q|, g.here, g.j, x, Val(Run(d, pos, used)));
    EmittedSnoc(Q, x);
  }

  /** The digit loop of s_udiv. The window at pos is what is left of the dividend's upper digits; the loop ends with less
      than the divisor, by the lexicographic measure of window position and window value. The digits put out, most
      significant first, are as many as PushedBy counts, which must be the room there is, and they denote the quotient
      exactly when the partial remainders never tie with the divisor's top digit. */
  method DivideDigits(a: MpInt, b: MpInt, t: MpInt, q: array<digit>) returns (qpos: nat, ghost quotient: int)
    requires a.Valid() && b.Valid() && t.Valid() && Distinct(a, b) && Distinct(a, t) && Distinct(b, t)
    requires q != a.digits && q != b.digits && q != t.digits
    requires !b.negative && !t.negative && b.Mag() > 0 && b.digits[b.used - 1] >= RADIX / 2
    requires b.used < t.digits.Length && forall i :: 0 <= i < t.digits.Length ==> t.digits[i] == 0
    requires PushedBy(a, b) <= q.Length
    modifies a.digits, t, t.digits, q
    ensures a.Mag() < b.Mag() && old(a.Mag()) == a.Mag() + quotient * b.Mag()
    ensures qpos == old(PushedBy(a, b)) <= q.Length && Emitted(q[..qpos]) >= quotient
    ensures Emitted(q[..qpos]) == quotient <==> NoTie(old(a.Mag()), b.Mag(), Shift(b.digits[b.used - 1], b.used - 1))
  {
    hide Val, Shift, Stands, Emitted, NoTie, Clamped, Run, Pushed;
    var d, ua := a.digits, a.used;
    var btop := b.digits[b.used - 1];
    var pos: int, used, skip := ua - 1, 1, 0;
    ghost var S, M, T := Run(d[..], 0, ua), b.Mag(), Shift(btop, b.used - 1);
    ghost var g := Progress(0, false, true, 0);
    qpos := 0;
    TopPositive(b.digits[..], b.used);
    TwiceBelow(Run(b.digits[..], 0, b.used));
    StandsFirst(d[..], ua, M, T);
    assert q[..0] == [];
    while pos >= 0
      invariant -1 <= pos < ua && 1 <= used && 0 <= pos + used <= ua && 0 <= qpos <= q.Length
      invariant b.Valid() && b.Mag() == M && t.Valid() && !t.negative && t.digits == old(t.digits)
      invariant forall i :: 0 <= i < t.digits.Length ==> t.digits[i] == 0
      invariant pos >= 0 ==> Stands(d[..], S, M, T, pos, used, q[..qpos], g)
      invariant pos >= 0 ==> if g.here then skip == 0 else skip >= 1 <==> pos < ua - 1
      invariant pos == -1 ==> Divided(d[..], S, M, T, q[..qpos], g.quotient)
      decreases pos, if pos >= 0 then Val(Run(d[..], pos, used)) else 0
    {
      ghost var D, Q, used0 := d[..], q[..qpos], used;
      StandsFacts(D, S, M, T, pos, used, Q, g);
      var cmp := UcmpRun(b.digits, 0, b.used, d, pos, used);
      if cmp > 0 {
        pos := pos - 1;
        used := ClampWindow(d, pos, used + 1);
        ghost var Q' := if !g.here && pos + 1 < ua - 1 then Q + [0] else Q;
        StandsDown(D, S, M, T, pos + 1, used0, Q, g, Q', used);
        skip := skip + 1;
        if skip > 1 {
          Put(q, qpos, 0);
          qpos := qpos + 1;
        }
        g := if pos < 0 then g else Progress(RADIX * g.quotient, false, g.once, 0);
      } else {
        var qdigit := TakeMultiple(d, pos, used, b, t, btop);
        used := ClampWindow(d, pos, used);
        StandsTaking(D, d[..], S, M, T, pos, used0, Q, g, qdigit, used);
        Put(q, qpos, qdigit);
        qpos := qpos + 1;
        skip := 0;
        g := Progress(g.quotient + qdigit, true, g.once && !g.here, g.j + 1);
      }
    }
    quotient := g.quotient;
  }

  lemma {:induction false} WindowCounts(d: seq<digit>, ua: nat, m: int, t: int)
    requires 1 <= ua <= |d| && m > 0
    ensures Counted(Run(d, 0, ua), m, t, ua - 1, Val(Run(d, ua - 1, 1)), 0, false, 0)
  {
    FirstWindow(d, ua);
    CountStarts(Run(d, 0, ua), m, t);
  }

  lemma {:induction false} WindowStart(d: seq<digit>, s: seq<digit>, m: int, t: int, pos: nat, used: nat, q: int, n: int, here: bool, once: bool)
    requires AtWindow(d, s, m, t, pos, used, q, n, here, once)
    ensures pos < |s| && m > 0 && (!here ==> Val(Run(d, pos, used)) == Start(s, m, pos))
  {
  }

  lemma {:induction false} OneClamped(d: seq<digit>, pos: nat)
    requires pos < |d|
    ensures Clamped(Run(d, pos, 1))
  {
  }

  lemma {:induction false} WindowClamped(d: seq<digit>, pos: nat, used: nat)
    requires used >= 1 && pos + used <= |d| && (used == 1 || d[pos + used - 1] != 0)
    ensures Clamped(Run(d, pos, used))
  {
  }

  lemma {:induction false} EmittedNone()
    ensures Emitted([]) == 0
  {
  }

  lemma {:induction false} Denormalize(p: int, a: int, b: int, r: int, s: int)
    requires p >= 1 && b > 0 && 0 <= r < p * b && p * a == r + s * (p * b)
    ensures r / p == a % b && s == a / b
  {
    var x := a - s * b;
    MulAssoc(s, p, b);
    MulComm(s, p);
    MulAssoc(p, s, b);
    MulComm(p, x);
    MulDist(a, -(s * b), p);
    NegMul(s * b, p);
    MulComm(p, a);
    MulComm(p, s * b);
    assert r == p * x;
    DivUnique(r, p, x, 0);
    if x < 0 {
      MulMono(x, -1, p);
      assert false;
    }
    if x >= b {
      MulMono(b, x, p);
      MulComm(p, b);
      assert false;
    }
    MulComm(s, b);
    DivUnique(a, b, s, x);
  }

  /** A zero all of whose room is cleared. */
  method Cleared(n: nat) returns (t: MpInt)
    ensures fresh(t) && fresh(t.digits) && t.Valid() && !t.negative && t.digits.Length >= n
    ensures forall i :: 0 <= i < t.digits.Length ==> t.digits[i] == 0
  {
    t := new MpInt(n);
    Clear(t.digits, 0, t.digits.Length);
    t.used := 1;
  }

  /** A divisor that Norm has scaled. */
  lemma {:induction false} ScaledBy(d: seq<digit>, n: nat, b: nat, k: nat)
    requires 1 <= n <= |d| && d[n - 1] >= RADIX / 2 && Val(Run(d, 0, n)) == Pow2(k) * b && k < 32
    ensures var t := Shift(d[n - 1], n - 1); Scaled(b, k, t) && t > 0
  {
    hide Val, Shift, Pow2;
    TopBounds(Run(d, 0, n));
    ShiftMono(1, d[n - 1], n - 1);
    assert TopAt(Pow2(k) * b, Shift(d[n - 1], n - 1), d[n - 1], n - 1);
  }

  lemma {:induction false} DivByOne(x: int)
    ensures x / 1 == x
  {
  }

  ghost function Backwards(q: seq<digit>): (r: seq<digit>)
    ensures |r| == |q| && forall i :: 0 <= i < |q| ==> r[i] == q[|q| - 1 - i]
  {
    if q == [] then [] else [q[|q| - 1]] + Backwards(q[..|q| - 1])
  }

  lemma {:induction false} BackwardsValue(q: seq<digit>)
    ensures Val(Backwards(q)) == Emitted(q)
  {
    if q != [] {
      BackwardsValue(q[..|q| - 1]);
      assert Backwards(q)[1..] == Backwards(q[..|q| - 1]);
    }
  }

  /** REV: the first n digits turned around in place. */
  method Reverse(d: array<digit>, n: nat)
    requires n <= d.Length
    modifies d
    ensures d[..n] == Backwards(old(d[..n]))
  {
    var u, v := 0, n - 1;
    while u < v
      invariant 0 <= u <= v + 2 && u + v == n - 1
      invariant forall i :: 0 <= i < u ==> d[i] == old(d[n - 1 - i]) && d[n - 1 - i] == old(d[i])
      invariant forall i :: u <= i <= v ==> d[i] == old(d[i])
    {
      d[u], d[v] := d[v], d[u];
      u, v := u + 1, v - 1;
    }
    ghost var s := old(d[..n]);
    assert forall i :: 0 <= i < n ==> d[i] == s[n - 1 - i];
  }

  /** The digits put out, turned around and without zeros on top. */
  method FromEmitted(q: MpInt, qpos: nat)
    requires 1 <= qpos <= q.digits.Length
    modifies q`used, q.digits
    ensures q.Valid() && q.Mag() == Emitted(old(q.digits[..qpos]))
  {
    hide Val, Emitted, Clamped;
    ghost var s := q.digits[..qpos];
    q.used := qpos;
    Reverse(q.digits, qpos);
    BackwardsValue(s);
    assert Run(q.digits[..], 0, qpos) == Backwards(s);
    Clamp(q);
  }

  lemma {:induction false} SomeDigit(q: seq<digit>, a: int, b: int)
    requires 0 < b <= a && Emitted(q) >= a / b
    ensures q != []
  {
    DivBounds(a, b);
    if a / b <= 0 {
      MulMono(a / b, 0, b);
      MulComm(b, a / b);
      assert false;
    }
  }

  /** The buffer made after Norm has the room the operands tell. */
  lemma {:induction false} RoomIs(d: seq<digit>, n: nat, a: nat, b: nat, k: nat, t: int)
    requires n <= |d| && Clamped(Run(d, 0, n)) && Val(Run(d, 0, n)) == Pow2(k) * a && b > 0 && Scaled(b, k, t) && QuotientFits(a, b)
    ensures Pow2(k) * b > 0 && Pushed(Run(d, 0, n), Pow2(k) * b, t) <= Capacity(n)
  {
    hide Val, Shift, Pow2, TopPart, Pushed, DigitsOf;
    ScaledSigns(a, b, k);
    DigitsAre(Run(d, 0, n));
    FitsIs(a, b, k, t);
  }

  /** s_udiv on magnitudes: the remainder, and the digits put out for the quotient. They denote the quotient exactly when no
      partial remainder ties with the divisor's top digit. */
  method DivideMags(a: MpInt, b: MpInt) returns (q: MpInt, qpos: nat, k: nat)
    requires a.Valid() && b.Valid() && Distinct(a, b) && 0 < b.Mag() <= a.Mag() && !b.negative && QuotientFits(a.Mag(), b.Mag())
    modifies a, a.digits, b`digits, b`used, b.digits
    ensures a.Valid() && b.Valid() && Moved(a) && Moved(b) && Distinct(a, b)
    ensures fresh(q) && fresh(q.digits) && Distinct(a, q) && Distinct(b, q) && !q.negative && qpos <= q.digits.Length
    ensures a.Mag() / Pow2(k) == old(a.Mag()) % old(b.Mag()) && (k == 0 ==> a.Mag() == old(a.Mag()) % old(b.Mag()))
    ensures Emitted(q.digits[..qpos]) >= old(a.Mag()) / old(b.Mag())
    ensures Emitted(q.digits[..qpos]) == old(a.Mag()) / old(b.Mag()) <==> !Ties(old(a.Mag()), old(b.Mag()))
  {
    hide Val, Shift, Run, Clamped, Pow2, TopPart, NoTie, Emitted, Scaled, Ties, QuotientFits, Pushed;
    ghost var A, B := a.Mag(), b.Mag();
    k := Norm(a, b);
    MulMono(B, A, Pow2(k));
    MulComm(A, Pow2(k));
    MulComm(B, Pow2(k));
    NotLonger(b.digits[..], b.used, a.digits[..], 0, a.used);
    q := new MpInt(a.used);
    var tmp := Cleared(a.used + 1);
    MulMono(1, Pow2(k), B);
    ghost var t := Shift(b.digits[b.used - 1], b.used - 1);
    ScaledBy(b.digits[..], b.used, B, k);
    TiesIs(A, B, k, t);
    RoomIs(a.digits[..], a.used, A, B, k, t);
    ghost var s;
    qpos, s := DivideDigits(a, b, tmp, q.digits);
    Clamp(a);
    Denormalize(Pow2(k), A, B, a.Mag(), s);
    OneIsNoShift();
    DivByOne(a.Mag());
  }

  /** s_udiv: for a >= b > 0 whose quotient digits fit their buffer it leaves |a| mod |b| in b, and in a the quotient
      |a| / |b| exactly when no partial remainder ties with the divisor's top digit. */
  method UDiv(a: MpInt, b: MpInt)
    requires a.Valid() && b.Valid() && Distinct(a, b) && 0 < b.Mag() <= a.Mag() && QuotientFits(a.Mag(), b.Mag())
    modifies a, a.digits, b, b.digits
    ensures b.Valid() && b.Mag() == old(a.Mag()) % old(b.Mag()) && !b.negative && Moved(b)
    ensures a.Valid() && !a.negative && Moved(a) && Distinct(a, b)
    ensures a.Mag() == old(a.Mag()) / old(b.Mag()) <==> !Ties(old(a.Mag()), old(b.Mag()))
  {
    hide Val, Shift, Run, Clamped, Pow2, Emitted, Ties, QuotientFits;
    ghost var A, B := a.Mag(), b.Mag();
    a.negative := false;
    b.negative := false;
    var q, qpos, p := DivideMags(a, b);
    SomeDigit(q.digits[..qpos], A, B);
    FromEmitted(q, qpos);
    if p != 0 {
      QDiv(a, p);
    }
    a.negative := false;
    CopyTo(a, b);
    CopyTo(q, a);
  }

  /** s_isp2: the exponent of a power of two, or -1. */
  method IsP2(z: MpInt) returns (k: int)
    requires z.Valid() && z.Mag() > 0
    ensures k >= -1
    ensures k >= 0 ==> z.Mag() == Pow2(k)
    ensures k < 0 ==> forall j: nat :: z.Mag() != Pow2(j)
  {
    hide Val, Shift, Pow2, Run, Clamped;
    ghost var d0 := z.digits[..];
    TopPositive(d0, z.used);
    k := 0;
    var i := 0;
    while i < z.used - 1
      invariant 0 <= i <= z.used - 1 && k == 32 * i
      invariant forall j :: 0 <= j < i ==> z.digits[j] == 0
    {
      if z.digits[i] != 0 {
        NotPowerLow(d0, z.used, i);
        return -1;
      }
      k := k + 32;
      i := i + 1;
    }
    var d: int := z.digits[i];
    ghost var b := 0;
    OneIsNoShift();
    while d > 1
      invariant d >= 1 && b >= 0 && k == 32 * i + b
      invariant z.digits[i] == Pow2(b) * d
      decreases d
    {
      if d % 2 == 1 {
        NotPowerTop(d0, z.used, b, d);
        return -1;
      }
      HalveStep(b, d);
      k := k + 1;
      d := d / 2;
      b := b + 1;
    }
    TopAlone(d0, z.used);
    Pow2Digits(i, b);
  }

  /** A number whose lower digits are zero. */
  lemma {:induction false} TopAlone(d: seq<digit>, n: nat)
    requires 1 <= n <= |d| && forall j :: 0 <= j < n - 1 ==> d[j] == 0
    ensures Val(Run(d, 0, n)) == Shift(d[n - 1], n - 1)
  {
    hide Val, Shift;
    var s, i := Run(d, 0, n), n - 1;
    assert s == s[..i] + [s[i]];
    ValZeros(s[..i]);
    ValSnoc(s[..i], s[i]);
  }

  /** A power of two times a number above one with an odd part is no power of two. */
  lemma {:induction false} OddMultiple(e: nat, x: nat, j: nat)
    requires x > 1 && (x % 2 == 1 || (x % RADIX != 0 && x >= RADIX))
    ensures Pow2(e) * x != Pow2(j)
  {
    hide Pow2;
    if Pow2(e) * x == Pow2(j) {
      MulMono(2, x, Pow2(e));
      MulComm(Pow2(e), x);
      Pow2Mono(j, e);
      assert j > e;
      Pow2Add(e, j - e);
      Cancel(Pow2(e), x, Pow2(j - e));
      PowerParts(j - e);
      assert false;
    }
  }

  lemma {:induction false} Cancel(p: int, x: int, y: int)
    requires p >= 1 && p * x == p * y
    ensures x == y
  {
    QuotientUnique(p, 0, x, 0, y);
  }

  /** A power of two is one, or even; and below the radix, or a multiple of it. */
  lemma {:induction false} PowerParts(m: nat)
    ensures m > 0 ==> Pow2(m) % 2 == 0
    ensures Pow2(m) < RADIX || Pow2(m) % RADIX == 0
  {
    if m >= 32 {
      Pow2Add(32, m - 32);
      Pow2Radix();
      DivUnique(Pow2(m), RADIX, Pow2(m - 32), 0);
    } else {
      Pow2Mono(m, 31);
      assert Pow2(31) == 0x8000_0000 by {
        Pow2Add(1, 31);
        Pow2Radix();
      }
    }
  }

  lemma {:induction false} NotPowerLow(d: seq<digit>, n: nat, i: nat)
    requires i < n - 1 && n <= |d| && d[i] != 0 && d[n - 1] != 0 && forall j :: 0 <= j < i ==> d[j] == 0
    ensures forall j: nat :: Val(Run(d, 0, n)) != Pow2(j)
  {
    hide Val, Shift, Pow2;
    var s := Run(d, 0, n);
    ValSplit(s, i);
    ValZeros(s[..i]);
    var x := Val(s[i..]);
    ValCons(s[i..]);
    assert s[i..][1..] == s[i + 1..];
    ZeroMag(s[i + 1..]);
    DivUnique(x, RADIX, Val(s[i + 1..]), s[i]);
    Pow2Digits(i, 0);
    OneIsNoShift();
    ShiftTimes(1, x, i);
    forall j: nat ensures Val(s) != Pow2(j) {
      OddMultiple(32 * i, x, j);
    }
  }

  lemma {:induction false} NotPowerTop(d: seq<digit>, n: nat, b: nat, x: nat)
    requires 1 <= n <= |d| && x > 1 && x % 2 == 1 && d[n - 1] == Pow2(b) * x && forall j :: 0 <= j < n - 1 ==> d[j] == 0
    ensures forall j: nat :: Val(Run(d, 0, n)) != Pow2(j)
  {
    hide Val, Shift, Pow2;
    TopAlone(d, n);
    ShiftTimes(Pow2(b), x, n - 1);
    Pow2Digits(n - 1, b);
    forall j: nat ensures Val(Run(d, 0, n)) != Pow2(j) {
      OddMultiple(32 * (n - 1) + b, x, j);
    }
  }

  /** The remainder of truncating division: its sign is the dividend's. */
  ghost function TruncRem(a: int, b: int): int
    requires b != 0
  {
    if a >= 0 then a % Mod0(b) else -((-a) % Mod0(b))
  }

  ghost function Mod0(b: int): int { if b < 0 then -b else b }

  /** The quotient of truncating division. */
  ghost function TruncQuot(a: int, b: int): int
    requires b != 0
  {
    if (a < 0) == (b < 0) then Mod0(a) / Mod0(b) else -(Mod0(a) / Mod0(b))
  }

  /** Where mp_int_div works on a copy of x: in the output z when there is one that is not the other operand, else in a
      temporary. */
  method WorkOn(x: MpInt, other: MpInt, z: MpInt?) returns (out: MpInt)
    requires x.Valid() && other.Valid() && (z != null ==> z.Valid() && Sep(x, z) && Sep(other, z))
    modifies if z != null && z != other then {z, z.digits} else {}
    ensures out.Valid() && out.Mag() == old(x.Mag())
    ensures if z != null && z != other then out == z && Moved(z) else fresh(out) && fresh(out.digits)
  {
    hide Val, Run, Clamped;
    if z != null && z != other {
      CopyTo(x, z);
      out := z;
    } else {
      out := NewCopy(x);
    }
  }

  /** The sign of an output, none for a zero. */
  method SetSign(out: MpInt, negative: bool)
    requires out.Valid()
    modifies out`negative
    ensures out.Valid() && out.Value() == Signs(negative, old(out.Mag()))
  {
    hide Val, Run, Clamped;
    out.negative := negative;
    var zero := Cmpz(out);
    if zero == 0 {
      out.negative := false;
    }
  }

  /** The division proper, with the signs of the outputs. */
  method DivideSigned(qout: MpInt, rout: MpInt, sa: bool, sb: bool)
    requires qout.Valid() && rout.Valid() && Distinct(qout, rout) && 0 < rout.Mag() <= qout.Mag()
    requires QuotientFits(qout.Mag(), rout.Mag())
    modifies qout, qout.digits, rout, rout.digits
    ensures qout.Valid() && rout.Valid() && Distinct(qout, rout) && Moved(qout) && Moved(rout)
    ensures rout.Value() == Signs(sa, old(qout.Mag()) % old(rout.Mag()))
    ensures qout.Value() == Signs(sa != sb, qout.Mag())
    ensures qout.Mag() == old(qout.Mag()) / old(rout.Mag()) <==> !Ties(old(qout.Mag()), old(rout.Mag()))
  {
    hide Val, Run, Clamped, Ties, QuotientFits;
    UDiv(qout, rout);
    SetSign(rout, sa);
    SetSign(qout, sa != sb);
  }

  /** The outputs of mp_int_div: either may be missing, each may be one of the operands, and they are not the same. */
  predicate Outputs(a: MpInt, b: MpInt, q: MpInt?, r: MpInt?)
    reads a, b, if q != null then {q} else {}, if r != null then {r} else {}
  {
    && Sep(a, b) && (q != null ==> Sep(a, q) && Sep(b, q)) && (r != null ==> Sep(a, r) && Sep(b, r))
    && (q != null && r != null ==> Distinct(q, r))
  }

  /** What mp_int_div divides in place. */
  method Workers(a: MpInt, b: MpInt, q: MpInt?, r: MpInt?) returns (qout: MpInt, rout: MpInt)
    requires a.Valid() && b.Valid() && Outputs(a, b, q, r)
    requires (q != null ==> q.Valid()) && (r != null ==> r.Valid())
    modifies if q != null then {q, q.digits} else {}, if r != null then {r, r.digits} else {}
    ensures (q != null ==> q.Valid() && Moved(q)) && (r != null ==> r.Valid() && Moved(r))
    ensures q != null && r != null ==> Distinct(q, r)
    ensures qout.Valid() && rout.Valid() && Distinct(qout, rout)
    ensures qout.Mag() == old(a.Mag()) && rout.Mag() == old(b.Mag())
    ensures qout == q || (fresh(qout) && fresh(qout.digits) && (q != null ==> Distinct(q, qout)) && (r != null ==> Distinct(r, qout)))
    ensures rout == r || (fresh(rout) && fresh(rout.digits) && (q != null ==> Distinct(q, rout)) && (r != null ==> Distinct(r, rout)))
  {
    hide Val, Run, Clamped;
    qout := WorkOn(a, b, q);
    rout := WorkOn(b, a, r);
  }

  /** mp_int_div when |a| > |b| and b is no power of two. */
  method DivideByAny(a: MpInt, b: MpInt, q: MpInt?, r: MpInt?)
    requires a.Valid() && b.Valid() && Outputs(a, b, q, r) && 0 < b.Mag() < a.Mag() && QuotientFits(a.Mag(), b.Mag())
    requires (q != null ==> q.Valid()) && (r != null ==> r.Valid())
    modifies if q != null then {q, q.digits} else {}, if r != null then {r, r.digits} else {}
    ensures (q != null ==> q.Valid() && Moved(q)) && (r != null ==> r.Valid() && Moved(r))
    ensures r != null ==> r.Value() == old(Signs(a.negative, a.Mag() % b.Mag()))
    ensures q != null ==> q.Value() == Signs(old(a.negative != b.negative), q.Mag())
    ensures q != null ==> (q.Mag() == old(a.Mag()) / old(b.Mag()) <==> !Ties(old(a.Mag()), old(b.Mag())))
  {
    hide Val, Run, Clamped, Ties, Signs, QuotientFits;
    ghost var A, B := a.Mag(), b.Mag();
    var sa, sb := a.negative, b.negative;
    var qout, rout := Workers(a, b, q, r);
    DivideSigned(qout, rout, sa, sb);
    if q != null {
      CopyTo(qout, q);
    }
    if r != null {
      CopyTo(rout, r);
    }
  }

  /** mp_int_div when |a| > |b|, a power of two: shifts and masks instead. */
  method DivideByPower(a: MpInt, b: MpInt, lg: nat, q: MpInt?, r: MpInt?)
    requires a.Valid() && b.Valid() && Outputs(a, b, q, r)
    requires (q != null ==> q.Valid()) && (r != null ==> r.Valid())
    modifies if q != null then {q, q.digits} else {}, if r != null then {r, r.digits} else {}
    ensures (q != null ==> q.Valid() && Moved(q)) && (r != null ==> r.Valid() && Moved(r))
    ensures r != null ==> r.Value() == old(Signs(a.negative, a.Mag() % Pow2(lg)))
    ensures q != null ==> q.Value() == Signs(old(a.negative != b.negative), q.Mag()) && q.Mag() == old(a.Mag()) / Pow2(lg)
  {
    hide Val, Shift, Run, Clamped, Pow2;
    var sa, sb := a.negative, b.negative;
    if q != null {
      CopyTo(a, q);
    }
    if r != null {
      CopyTo(a, r);
    }
    if q != null {
      QDiv(q, lg);
      SetSign(q, sa != sb);
    }
    if r != null {
      QMod(r, lg);
      SetSign(r, sa);
    }
  }

  ghost function Signs(negative: bool, m: int): int { if negative then -m else m }

  lemma {:induction false} RemSigns(sa: bool, a: nat, sb: bool, b: nat)
    requires b > 0
    ensures TruncRem(Signs(sa, a), Signs(sb, b)) == Signs(sa, a % b)
  {
    DivUnique(0, b, 0, 0);
  }

  lemma {:induction false} QuotSigns(sa: bool, a: nat, sb: bool, b: nat, q: nat)
    requires b > 0
    ensures Signs(sa != sb, q) == TruncQuot(Signs(sa, a), Signs(sb, b)) <==> q == a / b
  {
    QuotientNonneg(a, b);
    DivUnique(0, b, 0, 0);
  }

  /** mp_int_div when no division is needed: |a| < |b| leaves a, and |a| = |b| goes once. */
  method DivideNone(a: MpInt, b: MpInt, equal: bool, q: MpInt?, r: MpInt?)
    requires a.Valid() && b.Valid() && Outputs(a, b, q, r) && (if equal then a.Mag() == b.Mag() else a.Mag() < b.Mag())
    requires (q != null ==> q.Valid()) && (r != null ==> r.Valid())
    modifies if q != null then {q, q.digits} else {}, if r != null then {r, r.digits} else {}
    ensures (q != null ==> q.Valid() && Moved(q)) && (r != null ==> r.Valid() && Moved(r))
    ensures r != null ==> r.Value() == if equal then 0 else old(a.Value())
    ensures q != null ==> q.Value() == Signs(old(a.negative != b.negative), q.Mag()) && q.Mag() == if equal then 1 else 0
  {
    hide Val, Run, Clamped;
    var sa, sb := a.negative, b.negative;
    if r != null {
      if equal {
        Zero(r);
      } else {
        CopyTo(a, r);
      }
    }
    if q != null {
      if equal {
        SetOne(q);
        q.negative := sa != sb;
      } else {
        Zero(q);
      }
    }
  }

  /** mp_int_div for a divisor that is not zero. */
  method DivideNonzero(a: MpInt, b: MpInt, q: MpInt?, r: MpInt?)
    requires a.Valid() && b.Valid() && Outputs(a, b, q, r) && b.Mag() > 0 && QuotientFits(a.Mag(), b.Mag())
    requires (q != null ==> q.Valid()) && (r != null ==> r.Valid())
    modifies if q != null then {q, q.digits} else {}, if r != null then {r, r.digits} else {}
    ensures (q != null ==> q.Valid() && Moved(q)) && (r != null ==> r.Valid() && Moved(r))
    ensures r != null ==> r.Value() == old(Signs(a.negative, a.Mag() % b.Mag()))
    ensures q != null ==> q.Value() == Signs(old(a.negative != b.negative), q.Mag())
    ensures q != null ==> (q.Mag() == old(a.Mag()) / old(b.Mag()) <==> !Ties(old(a.Mag()), old(b.Mag())))
  {
    hide Val, Run, Clamped, Ties, QuotientFits;
    ghost var A, B := a.Mag(), b.Mag();
    var cmp := Ucmp(a, b);
    if cmp <= 0 {
      SmallNeverTies(A, B);
      DivUnique(A, B, if cmp < 0 then 0 else 1, if cmp < 0 then A else 0);
      DivideNone(a, b, cmp == 0, q, r);
    } else {
      var lg := IsP2(b);
      if lg < 0 {
        DivideByAny(a, b, q, r);
      } else {
        PowerNeverTies(A, lg);
        DivideByPower(a, b, lg, q, r);
      }
    }
  }

  /** mp_int_div: MP_UNDEF for a zero divisor; otherwise the remainder of truncating division, and its quotient exactly
      when no partial remainder of the long division ties with the divisor's top digit. */
  method Div(a: MpInt, b: MpInt, q: MpInt?, r: MpInt?) returns (ok: bool)
    requires a.Valid() && b.Valid() && Outputs(a, b, q, r) && (b.Mag() > 0 ==> QuotientFits(a.Mag(), b.Mag()))
    requires (q != null ==> q.Valid()) && (r != null ==> r.Valid())
    modifies if q != null then {q, q.digits} else {}, if r != null then {r, r.digits} else {}
    ensures ok == old(b.Mag() != 0)
    ensures (q != null ==> q.Valid() && Moved(q)) && (r != null ==> r.Valid() && Moved(r))
    ensures ok && r != null ==> r.Value() == TruncRem(old(a.Value()), old(b.Value()))
    ensures ok && q != null ==> (q.Value() == TruncQuot(old(a.Value()), old(b.Value())) <==> !Ties(old(a.Mag()), old(b.Mag())))
    ensures ok && q != null ==> (q.Mag() == old(a.Mag()) / old(b.Mag()) <==> !Ties(old(a.Mag()), old(b.Mag())))
  {
    hide Val, Run, Clamped, Ties, TruncRem, TruncQuot, QuotientFits;
    ghost var sa, sb, A, B := a.negative, b.negative, a.Mag(), b.Mag();
    var z := Cmpz(b);
    if z == 0 {
      return false;
    }
    DivideNonzero(a, b, q, r);
    RemSigns(sa, A, sb, B);
    if q != null {
      QuotSigns(sa, A, sb, B, q.Mag());
    }
    ok := true;
  }

  lemma {:induction false} ResidueOf(a: int, m: int)
    requires m > 0
    ensures a % m == if TruncRem(a, m) < 0 then TruncRem(a, m) + m else TruncRem(a, m)
  {
    if a < 0 {
      NegatedResidue(a, m, (-a) / m, (-a) % m);
    }
  }

  lemma {:induction false} NegatedResidue(a: int, m: int, q: int, r: int)
    requires m > 0 && -a == m * q + r && 0 <= r < m
    ensures a % m == if r == 0 then 0 else m - r
  {
    MulComm(m, q);
    NegMul(q, m);
    if r == 0 {
      MulComm(m, -q);
      DivUnique(a, m, -q, 0);
    } else {
      MulComm(m, -q - 1);
      MulDist(-q, -1, m);
      DivUnique(a, m, -q - 1, m - r);
    }
  }

  /** mp_int_mod: for a positive modulus the residue in [0, m) of every signed a, also when the output is the
      operand or the modulus; MP_UNDEF for a zero modulus. */
  method Mod(a: MpInt, m: MpInt, c: MpInt) returns (ok: bool)
    requires a.Valid() && m.Valid() && c.Valid() && Sep(a, c) && Sep(m, c) && Sep(a, m)
    requires m.Mag() > 0 ==> QuotientFits(a.Mag(), m.Mag())
    modifies c, c.digits
    ensures ok == old(m.Value() != 0)
    ensures c.Valid() && Moved(c)
    ensures ok && old(m.Value()) > 0 ==> c.Value() == old(a.Value()) % old(m.Value())
    ensures ok ==> c.Value() == old(var r := TruncRem(a.Value(), m.Value()); if r < 0 then r + m.Value() else r)
  {
    hide Val, Run, Clamped, TruncRem, QuotientFits;
    var out := c;
    if m == c {
      out := new MpInt(64);
    }
    ghost var A, M := a.Value(), m.Value();
    ok := Div(a, m, null, out);
    if ok {
      if M > 0 {
        ResidueOf(A, M);
      }
      var z := Cmpz(out);
      if z < 0 {
        Add(out, m, c);
      } else {
        CopyTo(out, c);
      }
    }
  }
}

/** s_usqr and s_ksqr: squaring of digit buffers. */
module Squaring {
  import opened Digits
  import opened Buffers
  import opened Karatsuba

  /** Every place doubled. */
  ghost function Twice(s: seq<int>): (r: seq<int>)
    ensures |r| == |s| && forall i :: 0 <= i < |s| ==> r[i] == 2 * s[i]
  {
    if s == [] then [] else [2 * s[0]] + Twice(s[1..])
  }

  lemma {:induction false} TwiceVal(s: seq<int>)
    ensures Val(Twice(s)) == 2 * Val(s)
  {
    if s != [] {
      TwiceVal(s[1..]);
    }
  }

  /** The multiplicand of one row: the row's own digit once, the digits above it twice. */
  ghost function Row(s: seq<int>): (r: seq<int>)
    requires s != []
    ensures |r| == |s| && r[0] == s[0] && forall i :: 1 <= i < |s| ==> r[i] == 2 * s[i]
  {
    [s[0]] + Twice(s[1..])
  }

  /** What the remaining rows still have to add: (x + R v)^2 = x (x + 2 R v) + R^2 v^2. */
  lemma {:induction false} SquareSplit(s: seq<int>)
    requires s != []
    ensures Val(s) * Val(s) == s[0] * Val(Row(s)) + Shift(Val(s[1..]) * Val(s[1..]), 2)
  {
    var x, v := s[0], Val(s[1..]);
    assert Row(s)[1..] == Twice(s[1..]);
    TwiceVal(s[1..]);
    assert Shift(v * v, 1) == RADIX * (v * v);
    assert Val(s) == x + RADIX * v && Val(Row(s)) == x + RADIX * (2 * v);
    SquareOfSum(x, v);
  }

  lemma {:induction false} SquareOfSum(x: int, v: int)
    ensures (x + RADIX * v) * (x + RADIX * v) == x * (x + RADIX * (2 * v)) + RADIX * (RADIX * (v * v))
  {
    var y := RADIX * v;
    CrossProduct(x, y, x, y);
    MulDist(x, 2 * y, x);
    MulComm(x, y);
    MulAssoc(RADIX, v, y);
    MulComm(v, y);
    MulAssoc(RADIX, v, v);
  }

  /** One overflow flag is enough: 2t + u stays below two words, so the doubling and the addition never
      both overflow, and the flag restores what the 64-bit sum lost. */
  lemma {:induction false} OneFlag(t: int, u: int)
    requires 0 <= t <= (RADIX - 1) * (RADIX - 1) && 0 <= u <= 3 * RADIX
    ensures var w1 := (t + t) % WORD;
      var ov := t >= WORD / 2 || WORD - 1 - u < w1;
      var w2 := (w1 + u) % WORD;
      && t + t + u < 2 * WORD
      && !(t >= WORD / 2 && WORD - 1 - u < w1)
      && w2 % RADIX == (t + t + u) % RADIX
      && w2 / RADIX + (if ov then RADIX else 0) == (t + t + u) / RADIX
  {
    var s := t + t + u;
    var ov := s >= WORD;
    var w2 := if ov then s - WORD else s;
    assert (((t + t) % WORD) + u) % WORD == w2;
    assert WORD == RADIX * RADIX;
    assert s == w2 + (if ov then RADIX * RADIX else 0);
  }

  /** The word arithmetic of s_usqr's inner loop: 2xy + w + c in 64 bits with one overflow flag. */
  method DoubledPlace(x: digit, y: digit, c: digit, w0: word)
    returns (d: digit, w: word)
    requires w0 < 2 * RADIX
    ensures w < 2 * RADIX
    ensures d == (c + x * (2 * y) + w0) % RADIX && w == (c + x * (2 * y) + w0) / RADIX
  {
    DigitProduct(x, y);
    var t: word := x * y;
    assert c + (x as int) * (2 * (y as int)) + w0 == t + t + (w0 + c);
    var u: word := w0 + c;
    var ov := false;
    OneFlag(t, u);
    if t >= WORD / 2 {
      ov := true;
    }
    w := (t + t) % WORD;
    if WORD - 1 - u < w {
      ov := true;
    }
    w := (w + u) % WORD;
    d := w % RADIX;
    w := w / RADIX;
    if ov {
      w := w + (RADIX - 1);
      w := w + 1;
    }
  }

  /** One row of s_usqr before its carry is rippled on; n digits remain from offset ao. */
  method SquareRow(da: array<digit>, ao: nat, dc: array<digit>, co: nat, n: nat)
    returns (w: word)
    requires n >= 1 && ao + n <= da.Length && co + n <= dc.Length && da != dc
    modifies dc
    ensures w < 2 * RADIX
    ensures Val(Run(dc[..], co, n) + [w]) == old(Val(Run(dc[..], co, n))) + da[ao] * Val(Row(Run(da[..], ao, n)))
    ensures OnlyRun(old(dc[..]), dc[..], co, n)
  {
    hide Val, Shift, Carry, Lows, Row;
    ghost var C, A := Run(dc[..], co, n), Run(da[..], ao, n);
    ghost var B := Row(A);
    var x: int := da[ao];
    PropagateStart(C, x, B);
    DigitProduct(x, x);
    w := x * x + dc[co];
    PropagateStep(C, x, B, 0, dc[co], x);
    RunGrows(dc[..], co, 0, w % RADIX);
    dc[co] := w % RADIX;
    w := w / RADIX;
    var j := 1;
    while j < n
      invariant 1 <= j <= n && w < 2 * RADIX
      invariant w == Carry(C, x, B, j)
      invariant Run(dc[..], co, j) == Lows(C, x, B, j)
      invariant OnlyRun(old(dc[..]), dc[..], co, j)
    {
      ghost var y: int := A[j];
      assert y == da[ao + j] && C[j] == dc[co + j];
      PropagateStep(C, x, B, j, dc[co + j], 2 * y);
      var d;
      d, w := DoubledPlace(x, da[ao + j], dc[co + j], w);
      RunGrows(dc[..], co, j, d);
      dc[co + j] := d;
      j := j + 1;
    }
    LowsVal(C, x, B, n);
  }

  /** One place of the ripple. */
  lemma {:induction false} RippleStep(d: seq<digit>, co: nat, total: nat, p: nat, w: int)
    requires p < total && co + total <= |d|
    ensures var x := d[co + p];
      Val(Run(d[co + p := (w + x) % RADIX], co, total)) + Shift((w + x) / RADIX, p + 1) == Val(Run(d, co, total)) + Shift(w, p)
  {
    hide Val, Shift;
    var x := d[co + p];
    var d' := d[co + p := (w + x) % RADIX];
    assert Run(d, co + p, 1) == [x] && Run(d', co + p, 1) == [(w + x) % RADIX];
    ValOne(x);
    ValOne((w + x) % RADIX);
    var u: int := (w + x) % RADIX - x;
    RegionAdd(d, d', co, total, p, 1, u);
    CarriedPlace(w + x, p);
    ShiftAdd(u, x, p);
    ShiftAdd(w, x, p);
  }

  /** Adds the carry of a row at position pos and ripples it upwards; it dies out inside the run. */
  method Ripple(dc: array<digit>, co: nat, pos: nat, total: nat, w0: word)
    requires pos < total && co + total <= dc.Length && w0 < 2 * RADIX
    requires Val(Run(dc[..], co, total)) + Shift(w0, pos) < Exp(total)
    modifies dc
    ensures Val(Run(dc[..], co, total)) == old(Val(Run(dc[..], co, total))) + Shift(w0, pos)
    ensures OnlyRun(old(dc[..]), dc[..], co + pos, total - pos)
  {
    hide Val, Shift, Run;
    ghost var T := Val(Run(dc[..], co, total)) + Shift(w0, pos);
    var p := pos;
    RippleStep(dc[..], co, total, p, w0);
    var w := w0 + dc[co + p];
    dc[co + p] := w % RADIX;
    w := w / RADIX;
    while w != 0
      invariant pos <= p < total && 0 <= w < RADIX
      invariant Val(Run(dc[..], co, total)) + Shift(w, p + 1) == T
      invariant OnlyRun(old(dc[..]), dc[..], co + pos, p + 1 - pos)
      decreases total - p
    {
      ValBound(Run(dc[..], co, total));
      ShiftMono(1, w, p + 1);
      p := p + 1;
      assert p < total;
      RippleStep(dc[..], co, total, p, w);
      w := w + dc[co + p];
      dc[co + p] := w % RADIX;
      w := w / RADIX;
    }
    ShiftZero(p + 1);
  }

  /** One turn of s_usqr's outer loop. */
  method SquareStep(da: array<digit>, ao: nat, dc: array<digit>, co: nat, size: nat, i: nat)
    requires i < size && ao + size <= da.Length && co + 2 * size <= dc.Length && da != dc
    requires Val(Run(dc[..], co, 2 * size)) + Shift(da[ao + i] * Val(Row(Run(da[..], ao + i, size - i))), 2 * i) < Exp(2 * size)
    modifies dc
    ensures Val(Run(dc[..], co, 2 * size))
         == old(Val(Run(dc[..], co, 2 * size))) + Shift(da[ao + i] * Val(Row(Run(da[..], ao + i, size - i))), 2 * i)
    ensures OnlyRun(old(dc[..]), dc[..], co, 2 * size)
  {
    hide Val, Shift, Run, Row;
    var n := size - i;
    ghost var u: int := da[ao + i] * Val(Row(Run(da[..], ao + i, n)));
    if da[ao + i] == 0 {
      ShiftZero(2 * i);
    } else {
      ghost var d := dc[..];
      var w := SquareRow(da, ao + i, dc, co + 2 * i, n);
      ValSnoc(Run(dc[..], co + 2 * i, n), w);
      RegionAdd(d, dc[..], co, 2 * size, 2 * i, n, u - Shift(w, n));
      ShiftAdd(u - Shift(w, n), Shift(w, n), 2 * i);
      ShiftShift(w, n, 2 * i);
      Ripple(dc, co, n + 2 * i, 2 * size, w);
    }
  }

  /** s_usqr: the square of a run into a cleared run. */
  method USqr(da: array<digit>, ao: nat, dc: array<digit>, co: nat, size: nat)
    requires ao + size <= da.Length && co + 2 * size <= dc.Length && da != dc
    requires forall i :: co <= i < co + 2 * size ==> dc[i] == 0
    modifies dc
    ensures Val(Run(dc[..], co, 2 * size)) == Val(Run(da[..], ao, size)) * Val(Run(da[..], ao, size))
    ensures OnlyRun(old(dc[..]), dc[..], co, 2 * size)
  {
    hide Val, Shift, Row;
    ghost var A := Run(da[..], ao, size);
    ValZeros(Run(dc[..], co, 2 * size));
    assert A[0..] == A;
    ShiftNone(Val(A) * Val(A));
    var i := 0;
    while i < size
      invariant i <= size
      invariant Val(Run(dc[..], co, 2 * size)) + Shift(Val(A[i..]) * Val(A[i..]), 2 * i) == Val(A) * Val(A)
      invariant OnlyRun(old(dc[..]), dc[..], co, 2 * size)
    {
      assert Run(da[..], ao + i, size - i) == A[i..];
      SquareRowFits(A, i);
      SquareStep(da, ao, dc, co, size, i);
      i := i + 1;
    }
    ValZeros(A[size..]);
    ShiftZero(2 * size);
  }

  /** A row together with what is left of the square stays below the end of the run. */
  lemma {:induction false} SquareRowFits(A: seq<digit>, i: nat)
    requires i < |A|
    ensures Shift(Val(A[i..]) * Val(A[i..]), 2 * i)
         == Shift(A[i] * Val(Row(A[i..])), 2 * i) + Shift(Val(A[i + 1..]) * Val(A[i + 1..]), 2 * (i + 1))
    ensures 0 <= Shift(Val(A[i + 1..]) * Val(A[i + 1..]), 2 * (i + 1))
    ensures Val(A) * Val(A) < Exp(2 * |A|)
  {
    hide Val, Shift, Row;
    var s, v := A[i..], Val(A[i + 1..]);
    assert s[1..] == A[i + 1..];
    SquareSplit(s);
    ShiftAdd(s[0] * Val(Row(s)), Shift(v * v, 2), 2 * i);
    ShiftShift(v * v, 2, 2 * i);
    ValBound(A[i + 1..]);
    MulMono(0, v, v);
    ValBound(A);
    ProductBound(Val(A), Val(A), |A|, |A|);
  }

  /** How many digits of the output s_ksqr touches. */
  function SqrSpan(threshold: nat, size: nat): (n: nat)
    ensures 2 * size <= n <= 2 * size + 2
  {
    if threshold != 0 && size > threshold then 4 * ((size + 1) / 2) else 2 * size
  }

  /** Doubles n digits in place, the bit shifted out becoming the digit above. */
  method DoubleRun(t: array<digit>, o: nat, n: nat)
    requires o + n < t.Length
    modifies t
    ensures Val(Run(t[..], o, n + 1)) == 2 * old(Val(Run(t[..], o, n)))
    ensures OnlyRun(old(t[..]), t[..], o, n + 1)
  {
    hide Val, Shift, Carry, Lows;
    ghost var T := Run(t[..], o, n);
    PropagateStart([], 2, T);
    var save: word := 0;
    var i := 0;
    while i < n
      invariant i <= n && save <= 1
      invariant save == Carry([], 2, T, i)
      invariant Run(t[..], o, i) == Lows([], 2, T, i)
      invariant OnlyRun(old(t[..]), t[..], o, i)
    {
      assert t[o + i] == T[i];
      PropagateStep([], 2, T, i, 0, t[o + i]);
      var w: word := 2 * t[o + i] + save;
      RunGrows(t[..], o, i, w % RADIX);
      t[o + i] := w % RADIX;
      save := w / RADIX;
      i := i + 1;
    }
    RunGrows(t[..], o, n, save);
    t[o + n] := save;
    LowsVal([], 2, T, n);
    ValZeros([]);
  }

  /** The squares of the two halves, in the lower half of the scratch buffer. */
  method OuterSquares(threshold: nat, da: array<digit>, ao: nat, size: nat, bot: nat)
    returns (t: array<digit>)
    requires threshold >= 4 && size > threshold && bot == (size + 1) / 2 && ao + size <= da.Length
    ensures fresh(t) && t.Length == 8 * bot
    ensures var a0, a1 := Val(Run(da[..], ao, bot)), Val(Run(da[..], ao + bot, size - bot));
      && Val(Run(t[..], 0, 2 * bot)) == a0 * a0
      && Val(Run(t[..], 2 * bot, 2 * bot)) == a1 * a1
    ensures forall i :: 4 * bot <= i < 8 * bot ==> t[i] == 0
    decreases size, 0
  {
    hide Val, Shift, Run;
    var top := size - bot;
    t := new digit[8 * bot](_ => 0);
    KSqr(threshold, da, ao, t, 0, bot);
    ghost var d := t[..];
    KSqr(threshold, da, ao + bot, t, 2 * bot, top);
    SameRun(d, t[..], 0, 2 * bot, 2 * bot, 2 * top);
    RunTrim(t[..], 2 * bot, 2 * top, 2 * bot);
  }

  /** The doubled product of the halves, above the squares. */
  method DoubledProduct(threshold: nat, da: array<digit>, ao: nat, size: nat, bot: nat, t: array<digit>)
    requires threshold >= 4 && size > threshold && bot == (size + 1) / 2 && ao + size <= da.Length
    requires t != da && t.Length == 8 * bot && forall i :: 4 * bot <= i < 8 * bot ==> t[i] == 0
    modifies t
    ensures Val(Run(t[..], 4 * bot, 2 * bot + 1))
         == 2 * (Val(Run(da[..], ao, bot)) * Val(Run(da[..], ao + bot, size - bot)))
    ensures OnlyRun(old(t[..]), t[..], 4 * bot, 2 * bot + 1)
  {
    hide Val, Shift, Run;
    KMul(threshold, da, ao, da, ao + bot, t, 4 * bot, bot, size - bot);
    DoubleRun(t, 4 * bot, size);
    RunTrim(t[..], 4 * bot, size + 1, 2 * bot + 1);
  }

  /** The partial squares denote the whole square. */
  lemma {:induction false} SquareOfHalves(a: seq<digit>, ao: nat, size: nat, bot: nat)
    requires bot <= size <= 2 * bot && ao + size <= |a|
    ensures var a0, a1 := Val(Run(a, ao, bot)), Val(Run(a, ao + bot, size - bot));
      var p := Val(Run(a, ao, size)) * Val(Run(a, ao, size));
      && p == a0 * a0 + Shift(2 * (a0 * a1), bot) + Shift(a1 * a1, 2 * bot)
      && p < Exp(2 * size) && 2 * (a0 * a1) < 2 * Exp(2 * bot)
  {
    hide Val, Shift;
    var A0, A1 := Run(a, ao, bot), Run(a, ao + bot, size - bot);
    RunSplit(a, ao, bot, size - bot);
    ValConcat(A0, A1);
    KaratsubaSum(Val(A0), Val(A1), Val(A0), Val(A1), bot);
    MulComm(Val(A0), Val(A1));
    ValBound(A0 + A1);
    ProductBound(Val(A0 + A1), Val(A0 + A1), size, size);
    ValBound(A0);
    ValBound(A1);
    ExpMono(size - bot, bot);
    ProductBound(Val(A0), Val(A1), bot, bot);
  }

  /** s_ksqr: agrees with multiplication of the run by itself at every size. */
  method KSqr(threshold: nat, da: array<digit>, ao: nat, dc: array<digit>, co: nat, size: nat)
    requires threshold == 0 || threshold >= 4
    requires ao + size <= da.Length && co + SqrSpan(threshold, size) <= dc.Length && da != dc
    requires forall i :: co <= i < co + 2 * size ==> dc[i] == 0
    modifies dc
    ensures Val(Run(dc[..], co, 2 * size)) == Val(Run(da[..], ao, size)) * Val(Run(da[..], ao, size))
    ensures OnlyRun(old(dc[..]), dc[..], co, 2 * size)
    decreases size, 1
  {
    hide Val, Shift, Run;
    if threshold != 0 && size > threshold {
      var bot := (size + 1) / 2;
      var t := OuterSquares(threshold, da, ao, size, bot);
      ghost var d := t[..];
      DoubledProduct(threshold, da, ao, size, bot, t);
      SameRun(d, t[..], 0, 2 * bot, 4 * bot, 2 * bot + 1);
      SameRun(d, t[..], 2 * bot, 2 * bot, 4 * bot, 2 * bot + 1);
      SquareOfHalves(da[..], ao, size, bot);
      ghost var v := Val(Run(da[..], ao, size));
      Assemble(t, dc, co, bot, 2 * size, v * v);
    } else {
      USqr(da, ao, dc, co, size);
    }
  }
}

/** s_kmul: recursive multiplication of digit buffers. */
module Karatsuba {
  import opened Digits
  import opened Buffers

  /** The test for recursion, with the longer operand first. */
  predicate Recurses(threshold: nat, sizeA: nat, sizeB: nat) {
    threshold != 0 && sizeA >= threshold && sizeB > (sizeA + 1) / 2
  }

  /** How many digits of the output s_kmul touches; the ones above the product are written back unchanged. */
  function Span(threshold: nat, sizeA: nat, sizeB: nat): (n: nat)
    ensures sizeA + sizeB <= n
    ensures n <= 2 * Max(sizeA, sizeB) + 2
  {
    var a, b := Max(sizeA, sizeB), Min(sizeA, sizeB);
    if Recurses(threshold, a, b) then 4 * ((a + 1) / 2) else a + b
  }

  /** n rounded up to an even number. */
  function Evened(n: nat): (r: nat)
    ensures n <= r <= n + 1
  {
    if n == 0 then 0 else if n == 1 then 2 else 2 + Evened(n - 2)
  }

  lemma {:induction false} EvenedIs(n: nat)
    ensures Evened(n) == 2 * ((n + 1) / 2)
  {
    if n >= 2 {
      EvenedIs(n - 2);
    }
  }

  lemma {:induction false} EvenedMono(m: nat, n: nat)
    requires m <= n
    ensures Evened(m) <= Evened(n)
  {
    if m >= 2 {
      EvenedMono(m - 2, n - 2);
    }
  }

  /** What s_kmul touches for operands of up to n digits. */
  function Touched(threshold: nat, n: nat): (r: nat)
    ensures 2 * n <= r <= 2 * n + 2
  {
    if threshold != 0 && n >= threshold then 2 * Evened(n) else 2 * n
  }

  lemma {:induction false} TouchedMono(threshold: nat, k: nat, n: nat)
    requires k <= n
    ensures Touched(threshold, k) <= Touched(threshold, n)
  {
    hide Evened;
    EvenedMono(k, n);
  }

  lemma {:induction false} SpanTouched(threshold: nat, sizeA: nat, sizeB: nat, n: nat)
    requires sizeA <= n && sizeB <= n
    ensures Span(threshold, sizeA, sizeB) <= Touched(threshold, n)
  {
    hide Evened;
    var m := Max(sizeA, sizeB);
    EvenedIs(m);
    EvenedMono(m, n);
  }

  /** ZERO: clears n digits. */
  method Clear(d: array<digit>, o: nat, n: nat)
    requires o + n <= d.Length
    modifies d
    ensures forall i :: o <= i < o + n ==> d[i] == 0
    ensures OnlyRun(old(d[..]), d[..], o, n)
  {
    for i := o to o + n
      invariant forall k :: o <= k < i ==> d[k] == 0
      invariant OnlyRun(old(d[..]), d[..], o, i - o)
    {
      d[i] := 0;
    }
  }

  /** COPY: copies n digits into another buffer. */
  method Copy(s: array<digit>, so: nat, d: array<digit>, o: nat, n: nat)
    requires s != d && so + n <= s.Length && o + n <= d.Length
    modifies d
    ensures Run(d[..], o, n) == Run(s[..], so, n)
    ensures OnlyRun(old(d[..]), d[..], o, n)
  {
    for i := 0 to n
      invariant Run(d[..], o, i) == Run(s[..], so, i)
      invariant OnlyRun(old(d[..]), d[..], o, i)
    {
      RunGrows(d[..], o, i, s[so + i]);
      RunGrows(s[..], so, i, s[so + i]);
      assert s[..][so + i := s[so + i]] == s[..];
      d[o + i] := s[so + i];
    }
  }

  /** The sum of the two halves of a run, with its carry as the top digit. */
  method FoldHalves(da: array<digit>, ao: nat, bot: nat, top: nat, t: array<digit>, to: nat)
    requires top <= bot && ao + bot + top <= da.Length && to + bot < t.Length && da != t
    modifies t
    ensures Val(Run(t[..], to, bot + 1)) == Val(Run(da[..], ao, bot)) + Val(Run(da[..], ao + bot, top))
    ensures OnlyRun(old(t[..]), t[..], to, bot + 1)
  {
    var carry := UAdd(da, ao, da, ao + bot, t, to, bot, top);
    RunGrows(t[..], to, bot, carry);
    t[to + bot] := carry;
  }

  /** A changed stretch, seen in a longer run around it. */
  lemma {:induction false} RegionAdd(d: seq<digit>, d': seq<digit>, co: nat, total: nat, off: nat, len: nat, u: int)
    requires off + len <= total && co + total <= |d| && OnlyRun(d, d', co + off, len)
    requires Val(Run(d', co + off, len)) == Val(Run(d, co + off, len)) + u
    ensures Val(Run(d', co, total)) == Val(Run(d, co, total)) + Shift(u, off)
  {
    hide Val, Shift;
    var rest := total - off - len;
    SameRun(d, d', co, off, co + off, len);
    SameRun(d, d', co + off + len, rest, co + off, len);
    var low, mid, mid', high := Run(d, co, off), Run(d, co + off, len), Run(d', co + off, len), Run(d, co + off + len, rest);
    RunThree(d, co, off, len, rest);
    RunThree(d', co, off, len, rest);
    ValConcat(low, mid + high);
    ValConcat(low, mid' + high);
    ValConcat(mid, high);
    ValConcat(mid', high);
    ShiftAdd(Val(mid + high), u, off);
  }

  lemma {:induction false} RunThree(d: seq<digit>, o: nat, m: nat, n: nat, k: nat)
    requires o + m + n + k <= |d|
    ensures Run(d, o, m + n + k) == Run(d, o, m) + (Run(d, o + m, n) + Run(d, o + m + n, k))
  {
  }

  /** A run has room for u at offset off when the run up to the end of that room has. */
  lemma {:induction false} RegionFits(d: seq<digit>, co: nat, off: nat, len: nat, u: int)
    requires co + off + len <= |d|
    requires Val(Run(d, co, off + len)) + Shift(u, off) < Exp(off + len)
    ensures Val(Run(d, co + off, len)) + u < Exp(len)
  {
    hide Val, Shift;
    var low, mid := Run(d, co, off), Run(d, co + off, len);
    RunSplit(d, co, off, len);
    ValConcat(low, mid);
    ValBound(low);
    ShiftAdd(Val(mid), u, off);
    ShiftShift(1, len, off);
    ShiftCancel(Val(mid) + u, Exp(len), off);
  }

  /** An assembling s_uadd whose carry the caller ignores: there is none when the sum fits. */
  method AddAt(t: array<digit>, to: nat, dc: array<digit>, co: nat, off: nat, len: nat, ghost total: nat)
    requires t != dc && to + len <= t.Length && off + len <= total && co + total <= dc.Length
    requires Val(Run(dc[..], co, off + len)) + Shift(Val(Run(t[..], to, len)), off) < Exp(off + len)
    modifies dc
    ensures Val(Run(dc[..], co, total)) == old(Val(Run(dc[..], co, total))) + Shift(Val(Run(t[..], to, len)), off)
    ensures OnlyRun(old(dc[..]), dc[..], co + off, len)
  {
    hide Val, Shift;
    ghost var d, u := dc[..], Val(Run(t[..], to, len));
    RegionFits(d, co, off, len, u);
    var carry := UAdd(t, to, dc, co + off, dc, co + off, len, len);
    ValSnoc(Run(dc[..], co + off, len), carry);
    ValBound(Run(dc[..], co + off, len));
    ShiftZero(len);
    assert carry == 0 by {
      if carry == 1 {
        assert false;
      }
    }
    RegionAdd(d, dc[..], co, total, off, len, u);
  }

  /** What the output holds once the low product is copied in: that product, then whatever lay above position n. */
  lemma {:induction false} CopiedVal(d: seq<digit>, d': seq<digit>, co: nat, bot: nat, n: nat, total: nat)
    requires 2 * bot <= n <= total && co + total <= |d| && OnlyRun(d, d', co, 2 * bot)
    requires forall i :: co <= i < co + n ==> d[i] == 0
    ensures Val(Run(d', co, total)) == Val(Run(d', co, 2 * bot)) + Shift(Val(Run(d, co + n, total - n)), n)
  {
    hide Val, Shift;
    var low, high := Run(d', co, n), Run(d', co + n, total - n);
    RunSplit(d', co, n, total - n);
    ValConcat(low, high);
    SameRun(d, d', co + n, total - n, co, 2 * bot);
    assert low[..2 * bot] == Run(d', co, 2 * bot);
    ValTrim(low, 2 * bot);
  }

  /** The first assembling sum fits below position 3 * bot + 1, even when that is above the product. */
  lemma {:induction false} MiddleFits(x: int, m: int, bot: nat, n: nat, g: int)
    requires 0 <= x < Exp(2 * bot) && 0 <= m < 2 * Exp(2 * bot) && 3 * bot <= n
    requires if n == 3 * bot then x + Shift(m, bot) < Exp(n) && 0 <= g < RADIX else g == 0
    ensures x + Shift(g, n) + Shift(m, bot) < Exp(3 * bot + 1)
  {
    assert Exp(3 * bot + 1) == RADIX * Exp(3 * bot);
    hide Shift;
    ExpMono(2 * bot, 3 * bot);
    ShiftShift(1, 2 * bot, bot);
    ShiftAdd(Exp(2 * bot), Exp(2 * bot), bot);
    ShiftMono(m, 2 * Exp(2 * bot), bot);
    ShiftZero(n);
    if n == 3 * bot {
      ShiftMono(g, RADIX - 1, n);
      ShiftTimes(1, RADIX - 1, n);
    }
  }

  lemma {:induction false} SumFits(lo: int, n: nat, hi: seq<digit>)
    requires 0 <= lo < Exp(n)
    ensures lo + Shift(Val(hi), n) < Exp(n + |hi|)
  {
    hide Shift, Val;
    ValBound(hi);
    ShiftMono(Val(hi), Exp(|hi|), n);
    ShiftShift(1, |hi|, n);
  }

  /** The partial products t1 (low), t3 (middle) and t2 (high) are put together in the cleared run. */
  method Assemble(t: array<digit>, dc: array<digit>, co: nat, bot: nat, n: nat, ghost p: int)
    requires t != dc && t.Length == 8 * bot && 3 * bot <= n <= 4 * bot && co + 4 * bot <= dc.Length && bot >= 1
    requires forall i :: co <= i < co + n ==> dc[i] == 0
    requires var x, y, m := Val(Run(t[..], 0, 2 * bot)), Val(Run(t[..], 2 * bot, 2 * bot)), Val(Run(t[..], 4 * bot, 2 * bot + 1));
      m < 2 * Exp(2 * bot) && p == x + Shift(m, bot) + Shift(y, 2 * bot) && p < Exp(n)
    modifies dc
    ensures Val(Run(dc[..], co, n)) == p
    ensures OnlyRun(old(dc[..]), dc[..], co, n)
  {
    hide Val, Shift, Run;
    ghost var d := dc[..];
    ghost var x, m, y := Run(t[..], 0, 2 * bot), Run(t[..], 4 * bot, 2 * bot + 1), Run(t[..], 2 * bot, 2 * bot);
    ghost var above := Run(d, co + n, 4 * bot - n);
    ValBound(x);
    ValBound(m);
    ValBound(y);
    Copy(t, 0, dc, co, 2 * bot);
    CopiedVal(d, dc[..], co, bot, n, 4 * bot);
    MiddleRoom(d, dc[..], co, bot, n, Val(m), Val(y));
    AddAt(t, 4 * bot, dc, co, bot, 2 * bot + 1, 4 * bot);
    SumFits(p, n, above);
    AddAt(t, 2 * bot, dc, co, 2 * bot, 2 * bot, 4 * bot);
    KeptAbove(d, dc[..], co, n, 4 * bot, p);
  }

  lemma {:induction false} MiddleRoom(d: seq<digit>, d': seq<digit>, co: nat, bot: nat, n: nat, m: int, y: int)
    requires bot >= 1 && 3 * bot <= n && co + 4 * bot <= |d| && OnlyRun(d, d', co, 2 * bot) && co + n <= |d|
    requires forall i :: co <= i < co + n ==> d[i] == 0
    requires 0 <= m < 2 * Exp(2 * bot) && 0 <= y
    requires Val(Run(d', co, 2 * bot)) + Shift(m, bot) + Shift(y, 2 * bot) < Exp(n)
    ensures Val(Run(d', co, 3 * bot + 1)) + Shift(m, bot) < Exp(3 * bot + 1)
  {
    hide Shift;
    var x := Run(d', co, 2 * bot);
    ValBound(x);
    if n == 3 * bot {
      CopiedVal(d, d', co, bot, n, 3 * bot + 1);
      var g := Run(d, co + n, 1);
      assert Val(g) == g[0];
      MiddleFits(Val(x), m, bot, n, g[0]);
    } else {
      CopiedVal(d, d', co, bot, 3 * bot + 1, 3 * bot + 1);
      MiddleFits(Val(x), m, bot, n, 0);
      ShiftZero(n);
      ShiftZero(3 * bot + 1);
    }
  }

  /** Digits above position n were written, but with what they held. */
  lemma {:induction false} KeptAbove(d: seq<digit>, d': seq<digit>, co: nat, n: nat, total: nat, p: int)
    requires n <= total && co + total <= |d| && OnlyRun(d, d', co, total)
    requires 0 <= p < Exp(n)
    requires Val(Run(d', co, total)) == p + Shift(Val(Run(d, co + n, total - n)), n)
    ensures Val(Run(d', co, n)) == p
    ensures OnlyRun(d, d', co, n)
  {
    hide Val, Shift;
    var s, g := Run(d', co, total), Run(d, co + n, total - n);
    SplitUnique(s, n, p, Val(g));
    ValUnique(s[n..], g);
    assert s[..n] == Run(d', co, n);
    forall i | 0 <= i < |d| && !(co <= i < co + n)
      ensures d'[i] == d[i]
    {
      if co + n <= i < co + total {
        assert d'[i] == s[n..][i - co - n];
      }
    }
  }

  /** (a0 + a1)(b0 + b1) less the two outer products is the middle one. */
  lemma {:induction false} CrossProduct(a0: int, a1: int, b0: int, b1: int)
    ensures (a0 + a1) * (b0 + b1) - a0 * b0 - a1 * b1 == a0 * b1 + a1 * b0
  {
    MulDist(a0, a1, b0 + b1);
    MulDist(b0, b1, a0);
    MulDist(b0, b1, a1);
  }

  lemma {:induction false} ProductBound(a: int, b: int, m: nat, n: nat)
    requires 0 <= a < Exp(m) && 0 <= b < Exp(n)
    ensures 0 <= a * b < Exp(m + n)
  {
    hide Shift;
    MulMono(0, a, b);
    MulMono(a, Exp(m), b);
    ShiftTimes(1, b, m);
    ShiftMono(b, Exp(n), m);
    ShiftShift(1, n, m);
  }

  /** The product of two runs split at position bot. */
  lemma {:induction false} KaratsubaSum(a0: int, a1: int, b0: int, b1: int, bot: nat)
    ensures (a0 + Shift(a1, bot)) * (b0 + Shift(b1, bot))
         == a0 * b0 + Shift(a0 * b1 + a1 * b0, bot) + Shift(a1 * b1, 2 * bot)
  {
    hide Shift;
    var x, y := Shift(a1, bot), Shift(b1, bot);
    CrossProduct(a0, x, b0, y);
    assert x * b0 == Shift(a1 * b0, bot) by { ShiftTimes(a1, b0, bot); }
    assert a0 * y == Shift(a0 * b1, bot) by { ShiftTimes(b1, a0, bot); MulComm(a0, y); MulComm(a0, b1); }
    assert x * y == Shift(a1 * b1, 2 * bot) by {
      ShiftTimes(a1, y, bot);
      ShiftTimes(b1, a1, bot);
      MulComm(a1, y);
      MulComm(a1, b1);
      ShiftShift(a1 * b1, bot, bot);
    }
    ShiftAdd(a0 * b1, a1 * b0, bot);
  }

  /** The middle product by way of the sums of the halves, in the upper half of the scratch buffer;
      the lower half is cleared again afterwards. */
  method Inner(threshold: nat, da: array<digit>, ao: nat, db: array<digit>, bo: nat, sizeA: nat, sizeB: nat, bot: nat)
    returns (t: array<digit>)
    requires threshold >= 4 && sizeA >= threshold && bot == (sizeA + 1) / 2 < sizeB <= sizeA
    requires ao + sizeA <= da.Length && bo + sizeB <= db.Length
    ensures fresh(t) && t.Length == 8 * bot
    ensures Val(Run(t[..], 4 * bot, 2 * bot + 2))
         == (Val(Run(da[..], ao, bot)) + Val(Run(da[..], ao + bot, sizeA - bot)))
          * (Val(Run(db[..], bo, bot)) + Val(Run(db[..], bo + bot, sizeB - bot)))
    ensures forall i :: 0 <= i < 4 * bot || 6 * bot + 2 <= i < 8 * bot ==> t[i] == 0
    decreases sizeA, 0
  {
    hide Val, Shift, Run;
    t := new digit[8 * bot](_ => 0);
    FoldHalves(da, ao, bot, sizeA - bot, t, 0);
    ghost var d := t[..];
    FoldHalves(db, bo, bot, sizeB - bot, t, 2 * bot);
    SameRun(d, t[..], 0, bot + 1, 2 * bot, bot + 1);
    KMul(threshold, t, 0, t, 2 * bot, t, 4 * bot, bot + 1, bot + 1);
    d := t[..];
    Clear(t, 0, bot + 1);
    SameRun(d, t[..], 4 * bot, 2 * bot + 2, 0, bot + 1);
    d := t[..];
    Clear(t, 2 * bot, bot + 1);
    SameRun(d, t[..], 4 * bot, 2 * bot + 2, 2 * bot, bot + 1);
  }

  /** The two outer products below the middle one. Each recursion may run over into the buffer above,
      but leaves what it finds there. */
  method Outer(threshold: nat, da: array<digit>, ao: nat, db: array<digit>, bo: nat, sizeA: nat, sizeB: nat, bot: nat,
               t: array<digit>)
    requires threshold >= 4 && sizeA >= threshold && bot == (sizeA + 1) / 2 < sizeB <= sizeA
    requires ao + sizeA <= da.Length && bo + sizeB <= db.Length && t != da && t != db && t.Length == 8 * bot
    requires forall i :: 0 <= i < 4 * bot ==> t[i] == 0
    modifies t
    ensures Val(Run(t[..], 0, 2 * bot)) == Val(Run(da[..], ao, bot)) * Val(Run(db[..], bo, bot))
    ensures Val(Run(t[..], 2 * bot, 2 * bot))
         == Val(Run(da[..], ao + bot, sizeA - bot)) * Val(Run(db[..], bo + bot, sizeB - bot))
    ensures OnlyRun(old(t[..]), t[..], 0, 4 * bot)
    decreases sizeA, 0
  {
    hide Val, Shift, Run;
    hide Span;
    KMul(threshold, da, ao, db, bo, t, 0, bot, bot);
    ghost var d := t[..];
    HighProduct(threshold, da, ao + bot, db, bo + bot, sizeA - bot, sizeB - bot, bot, t);
    SameRun(d, t[..], 0, 2 * bot, 2 * bot, 2 * bot);
  }

  /** The product of the upper halves, above the one of the lower halves. */
  method HighProduct(threshold: nat, da: array<digit>, ao: nat, db: array<digit>, bo: nat, restA: nat, restB: nat, bot: nat,
                     t: array<digit>)
    requires threshold >= 4 && 2 * bot >= threshold && restB <= restA <= bot
    requires ao + restA <= da.Length && bo + restB <= db.Length && t != da && t != db && t.Length == 8 * bot
    requires forall i :: 2 * bot <= i < 4 * bot ==> t[i] == 0
    modifies t
    ensures Val(Run(t[..], 2 * bot, 2 * bot)) == Val(Run(da[..], ao, restA)) * Val(Run(db[..], bo, restB))
    ensures OnlyRun(old(t[..]), t[..], 2 * bot, 2 * bot)
    decreases bot, 3
  {
    hide Val, Shift, Run, Span;
    KMul(threshold, da, ao, db, bo, t, 2 * bot, restA, restB);
    RunTrim(t[..], 2 * bot, restA + restB, 2 * bot);
  }

  /** Subtracts the outer products from the product of the sums; neither s_usub borrows out. */
  method TakeOuter(t: array<digit>, bot: nat, ghost a0: int, ghost a1: int, ghost b0: int, ghost b1: int)
    requires t.Length == 8 * bot && bot >= 2
    requires Val(Run(t[..], 0, 2 * bot)) == a0 * b0 && Val(Run(t[..], 2 * bot, 2 * bot)) == a1 * b1
    requires Val(Run(t[..], 4 * bot, 2 * bot + 2)) == (a0 + a1) * (b0 + b1)
    requires 0 <= a0 && 0 <= a1 && 0 <= b0 && 0 <= b1
    modifies t
    ensures Val(Run(t[..], 4 * bot, 2 * bot + 2)) == a0 * b1 + a1 * b0
    ensures OnlyRun(old(t[..]), t[..], 4 * bot, 2 * bot + 2)
  {
    hide Val, Shift, Run;
    ghost var d := t[..];
    CrossProduct(a0, a1, b0, b1);
    MulMono(0, a0, b1);
    MulMono(0, a1, b0);
    MulMono(0, a1, b1);
    USub(t, 4 * bot, t, 0, t, 4 * bot, 2 * bot + 2, 2 * bot);
    SameRun(d, t[..], 2 * bot, 2 * bot, 4 * bot, 2 * bot + 2);
    USub(t, 4 * bot, t, 2 * bot, t, 4 * bot, 2 * bot + 2, 2 * bot);
  }

  /** s_kmul with the longer operand first. */
  method KMulOrdered(threshold: nat, da: array<digit>, ao: nat, db: array<digit>, bo: nat, dc: array<digit>, co: nat,
                     sizeA: nat, sizeB: nat)
    requires threshold == 0 || threshold >= 4
    requires sizeB <= sizeA && ao + sizeA <= da.Length && bo + sizeB <= db.Length
    requires co + Span(threshold, sizeA, sizeB) <= dc.Length
    requires Apart(da, ao, sizeA, dc, co, Span(threshold, sizeA, sizeB))
    requires Apart(db, bo, sizeB, dc, co, Span(threshold, sizeA, sizeB))
    requires forall i :: co <= i < co + sizeA + sizeB ==> dc[i] == 0
    modifies dc
    ensures Val(Run(dc[..], co, sizeA + sizeB)) == old(Val(Run(da[..], ao, sizeA)) * Val(Run(db[..], bo, sizeB)))
    ensures OnlyRun(old(dc[..]), dc[..], co, sizeA + sizeB)
    decreases sizeA, 1
  {
    hide Val, Shift, Run;
    var bot := (sizeA + 1) / 2;
    if Recurses(threshold, sizeA, sizeB) {
      ghost var A0, A1 := Run(da[..], ao, bot), Run(da[..], ao + bot, sizeA - bot);
      ghost var B0, B1 := Run(db[..], bo, bot), Run(db[..], bo + bot, sizeB - bot);
      var t := Inner(threshold, da, ao, db, bo, sizeA, sizeB, bot);
      ghost var d := t[..];
      Outer(threshold, da, ao, db, bo, sizeA, sizeB, bot, t);
      SameRun(d, t[..], 4 * bot, 2 * bot + 2, 0, 4 * bot);
      ValBound(A0);
      ValBound(A1);
      ValBound(B0);
      ValBound(B1);
      d := t[..];
      TakeOuter(t, bot, Val(A0), Val(A1), Val(B0), Val(B1));
      SameRun(d, t[..], 0, 2 * bot, 4 * bot, 2 * bot + 2);
      SameRun(d, t[..], 2 * bot, 2 * bot, 4 * bot, 2 * bot + 2);
      ghost var p := ProductOfHalves(da[..], ao, db[..], bo, sizeA, sizeB, bot, t[..]);
      Assemble(t, dc, co, bot, sizeA + sizeB, p);
    } else {
      UMul(da, ao, db, bo, dc, co, sizeA, sizeB);
    }
  }

  /** The three partial products denote the whole product, and the middle one fits one digit more than the others. */
  lemma {:induction false} ProductOfHalves(a: seq<digit>, ao: nat, b: seq<digit>, bo: nat, sizeA: nat, sizeB: nat, bot: nat,
                                           t: seq<digit>)
    returns (p: int)
    requires bot <= sizeB <= sizeA <= 2 * bot && ao + sizeA <= |a| && bo + sizeB <= |b| && |t| == 8 * bot && bot >= 1
    requires var a0, a1 := Val(Run(a, ao, bot)), Val(Run(a, ao + bot, sizeA - bot));
      var b0, b1 := Val(Run(b, bo, bot)), Val(Run(b, bo + bot, sizeB - bot));
      && Val(Run(t, 0, 2 * bot)) == a0 * b0 && Val(Run(t, 2 * bot, 2 * bot)) == a1 * b1
      && Val(Run(t, 4 * bot, 2 * bot + 2)) == a0 * b1 + a1 * b0
    ensures p == Val(Run(a, ao, sizeA)) * Val(Run(b, bo, sizeB)) && p < Exp(sizeA + sizeB)
    ensures var x, y, m := Val(Run(t, 0, 2 * bot)), Val(Run(t, 2 * bot, 2 * bot)), Val(Run(t, 4 * bot, 2 * bot + 1));
      m < 2 * Exp(2 * bot) && p == x + Shift(m, bot) + Shift(y, 2 * bot)
  {
    hide Val, Shift;
    var A0, A1 := Run(a, ao, bot), Run(a, ao + bot, sizeA - bot);
    var B0, B1 := Run(b, bo, bot), Run(b, bo + bot, sizeB - bot);
    RunSplit(a, ao, bot, sizeA - bot);
    RunSplit(b, bo, bot, sizeB - bot);
    ValConcat(A0, A1);
    ValConcat(B0, B1);
    KaratsubaSum(Val(A0), Val(A1), Val(B0), Val(B1), bot);
    p := Val(A0 + A1) * Val(B0 + B1);
    ValBound(A0 + A1);
    ValBound(B0 + B1);
    ProductBound(Val(A0 + A1), Val(B0 + B1), sizeA, sizeB);
    MiddleBound(A0, A1, B0, B1);
    MiddleDigits(t, bot);
  }

  lemma {:induction false} MiddleDigits(t: seq<digit>, bot: nat)
    requires |t| == 8 * bot && bot >= 1 && Val(Run(t, 4 * bot, 2 * bot + 2)) < 2 * Exp(2 * bot)
    ensures Val(Run(t, 4 * bot, 2 * bot + 1)) == Val(Run(t, 4 * bot, 2 * bot + 2))
  {
    ExpMono(2 * bot, 2 * bot + 1);
    hide Val, Shift;
    var m := Run(t, 4 * bot, 2 * bot + 2);
    ValSmall(m, 2 * bot + 1);
    ValTrim(m, 2 * bot + 1);
    assert m[..2 * bot + 1] == Run(t, 4 * bot, 2 * bot + 1);
  }

  lemma {:induction false} MiddleBound(A0: seq<digit>, A1: seq<digit>, B0: seq<digit>, B1: seq<digit>)
    requires |A0| == |B0| && |A1| <= |A0| && |B1| <= |A0|
    ensures 0 <= Val(A0) * Val(B1) + Val(A1) * Val(B0) < 2 * Exp(2 * |A0|)
  {
    hide Val, Shift;
    var n := |A0|;
    ValBound(A0);
    ValBound(A1);
    ValBound(B0);
    ValBound(B1);
    ExpMono(|A1|, n);
    ExpMono(|B1|, n);
    ProductBound(Val(A0), Val(B1), n, n);
    ProductBound(Val(A1), Val(B0), n, n);
  }

  /** s_kmul: the exact product of two runs into a cleared run, for every threshold that is 0 or at least 4.
      Nothing above the product changes, although up to Span digits are touched. */
  method KMul(threshold: nat, da: array<digit>, ao: nat, db: array<digit>, bo: nat, dc: array<digit>, co: nat,
              sizeA: nat, sizeB: nat)
    requires threshold == 0 || threshold >= 4
    requires ao + sizeA <= da.Length && bo + sizeB <= db.Length
    requires co + Span(threshold, sizeA, sizeB) <= dc.Length
    requires Apart(da, ao, sizeA, dc, co, Span(threshold, sizeA, sizeB))
    requires Apart(db, bo, sizeB, dc, co, Span(threshold, sizeA, sizeB))
    requires forall i :: co <= i < co + sizeA + sizeB ==> dc[i] == 0
    modifies dc
    ensures Val(Run(dc[..], co, sizeA + sizeB)) == old(Val(Run(da[..], ao, sizeA)) * Val(Run(db[..], bo, sizeB)))
    ensures OnlyRun(old(dc[..]), dc[..], co, sizeA + sizeB)
    decreases Max(sizeA, sizeB), 2
  {
    hide Val, Shift, Run;
    if sizeB > sizeA {
      KMulOrdered(threshold, db, bo, da, ao, dc, co, sizeB, sizeA);
    } else {
      KMulOrdered(threshold, da, ao, db, bo, dc, co, sizeA, sizeB);
    }
  }
}
